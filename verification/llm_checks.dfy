/** The small checks wrapped around the model calls of the planners: the
    atomicity answer, the quality score, the abort test, the depth cutoff
    of the recursive decomposition, the merge of a formatted task back into
    the task list, and the plan agent's turn budget. */
module LlmChecks {
  import opened Wrappers
  import opened Json
  import opened Strs
  import opened Tasks

  // ---------------------------------------------------------------------
  // Membership among the literals the checks compare with

  /** Python `v in (l0, l1, ...)` for a tuple of scalar literals. */
  predicate PyIn(v: Value, lits: seq<Value>) {
    exists i :: 0 <= i < |lits| && PyEq(v, lits[i])
  }

  // ---------------------------------------------------------------------
  // The atomicity answer

  const AtomicChoices: seq<Value> := [Int(0), Int(1), Str("true"), Str("false")]

  /** `_validate_atomicity_response` (the same in all three copies). */
  predicate ValidAtomicity(result: Value) {
    result.Obj? && "atomic" in result.fields &&
    (result.fields["atomic"].Bool? || PyIn(result.fields["atomic"], AtomicChoices))
  }

  /** The accepted answers, listed: a bool, the int or float 0 or 1, or the
      string "true" or "false". Anything else, including "True", "yes" and
      2, is refused. */
  lemma ValidAtomicityIff(result: Value)
    ensures ValidAtomicity(result) <==>
      result.Obj? && "atomic" in result.fields &&
      var v := result.fields["atomic"];
      v.Bool? || v == Int(0) || v == Int(1) || v == Float(0.0) || v == Float(1.0) ||
      v == Str("true") || v == Str("false")
  {
    if result.Obj? && "atomic" in result.fields {
      var v := result.fields["atomic"];
      if v == Int(0) || v == Float(0.0) { assert PyEq(v, AtomicChoices[0]); }
      if v == Int(1) || v == Float(1.0) { assert PyEq(v, AtomicChoices[1]); }
      if v == Str("true") { assert PyEq(v, AtomicChoices[2]); }
      if v == Str("false") { assert PyEq(v, AtomicChoices[3]); }
    }
  }

  /** `bool(result.get("atomic"))`, as the code reads a validated answer:
      Python truthiness, under which every non-empty string is true. */
  function AtomicAnswerAsWritten(result: Value): (atomic: bool)
    requires ValidAtomicity(result)
    ensures atomic <==> Truthy(result.fields["atomic"])
  {
    Truthy(Get(result.fields, "atomic"))
  }

  /** The string "false" passes validation and is read as atomic. */
  lemma FalseStringReadAsAtomic()
    ensures ValidAtomicity(Obj(map["atomic" := Str("false")]))
    ensures AtomicAnswerAsWritten(Obj(map["atomic" := Str("false")]))
  {
    assert PyEq(Str("false"), AtomicChoices[3]);
  }

  /** The evident intent: each accepted spelling means what it says, so the
      strings are read by name and the rest by truthiness. */
  function AtomicAnswer(result: Value): (atomic: bool)
    requires ValidAtomicity(result)
  {
    var v := result.fields["atomic"];
    if v.Str? then v.s == "true" else Truthy(v)
  }

  /** Every accepted answer means true exactly when it spells true: `True`,
      1, 1.0 or "true". */
  lemma AtomicAnswerMeaning(result: Value)
    requires ValidAtomicity(result)
    ensures AtomicAnswer(result) <==>
      var v := result.fields["atomic"];
      v == Bool(true) || v == Int(1) || v == Float(1.0) || v == Str("true")
  {
    ValidAtomicityIff(result);
  }

  /** The intended reading differs from the written one on "false" alone. */
  lemma AtomicReadingsAgreeElsewhere(result: Value)
    requires ValidAtomicity(result)
    ensures AtomicAnswer(result) != AtomicAnswerAsWritten(result) <==>
      result.fields["atomic"] == Str("false")
  {
    ValidAtomicityIff(result);
  }

  // ---------------------------------------------------------------------
  // The quality score

  /** Python `int(x)` on a float: truncation toward zero. */
  function Trunc(x: real): int {
    if x >= 0.0 then x.Floor else -((-x).Floor)
  }

  /** `score` of `assess_quality`: a number (bool, int or float) truncated
      and clamped to [0, 100]; anything else, or an answer that is not a
      dict, gives 0. */
  function AssessScore(result: Value): (score: int)
    ensures 0 <= score <= 100
  {
    if !result.Obj? then 0
    else
      match Get(result.fields, "score")
      case Bool(b) => if b then 1 else 0
      case Int(i) => if i < 0 then 0 else if i > 100 then 100 else i
      case Float(x) => var n := Trunc(x); if n < 0 then 0 else if n > 100 then 100 else n
      case _ => 0
  }

  /** An in-range score is kept, an out-of-range one is pinned to the nearer
      end, a float in range keeps its whole part, and a non-number scores
      0. */
  lemma AssessScoreMeaning(result: Value)
    ensures result.Obj? && Get(result.fields, "score").Int? ==>
      var i := Get(result.fields, "score").i;
      (0 <= i <= 100 ==> AssessScore(result) == i) &&
      (i > 100 ==> AssessScore(result) == 100) && (i < 0 ==> AssessScore(result) == 0)
    ensures result.Obj? && Get(result.fields, "score").Float? ==>
      var x := Get(result.fields, "score").r;
      (0.0 <= x < 101.0 ==> AssessScore(result) as real <= x < AssessScore(result) as real + 1.0) &&
      (x >= 101.0 ==> AssessScore(result) == 100) && (x < 1.0 ==> AssessScore(result) == 0)
    ensures NumberOf(if result.Obj? then Get(result.fields, "score") else Null).None? ==> AssessScore(result) == 0
  {
    if result.Obj? && Get(result.fields, "score").Float? {
      var x := Get(result.fields, "score").r;
      TruncBounds(x);
    }
  }

  /** Truncation moves toward zero by less than one. */
  lemma TruncBounds(x: real)
    ensures x >= 0.0 ==> Trunc(x) as real <= x < Trunc(x) as real + 1.0
    ensures x < 0.0 ==> Trunc(x) as real - 1.0 < x <= Trunc(x) as real
    ensures x < 1.0 ==> Trunc(x) <= 0
  {
  }

  // ---------------------------------------------------------------------
  // Abort and depth

  /** `raise_if_aborted`: the event may be absent (`None`) or present and
      set or clear; the run stops exactly when it is present and set. */
  function RaiseIfAborted(event: Option<bool>): (r: Result<(), string>)
    ensures r.Err? <==> event == Some(true)
  {
    match event
    case Some(true) => Err("Aborted")
    case _ => Ok(())
  }

  const MaxDecomposeDepth: nat := 5

  /** What `_atomicity_and_decompose_recursive` does with a task. */
  datatype Step = Cancelled | FormatAtMaxDepth | FormatAtomic | DecomposeChildren(childDepth: nat)

  /** One level of the recursion: a cancelled run stops; at the depth limit
      the task is formatted without asking; otherwise the (intended)
      atomicity answer chooses between formatting and decomposing one level
      deeper. */
  function RecursiveStep(depth: nat, aborted: bool, answer: Value): (s: Step)
    requires ValidAtomicity(answer)
    ensures s.DecomposeChildren? ==> depth < MaxDecomposeDepth && s.childDepth == depth + 1 && !AtomicAnswer(answer)
    ensures s.FormatAtMaxDepth? <==> !aborted && depth >= MaxDecomposeDepth
  {
    if aborted then Cancelled
    else if depth >= MaxDecomposeDepth then FormatAtMaxDepth
    else if AtomicAnswer(answer) then FormatAtomic
    else DecomposeChildren(depth + 1)
  }

  /** The levels of decomposition along one branch, given the answers the
      model gives at each level. */
  function Levels(depth: nat, answers: seq<Value>): nat
    requires forall i :: 0 <= i < |answers| ==> ValidAtomicity(answers[i])
    decreases |answers|
  {
    if |answers| == 0 then 0
    else
      match RecursiveStep(depth, false, answers[0])
      case DecomposeChildren(d) => 1 + Levels(d, answers[1..])
      case _ => 0
  }

  /** Whatever the model answers, a branch that starts at depth `d` is
      decomposed at most `5 - d` more times: the tree is at most five levels
      below the root. */
  lemma {:induction false} LevelsBounded(depth: nat, answers: seq<Value>)
    requires forall i :: 0 <= i < |answers| ==> ValidAtomicity(answers[i])
    ensures depth <= MaxDecomposeDepth ==> Levels(depth, answers) <= MaxDecomposeDepth - depth
    ensures depth >= MaxDecomposeDepth ==> Levels(depth, answers) == 0
    decreases |answers|
  {
    if |answers| > 0 {
      match RecursiveStep(depth, false, answers[0])
      case DecomposeChildren(d) => LevelsBounded(d, answers[1..]);
      case _ =>
    }
  }

  // ---------------------------------------------------------------------
  // Formatting a task and merging it back

  datatype FormatError = AnswerNotADict | MissingInputOutput

  /** `_format_task`: both answers must be dicts; without a truthy `input`
      and `output` there is nothing; a `validation` dict is kept when it is
      non-empty. */
  function FormatTask(resultIo: Value, resultVal: Value): (r: Result<map<string, Value>, FormatError>)
    ensures r.Ok? ==> "input" in r.value && "output" in r.value && Truthy(r.value["input"]) && Truthy(r.value["output"])
    ensures r.Ok? ==> r.value.Keys <= {"input", "output", "validation"}
    ensures r.Ok? ==> resultVal.Obj?
    ensures r.Ok? && resultVal.Obj? ==> ("validation" in r.value <==> Get(resultVal.fields, "validation").Obj? && Truthy(Get(resultVal.fields, "validation")))
    ensures r == Err(MissingInputOutput) <==>
      resultIo.Obj? && !(Truthy(Get(resultIo.fields, "input")) && Truthy(Get(resultIo.fields, "output")))
  {
    if !resultIo.Obj? then Err(AnswerNotADict)
    else if !Truthy(Get(resultIo.fields, "input")) || !Truthy(Get(resultIo.fields, "output")) then Err(MissingInputOutput)
    else if !resultVal.Obj? then Err(AnswerNotADict)
    else
      var io := map["input" := resultIo.fields["input"], "output" := resultIo.fields["output"]];
      var val := Get(resultVal.fields, "validation");
      Ok(if val.Obj? && Truthy(val) then io["validation" := val] else io)
  }

  /** `all_tasks[idx] = {**all_tasks[idx], **io_result}` at the first task
      with the id, when there is one. */
  function MergeFormatted(all: seq<Task>, tid: string, io: map<string, Value>): (r: seq<Task>)
    ensures |r| == |all|
  {
    var idx := FindTaskIdx(all, tid);
    if idx < 0 then all else all[idx := all[idx].(attrs := all[idx].attrs + io)]
  }

  /** Only the first task with the id changes: it keeps its id and
      dependencies and takes the formatted fields over its own; a list
      without the id is left as it was. */
  lemma MergeFormattedMeaning(all: seq<Task>, tid: string, io: map<string, Value>)
    ensures forall i :: 0 <= i < |all| && (all[i].id != tid || exists j :: 0 <= j < i && all[j].id == tid) ==>
      MergeFormatted(all, tid, io)[i] == all[i]
    ensures forall i :: 0 <= i < |all| && all[i].id == tid && (forall j :: 0 <= j < i ==> all[j].id != tid) ==>
      var t := MergeFormatted(all, tid, io)[i];
      t.id == tid && t.deps == all[i].deps && t.attrs.Keys == all[i].attrs.Keys + io.Keys &&
      (forall k :: k in io ==> t.attrs[k] == io[k]) &&
      (forall k :: k in all[i].attrs && k !in io ==> t.attrs[k] == all[i].attrs[k])
  {
  }

  // ---------------------------------------------------------------------
  // The plan agent's turn budget

  const MaxPlanAgentTurns: int := 30

  /** Python `int(s)` on a string: surrounding whitespace, an optional sign,
      then ASCII digits. */
  function IntOfString(s: string): (r: Option<int>)
    ensures r.Some? ==> |Strip(s)| > 0
  {
    var t := Strip(s);
    if IsDigits(t) then Some(DigitsValue(t))
    else if |t| > 1 && (t[0] == '+' || t[0] == '-') && IsDigits(t[1..]) then
      Some(if t[0] == '-' then -(DigitsValue(t[1..]) as int) else DigitsValue(t[1..]))
    else None
  }

  /** Python `int(v)`: bools count as 0 and 1, floats truncate, strings
      parse; `None`, lists and dicts raise. */
  function PyInt(v: Value): Option<int> {
    match v
    case Bool(b) => Some(if b then 1 else 0)
    case Int(i) => Some(i)
    case Float(x) => Some(Trunc(x))
    case Str(s) => IntOfString(s)
    case _ => None
  }

  /** Index of the first exponent mark `e` or `E`, `|u|` when there is none. */
  function ExpMark(u: string): (r: nat)
    ensures r <= |u|
    ensures r < |u| ==> u[r] == 'e' || u[r] == 'E'
    ensures forall j :: 0 <= j < r ==> u[j] != 'e' && u[j] != 'E'
  {
    if |u| == 0 || u[0] == 'e' || u[0] == 'E' then 0 else 1 + ExpMark(u[1..])
  }

  /** The digits of a decimal numeral with at most one point and at least
      one digit: `5`, `5.`, `.5`, `0.25`. */
  predicate Mantissa(m: string) {
    Count(m, '.') <= 1 && Count(m, '.') < |m| &&
    forall i :: 0 <= i < |m| ==> IsAsciiDigit(m[i]) || m[i] == '.'
  }

  /** An exponent after its mark: an optional sign, then digits. */
  predicate ExponentDigits(x: string) {
    IsDigits(x) || (|x| > 1 && (x[0] == '+' || x[0] == '-') && IsDigits(x[1..]))
  }

  /** A decimal numeral, optionally followed by an exponent. */
  predicate DecimalNumeral(u: string) {
    var k := ExpMark(u);
    Mantissa(u[..k]) && (k == |u| || ExponentDigits(u[k + 1..]))
  }

  /** The strings Python `float(s)` accepts: surrounding whitespace, an
      optional sign, then a decimal numeral or `inf`, `infinity` or `nan`
      in any case. */
  predicate FloatString(s: string) {
    UnsignedFloat(Unsigned(Strip(s)))
  }

  /** What may follow the sign: a special word in any case, or a numeral. */
  predicate UnsignedFloat(u: string) {
    SpecialWord(Upper(u)) || DecimalNumeral(u)
  }

  /** The text after an optional leading sign. */
  function Unsigned(t: string): string {
    if |t| > 0 && (t[0] == '+' || t[0] == '-') then t[1..] else t
  }

  /** The words `float()` reads as infinity and not-a-number, upper-cased. */
  predicate SpecialWord(w: string) {
    w == "INF" || w == "INFINITY" || w == "NAN"
  }

  /** Whether Python `float(v)` returns: numbers and bools do, strings when
      they spell a number; `None`, lists and dicts raise. */
  predicate FloatAccepts(v: Value) {
    match v
    case Bool(_) => true
    case Int(_) => true
    case Float(_) => true
    case Str(s) => FloatString(s)
    case _ => false
  }

  /** A string of digits is a number to `float()` as well as to `int()`. */
  lemma DigitsAreFloat(s: string)
    requires IsDigits(s)
    ensures FloatString(s)
  {
    DigitsAreUnsignedFloat(s);
    StripDigits(s);
    PlainFloatString(s);
  }

  lemma DigitsAreUnsignedFloat(s: string)
    requires IsDigits(s)
    ensures Unsigned(s) == s && UnsignedFloat(s)
  {
    DigitsAreNumeral(s);
  }

  /** With no whitespace or sign to remove, `float()` reads the text itself. */
  lemma PlainFloatString(s: string)
    requires Strip(s) == s && Unsigned(s) == s
    ensures FloatString(s) == UnsignedFloat(s)
  {
  }

  lemma DigitsAreNumeral(s: string)
    requires IsDigits(s)
    ensures DecimalNumeral(s)
  {
    assert forall i :: 0 <= i < |s| ==> s[i] != '.' && s[i] != 'e' && s[i] != 'E';
    CountAbsent(s, '.');
    assert ExpMark(s) == |s|;
    assert s[..ExpMark(s)] == s;
  }

  /** `x.get(k) or {}` on a dict: the value when truthy, otherwise an empty
      dict; `None` when `x` is not a dict (the `.get` raises). */
  function SubConfig(x: Value, k: string): Option<Value> {
    if !x.Obj? then None
    else
      var v := Get(x.fields, k);
      Some(if Truthy(v) then v else Obj(map[]))
  }

  /** `agent_cfg.get("planLlmTemperature") or llm_cfg.get("planLlmTemperature") or 0.3`,
      `None` when the `llm` section has to be read and is not a dict. */
  function ChosenTemperature(agent: map<string, Value>, llm: Value): Option<Value> {
    var fromAgent := Get(agent, "planLlmTemperature");
    if Truthy(fromAgent) then Some(fromAgent)
    else if !llm.Obj? then None
    else
      var fromLlm := Get(llm.fields, "planLlmTemperature");
      Some(if Truthy(fromLlm) then fromLlm else Float(0.3))
  }

  /** The `max_turns` part of `_get_plan_agent_params`, `None` when the
      call raises: a truthy non-dict mode or agent section, a budget `int()`
      refuses, a truthy non-dict `llm` section read for the temperature
      because the agent section has none, or a temperature `float()`
      refuses. */
  function PlanAgentMaxTurns(apiConfig: map<string, Value>): Option<int> {
    var modeCfg := Get(apiConfig, "modeConfig");
    var mode := if Truthy(modeCfg) then modeCfg else Obj(map[]);
    match SubConfig(mode, "agent")
    case None => None
    case Some(agent) =>
      var llm := Or(Get(mode.fields, "llm"), Obj(map[]));
      if !agent.Obj? then None
      else match TurnsFrom(agent.fields)
        case None => None
        case Some(n) =>
          match ChosenTemperature(agent.fields, llm)
          case None => None
          case Some(temp) => if FloatAccepts(temp) then Some(n) else None
  }

  /** `int(agent_cfg.get("planAgentMaxTurns") or MAX_PLAN_AGENT_TURNS)` */
  function TurnsFrom(agent: map<string, Value>): Option<int> {
    var raw := Get(agent, "planAgentMaxTurns");
    if Truthy(raw) then PyInt(raw) else Some(MaxPlanAgentTurns)
  }

  /** Without a truthy `planAgentMaxTurns` the budget is 30; a positive
      integer, or a string of digits, is used as given; a list or dict
      raises. */
  lemma TurnsFromMeaning(agent: map<string, Value>)
    ensures !Truthy(Get(agent, "planAgentMaxTurns")) ==> TurnsFrom(agent) == Some(MaxPlanAgentTurns)
    ensures Get(agent, "planAgentMaxTurns").Int? && Get(agent, "planAgentMaxTurns").i > 0 ==>
      TurnsFrom(agent) == Some(Get(agent, "planAgentMaxTurns").i)
    ensures Get(agent, "planAgentMaxTurns").Str? && IsDigits(Get(agent, "planAgentMaxTurns").s) ==>
      TurnsFrom(agent) == Some(DigitsValue(Get(agent, "planAgentMaxTurns").s))
    ensures (Get(agent, "planAgentMaxTurns").Arr? || Get(agent, "planAgentMaxTurns").Obj?) && Truthy(Get(agent, "planAgentMaxTurns")) ==>
      TurnsFrom(agent) == None
  {
    var v := Get(agent, "planAgentMaxTurns");
    if v.Str? && IsDigits(v.s) {
      DigitsParse(v.s);
    }
  }

  /** A string of digits parses to its value. */
  lemma DigitsParse(s: string)
    requires IsDigits(s)
    ensures IntOfString(s) == Some(DigitsValue(s))
  {
    StripDigits(s);
  }

  /** Whether reading the temperature raises, given the agent section's
      fields and the raw `llm` entry: the agent's own truthy temperature
      must pass `float()`; without one, a truthy `llm` entry must be a dict
      and its truthy temperature must pass `float()`. */
  predicate TemperatureRaises(agent: map<string, Value>, llm: Value) {
    var fromAgent := Get(agent, "planLlmTemperature");
    if Truthy(fromAgent) then !FloatAccepts(fromAgent)
    else (Truthy(llm) && !llm.Obj?) ||
         (llm.Obj? && Truthy(Get(llm.fields, "planLlmTemperature")) && !FloatAccepts(Get(llm.fields, "planLlmTemperature")))
  }

  /** The agent section is read from the mode section: no mode section at
      all gives 30, a dict agent section decides the budget, and the call
      raises on a section that is not a dict (the mode, the agent, or the
      `llm` section when it is asked for the temperature) and on a chosen
      temperature `float()` refuses. */
  lemma PlanAgentMaxTurnsMeaning(apiConfig: map<string, Value>)
    ensures !Truthy(Get(apiConfig, "modeConfig")) ==> PlanAgentMaxTurns(apiConfig) == Some(MaxPlanAgentTurns)
    ensures Truthy(Get(apiConfig, "modeConfig")) && !Get(apiConfig, "modeConfig").Obj? ==> PlanAgentMaxTurns(apiConfig) == None
    ensures var mode := Get(apiConfig, "modeConfig");
      mode.Obj? ==>
        var agent := Get(mode.fields, "agent");
        var llm := Get(mode.fields, "llm");
        (agent.Obj? ==> PlanAgentMaxTurns(apiConfig) ==
                          (if TemperatureRaises(agent.fields, llm) then None else TurnsFrom(agent.fields))) &&
        (!Truthy(agent) ==> PlanAgentMaxTurns(apiConfig) ==
                              (if TemperatureRaises(map[], llm) then None else Some(MaxPlanAgentTurns))) &&
        (Truthy(agent) && !agent.Obj? ==> PlanAgentMaxTurns(apiConfig) == None)
  {
  }

  /** The example of a truthy non-dict `llm` section next to an agent
      section without a temperature: the call raises. */
  lemma NonDictLlmSectionRaises()
    ensures PlanAgentMaxTurns(map["modeConfig" := Obj(map["agent" := Obj(map[]), "llm" := Str("x")])]) == None
  {
  }

  /** An agent section whose own truthy temperature `float()` refuses
      makes the call raise, whatever its budget. */
  lemma RefusedAgentTemperatureRaises(apiConfig: map<string, Value>, agent: map<string, Value>)
    requires Get(apiConfig, "modeConfig") == Obj(map["agent" := Obj(agent)])
    requires TurnsFrom(agent).Some? && Truthy(Get(agent, "planLlmTemperature"))
    requires !FloatAccepts(Get(agent, "planLlmTemperature"))
    ensures PlanAgentMaxTurns(apiConfig) == None
  {
  }

  /** Without an agent section, a truthy temperature in the `llm` section
      that `float()` accepts leaves the default budget. */
  lemma AcceptedLlmTemperatureKeepsBudget(apiConfig: map<string, Value>, llm: map<string, Value>)
    requires Get(apiConfig, "modeConfig") == Obj(map["llm" := Obj(llm)])
    requires Truthy(Get(llm, "planLlmTemperature")) && FloatAccepts(Get(llm, "planLlmTemperature"))
    ensures PlanAgentMaxTurns(apiConfig) == Some(MaxPlanAgentTurns)
  {
  }

  /** A word for a temperature makes `float()` raise. */
  lemma TemperatureWordRaises()
    ensures PlanAgentMaxTurns(map["modeConfig" := Obj(map["agent" := Obj(map["planLlmTemperature" := Str("warm")])])]) == None
  {
    var agent := map["planLlmTemperature" := Str("warm")];
    assert Get(agent, "planAgentMaxTurns") == Null;
    WordIsNoFloat();
    RefusedAgentTemperatureRaises(map["modeConfig" := Obj(map["agent" := Obj(agent)])], agent);
  }

  /** A numeral for a temperature in the `llm` section is accepted. */
  lemma TemperatureNumeralAccepted()
    ensures PlanAgentMaxTurns(map["modeConfig" := Obj(map["llm" := Obj(map["planLlmTemperature" := Str("0.7")])])]) == Some(MaxPlanAgentTurns)
  {
    var llm := map["planLlmTemperature" := Str("0.7")];
    NumeralIsFloat();
    AcceptedLlmTemperatureKeepsBudget(map["modeConfig" := Obj(map["llm" := Obj(llm)])], llm);
  }

  lemma WordIsNoFloat()
    ensures !FloatAccepts(Str("warm"))
  {
    StripPlain("warm");
    WordIsNoUnsignedFloat();
    PlainFloatString("warm");
  }

  lemma WordIsNoUnsignedFloat()
    ensures Unsigned("warm") == "warm" && !UnsignedFloat("warm")
  {
    assert |Upper("warm")| == 4;
    assert !SpecialWord(Upper("warm"));
    WordIsNoNumeral();
  }

  lemma WordIsNoNumeral()
    ensures !DecimalNumeral("warm")
  {
    assert ExpMark("warm") == 4;
    assert "warm"[..4] == "warm";
    assert !IsAsciiDigit("warm"[0]);
  }

  lemma NumeralIsFloat()
    ensures FloatAccepts(Str("0.7"))
  {
    StripPlain("0.7");
    PointSevenIsUnsignedFloat();
    PlainFloatString("0.7");
  }

  lemma PointSevenIsUnsignedFloat()
    ensures Unsigned("0.7") == "0.7" && UnsignedFloat("0.7")
  {
    PointSevenIsNumeral();
  }

  lemma PointSevenIsNumeral()
    ensures DecimalNumeral("0.7")
  {
    assert ExpMark("0.7") == 3;
    assert "0.7"[..3] == "0.7";
    assert "0.7"[..2] == "0." && "0."[..1] == "0" && "0"[..0] == "";
    assert Count("0.7", '.') == 1;
  }

  /** A string of digits has nothing to strip. */
  lemma StripDigits(s: string)
    requires IsDigits(s)
    ensures Strip(s) == s
  {
    StripPlain(s);
  }

  /** A string that neither starts nor ends with whitespace has nothing to
      strip. */
  lemma StripPlain(s: string)
    requires |s| > 0 && !IsSpace(s[0]) && !IsSpace(s[|s| - 1])
    ensures Strip(s) == s
  {
    assert StripLeft(s) == s;
  }
}
