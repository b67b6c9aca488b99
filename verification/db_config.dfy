/** The pure part of the file store: the checks on plan and task ids that
    guard every path it builds, and the resolution of the saved API
    configuration (presets, the current preset, and the AI mode). */
module DbConfig {
  import opened Wrappers
  import opened Json
  import opened Strs

  type Dict = map<string, Value>

  // ---------------------------------------------------------------------
  // Ids

  /** No `..`, `/` or `\` anywhere. */
  predicate NoSeparators(s: string) {
    !ContainsSub(s, "..") && '/' !in s && '\\' !in s
  }

  /** `_validate_plan_id`: a non-empty string without path separators. */
  function ValidatePlanId(v: Value): (r: Result<(), string>) {
    if !v.Str? || v.s == "" then Err("plan_id must be a non-empty string")
    else if !NoSeparators(v.s) then Err("plan_id must not contain path separators")
    else Ok(())
  }

  /** A plan id is accepted exactly when it is a non-empty string that
      cannot climb or cross directories. */
  lemma ValidatePlanIdIff(v: Value)
    ensures ValidatePlanId(v).Ok? <==> v.Str? && v.s != "" && NoSeparators(v.s)
  {
  }

  /** `[a-zA-Z0-9_]` */
  predicate IsWordChar(c: char) {
    'a' <= c <= 'z' || 'A' <= c <= 'Z' || '0' <= c <= '9' || c == '_'
  }

  /** `[a-zA-Z0-9_]+` over the whole of `s`. */
  predicate AllWord(s: string) {
    |s| > 0 && forall i :: 0 <= i < |s| ==> IsWordChar(s[i])
  }

  /** `re.match(r"^[a-zA-Z0-9_]+$", s)`: Python's `$` also matches just
      before a final newline, so one trailing newline slips through. */
  predicate MatchesWordPattern(s: string) {
    AllWord(s) || (|s| >= 2 && s[|s| - 1] == '\n' && AllWord(s[..|s| - 1]))
  }

  /** `_validate_task_id` as written. */
  function ValidateTaskIdAsWritten(v: Value): (r: Result<(), string>) {
    if !v.Str? || v.s == "" then Err("task_id must be a non-empty string")
    else if !NoSeparators(v.s) then Err("task_id must not contain path separators")
    else if !MatchesWordPattern(v.s) then Err("task_id must contain only letters, digits, and underscores")
    else Ok(())
  }

  /** Text without a dot cannot hold `..`. */
  lemma NoDotNoDotDot(s: string)
    requires '.' !in s
    ensures !ContainsSub(s, "..")
  {
    forall i | 0 <= i <= |s| ensures !SubAt(s, "..", i) {
      if i <= |s| - 2 {
        assert s[i..i + 2][0] == s[i];
      }
    }
  }

  /** The id "1" followed by a newline is accepted, though a newline is
      neither a letter, a digit nor an underscore. */
  lemma TrailingNewlineAccepted()
    ensures ValidateTaskIdAsWritten(Str("1\n")).Ok?
  {
    var s := "1\n";
    assert AllWord(s[..1]);
    assert '/' !in s && '\\' !in s;
    NoDotNoDotDot(s);
  }

  /** `_validate_task_id` as its message says: the whole id is letters,
      digits and underscores. */
  function ValidateTaskId(v: Value): (r: Result<(), string>) {
    if !v.Str? || v.s == "" then Err("task_id must be a non-empty string")
    else if !NoSeparators(v.s) then Err("task_id must not contain path separators")
    else if !AllWord(v.s) then Err("task_id must contain only letters, digits, and underscores")
    else Ok(())
  }

  /** Accepted exactly when the id is non-empty and made of word
      characters only; the separator test is then implied. */
  lemma ValidateTaskIdIff(v: Value)
    ensures ValidateTaskId(v).Ok? <==> v.Str? && AllWord(v.s)
  {
    if v.Str? && AllWord(v.s) {
      assert '/' !in v.s && '\\' !in v.s by {
        forall i | 0 <= i < |v.s| ensures v.s[i] != '/' && v.s[i] != '\\' { assert IsWordChar(v.s[i]); }
      }
      assert '.' !in v.s by {
        forall i | 0 <= i < |v.s| ensures v.s[i] != '.' { assert IsWordChar(v.s[i]); }
      }
      NoDotNoDotDot(v.s);
    }
  }

  /** Every id the corrected check accepts, the written one accepts too;
      they differ only on ids ending in one newline. */
  lemma TaskIdChecksDiffer(v: Value)
    ensures ValidateTaskId(v).Ok? ==> ValidateTaskIdAsWritten(v).Ok?
    ensures ValidateTaskIdAsWritten(v).Ok? && !ValidateTaskId(v).Ok? ==> v.Str? && v.s[|v.s| - 1] == '\n'
  {
    ValidateTaskIdIff(v);
  }

  // ---------------------------------------------------------------------
  // AI mode

  /** `_ai_mode_to_flags`: (`useMock`, `executorAgentMode`). */
  function AiModeToFlags(mode: Value): (bool, bool) {
    if mode == Str("mock") then (true, false)
    else if mode == Str("llm-agent") then (false, true)
    else (false, false)
  }

  /** The legacy flags read back as a mode, as `_resolve_api_config` does
      when no mode is saved. */
  function LegacyMode(useMock: bool, execAgent: bool): string {
    if useMock then "mock" else if execAgent then "llm-agent" else "llm"
  }

  /** The two translations are inverse on the three modes, and the flags
      are never both set. */
  lemma ModeFlagsRoundTrip(m: string, useMock: bool, execAgent: bool)
    ensures m in {"mock", "llm", "llm-agent"} ==> LegacyMode(AiModeToFlags(Str(m)).0, AiModeToFlags(Str(m)).1) == m
    ensures AiModeToFlags(Str(LegacyMode(useMock, execAgent))) == (useMock, !useMock && execAgent)
    ensures !(AiModeToFlags(Str(m)).0 && AiModeToFlags(Str(m)).1)
  {
  }

  /** `d.get(k, default)` */
  function GetOr(d: Dict, k: string, default: Value): Value {
    if k in d then d[k] else default
  }

  /** The mode `_resolve_api_config` settles on: the saved `aiMode` (or
      `ai_mode`), else one read from the legacy flags when either spelling
      of `useMock` is saved, else "mock". */
  function ResolvedMode(raw: Dict): (m: Value)
    ensures Truthy(m)
  {
    var saved := Or(Get(raw, "aiMode"), Get(raw, "ai_mode"));
    var legacy :=
      if !Truthy(saved) && ("useMock" in raw || "use_mock" in raw) then
        var useMock := GetOr(raw, "useMock", GetOr(raw, "use_mock", Bool(true)));
        var exec := GetOr(raw, "executorAgentMode", GetOr(raw, "executor_agent_mode", Bool(false)));
        Str(LegacyMode(Truthy(useMock), Truthy(exec)))
      else saved;
    Or(legacy, Str("mock"))
  }

  /** Keys that never reach the resolved configuration from the raw one. */
  const SelectionKeys: set<string> := {"presets", "current", "aiMode", "ai_mode"}

  /** The current preset is used: presets is a dict and the (truthy)
      current name is one of its keys. */
  predicate PresetChosen(raw: Dict) {
    var presets := Get(raw, "presets");
    var current := Get(raw, "current");
    presets.Obj? && current.Str? && current.s != "" && current.s in presets.fields
  }

  /** The base the flags are written into: the current preset without its
      label, or the raw configuration without the selection keys. A current
      value that cannot be a dict key, or a chosen preset that is not a
      dict, raises. */
  function ResolvedBase(raw: Dict): (r: Result<Dict, string>)
    ensures PresetChosen(raw) ==>
      r == (if Get(raw, "presets").fields[raw["current"].s].Obj?
            then Ok(Get(raw, "presets").fields[raw["current"].s].fields - {"label"})
            else Err("preset is not a dict"))
    ensures !PresetChosen(raw) && r.Ok? ==> r.value == map k | k in raw && k !in SelectionKeys :: raw[k]
    ensures r.Err? <==> if PresetChosen(raw) then !Get(raw, "presets").fields[raw["current"].s].Obj?
                        else Get(raw, "presets").Obj? && (Get(raw, "current").Arr? || Get(raw, "current").Obj?) && Truthy(Get(raw, "current"))
  {
    var presets := Get(raw, "presets");
    var current := Get(raw, "current");
    if presets.Obj? && Truthy(current) && (current.Arr? || current.Obj?) then Err("unhashable current preset")
    else if presets.Obj? && Truthy(current) && current.Str? && current.s in presets.fields then
      var p := presets.fields[current.s];
      if !p.Obj? then Err("preset is not a dict") else Ok(p.fields - {"label"})
    else Ok(map k | k in raw && k !in SelectionKeys :: raw[k])
  }

  /** The fields of a dict value; none for anything else. */
  function Fields(v: Value): Dict {
    if v.Obj? then v.fields else map[]
  }

  /** The planner temperature: the first of the `llm` and `llm-agent` mode
      sections whose `plannerTemperature` is not `None`. `float()` of it is
      `toFloat` (it may raise). A mode section that is not a dict raises. */
  function PlannerTemperature(modeConfig: Value, toFloat: Value -> Option<real>): Result<Option<real>, string> {
    if !modeConfig.Obj? then Err("modeConfig is not a dict")
    else
      var pm := Or(Get(modeConfig.fields, "llm"), Obj(map[]));
      if !pm.Obj? then Err("mode section is not a dict")
      else if !Get(pm.fields, "plannerTemperature").Null? then
        match toFloat(Get(pm.fields, "plannerTemperature"))
        case None => Err("temperature is not a number")
        case Some(t) => Ok(Some(t))
      else
        var pa := Or(Get(modeConfig.fields, "llm-agent"), Obj(map[]));
        if !pa.Obj? then Err("mode section is not a dict")
        else if !Get(pa.fields, "plannerTemperature").Null? then
          match toFloat(Get(pa.fields, "plannerTemperature"))
          case None => Err("temperature is not a number")
          case Some(t) => Ok(Some(t))
        else Ok(None)
  }

  /** `_resolve_api_config`. */
  function ResolveApiConfig(raw: Dict, toFloat: Value -> Option<real>): (r: Result<Dict, string>)
    ensures raw == map[] ==> r == Ok(map[])
  {
    if raw == map[] then Ok(map[])
    else
      var flags := AiModeToFlags(ResolvedMode(raw));
      var modeConfig := Or(Get(raw, "modeConfig"), Obj(map[]));
      match ResolvedBase(raw)
      case Err(e) => Err(e)
      case Ok(base) =>
        match PlannerTemperature(modeConfig, toFloat)
        case Err(e) => Err(e)
        case Ok(temp) => Ok(WithFlags(base, flags, modeConfig, temp))
  }

  /** A resolved configuration always carries flags that agree with the
      resolved mode, and the mode section (an empty dict when none is
      saved); every other key comes from the chosen base. */
  lemma ResolveApiConfigMeaning(raw: Dict, toFloat: Value -> Option<real>)
    requires raw != map[] && ResolveApiConfig(raw, toFloat).Ok?
    ensures var cfg := ResolveApiConfig(raw, toFloat).value;
      var flags := AiModeToFlags(ResolvedMode(raw));
      cfg["useMock"] == Bool(flags.0) && cfg["executorAgentMode"] == Bool(flags.1) &&
      cfg["modeConfig"] == Or(Get(raw, "modeConfig"), Obj(map[])) &&
      !(flags.0 && flags.1) &&
      forall k :: k in cfg && k !in {"useMock", "executorAgentMode", "modeConfig", "temperature"} ==>
        k in ResolvedBase(raw).value && cfg[k] == ResolvedBase(raw).value[k]
  {
    var flags := AiModeToFlags(ResolvedMode(raw));
    var modeConfig := Or(Get(raw, "modeConfig"), Obj(map[]));
    var base := ResolvedBase(raw).value;
    var temp := PlannerTemperature(modeConfig, toFloat).value;
    WithFlagsMeaning(base, flags, modeConfig, temp);
  }

  /** The resolved configuration assembled from its base, flags, mode
      section and temperature. */
  function WithFlags(base: Dict, flags: (bool, bool), modeConfig: Value, temp: Option<real>): Dict {
    var cfg := base["useMock" := Bool(flags.0)]["executorAgentMode" := Bool(flags.1)]["modeConfig" := modeConfig];
    if temp.Some? then cfg["temperature" := Float(temp.value)] else cfg
  }

  lemma WithFlagsMeaning(base: Dict, flags: (bool, bool), modeConfig: Value, temp: Option<real>)
    ensures var cfg := WithFlags(base, flags, modeConfig, temp);
      cfg["useMock"] == Bool(flags.0) && cfg["executorAgentMode"] == Bool(flags.1) &&
      cfg["modeConfig"] == modeConfig &&
      forall k :: k in cfg && k !in {"useMock", "executorAgentMode", "modeConfig", "temperature"} ==>
        k in base && cfg[k] == base[k]
  {
  }

  /** Without a saved mode, the legacy flags decide it: `useMock` (default
      true once either spelling is present) wins over `executorAgentMode`. */
  lemma LegacyFlagsDecide(raw: Dict)
    requires !Truthy(Get(raw, "aiMode")) && !Truthy(Get(raw, "ai_mode"))
    ensures "useMock" in raw && Truthy(raw["useMock"]) ==> ResolvedMode(raw) == Str("mock")
    ensures "useMock" in raw && !Truthy(raw["useMock"]) && Truthy(Get(raw, "executorAgentMode")) ==> ResolvedMode(raw) == Str("llm-agent")
    ensures "useMock" !in raw && "use_mock" !in raw ==> ResolvedMode(raw) == Str("mock")
  {
  }
}
