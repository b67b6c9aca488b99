/** The rule-based check of a task's output against its output spec: a
    format check, a completeness check and an always-passing alignment
    check, with a markdown report. Whether a string parses as JSON is left
    to the `parses` parameter. */
module OutputValidation {
  import opened Wrappers
  import opened Json
  import opened Strs

  type Dict = map<string, Value>

  /** The format named in the spec (`""` when none), or an error when the
      named format is not text (`.strip()` fails on it). */
  function FormatName(outputSpec: Dict): Result<string, string> {
    var f := if Truthy(Get(outputSpec, "format")) then Get(outputSpec, "format") else Str("");
    if f.Str? then Ok(f.s) else Err("format is not a string")
  }

  /** A JSON format: the stripped, upper-cased name mentions JSON. */
  predicate IsJsonFormat(format: string) {
    ContainsSub(Upper(Strip(format)), "JSON")
  }

  /** Text with something other than whitespace in it. */
  predicate HasText(v: Value) {
    v.Str? && !IsBlank(v.s)
  }

  /** What the non-JSON format check inspects: the `content` entry of a
      dict (the dict itself when it has none), or the result itself. */
  function ContentOf(result: Value): Value {
    if result.Obj? then (if "content" in result.fields then result.fields["content"] else result) else result
  }

  /** Criterion 1. A dict is taken as already parsed; any other non-string
      value serialises. */
  predicate FormatOk(result: Value, format: string, parses: string -> bool) {
    if IsJsonFormat(format) then !result.Str? || parses(result.s)
    else var c := ContentOf(result); !c.Null? && (HasText(c) || !c.Str?)
  }

  /** Criterion 2. */
  predicate ContentComplete(result: Value) {
    if result.Obj? then "content" in result.fields || |result.fields| > 0
    else !result.Null? && (!result.Str? || HasText(result))
  }

  function Verdict(ok: bool): string {
    if ok then "PASS" else "FAIL"
  }

  /** The three checks with their labels, in report order. */
  function Checks(result: Value, format: string, parses: string -> bool): (cs: seq<(string, bool)>)
    ensures |cs| == 3
  {
    [(if IsJsonFormat(format) then "Output format (JSON)" else "Output format", FormatOk(result, format, parses)),
     ("Content completeness", ContentComplete(result)),
     ("Alignment with spec", true)]
  }

  function CheckLines(cs: seq<(string, bool)>): string {
    if |cs| == 0 then "" else "- " + cs[0].0 + ": " + Verdict(cs[0].1) + "\n" + CheckLines(cs[1..])
  }

  /** The closing verdict line of the report. */
  function ResultLine(ok: bool): string {
    if ok then "\n**Result: PASS**\n" else "\n**Result: FAIL**\n"
  }

  /** `validate_task_output`: whether every check passed, and the report. */
  function ValidateTaskOutput(result: Value, outputSpec: Dict, taskId: string, parses: string -> bool): (r: Result<(bool, string), string>)
    ensures r.Err? <==> FormatName(outputSpec).Err?
    ensures r.Ok? ==> StartsWith(r.value.1, "# Validating Task " + taskId + "\n")
  {
    match FormatName(outputSpec)
    case Err(e) => Err(e)
    case Ok(format) =>
      var cs := Checks(result, format, parses);
      var passed := cs[0].1 && cs[1].1 && cs[2].1;
      var head := "# Validating Task " + taskId + "\n";
      var body := head + "Checking output against criteria...\n" + CheckLines(cs);
      assert (body + ResultLine(passed))[..|head|] == head;
      Ok((passed, body + ResultLine(passed)))
  }

  /** The verdict is the conjunction of format and completeness (alignment
      always passes), and the report ends with the matching result line. */
  lemma ValidateTaskOutputMeaning(result: Value, outputSpec: Dict, taskId: string, parses: string -> bool)
    requires FormatName(outputSpec).Ok?
    ensures var r := ValidateTaskOutput(result, outputSpec, taskId, parses).value;
      var format := FormatName(outputSpec).value;
      (r.0 <==> FormatOk(result, format, parses) && ContentComplete(result)) &&
      EndsWith(r.1, ResultLine(r.0))
  {
    var format := FormatName(outputSpec).value;
    var cs := Checks(result, format, parses);
    var passed := cs[0].1 && cs[1].1 && cs[2].1;
    var body := "# Validating Task " + taskId + "\n" + "Checking output against criteria...\n" + CheckLines(cs);
    assert ValidateTaskOutput(result, outputSpec, taskId, parses).value == (passed, body + ResultLine(passed));
    EndsWithAppended(body, ResultLine(passed));
  }

  lemma EndsWithAppended(a: string, b: string)
    ensures EndsWith(a + b, b)
  {
    assert (a + b)[|a|..] == b;
  }

  /** For a JSON format, a dict always passes the format check and a string
      passes exactly when it parses. */
  lemma JsonFormatCheck(result: Value, format: string, parses: string -> bool)
    requires IsJsonFormat(format)
    ensures result.Obj? ==> FormatOk(result, format, parses)
    ensures result.Str? ==> (FormatOk(result, format, parses) <==> parses(result.s))
  {
  }

  /** For any other format the inspected content must be present and, if
      text, not blank: stripping it leaves something. */
  lemma OtherFormatCheck(result: Value, format: string, parses: string -> bool)
    requires !IsJsonFormat(format)
    ensures FormatOk(result, format, parses) <==>
      !ContentOf(result).Null? && (ContentOf(result).Str? ==> Strip(ContentOf(result).s) != "")
  {
    if ContentOf(result).Str? {
      StripEmptyIffBlank(ContentOf(result).s);
    }
  }

  /** A dict is complete when non-empty; anything else when present and not
      blank text. */
  lemma CompletenessCheck(result: Value)
    ensures result.Obj? ==> (ContentComplete(result) <==> result.fields != map[])
    ensures !result.Obj? ==> (ContentComplete(result) <==> !result.Null? && (result.Str? ==> Strip(result.s) != ""))
  {
    if result.Obj? && result.fields != map[] {
      var k :| k in result.fields;
      assert |result.fields| > 0;
    }
    if result.Str? {
      StripEmptyIffBlank(result.s);
    }
  }
}
