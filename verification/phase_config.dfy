/** Per-phase LLM settings: the global API configuration overlaid with the
    overrides saved for one phase (atomicity, decompose, format, execute,
    validate). */
module PhaseConfig {
  import opened Wrappers
  import opened Json

  type Dict = map<string, Value>

  /** The model used when neither the phase nor the global settings name one. */
  const DefaultModel: string := "gemini-2.5-flash"

  /** The three settings every merged phase configuration carries. */
  const BaseKeys: set<string> := {"baseUrl", "apiKey", "model"}

  /** The camelCase name an override key is stored under. */
  function Canonical(k: string): (c: string)
    ensures c != "base_url" && c != "api_key"
    ensures c == k || (k, c) in {("base_url", "baseUrl"), ("api_key", "apiKey")}
  {
    if k == "base_url" then "baseUrl" else if k == "api_key" then "apiKey" else k
  }

  /** An override applies when it is neither `None` nor the empty string. */
  predicate Overrides(v: Value) {
    !v.Null? && v != Str("")
  }

  /** The names the applicable overrides of `p` are stored under. */
  function Renamed(p: Dict): set<string> {
    set k | k in p && Overrides(p[k]) :: Canonical(k)
  }

  /** The override that lands on `key`; a camelCase spelling wins over its
      snake_case alias. */
  function OverrideFor(p: Dict, key: string): (o: Option<Value>)
    ensures o.Some? ==> Overrides(o.value)
    ensures key in Renamed(p) ==> o.Some?
  {
    if key in p && Overrides(p[key]) then Some(p[key])
    else if key == "baseUrl" && "base_url" in p && Overrides(p["base_url"]) then Some(p["base_url"])
    else if key == "apiKey" && "api_key" in p && Overrides(p["api_key"]) then Some(p["api_key"])
    else None
  }

  /** The global base settings, each read from its camelCase spelling or,
      failing that, its snake_case alias. */
  function BaseSettings(cfg: Dict): (b: Dict)
    ensures b.Keys == BaseKeys
  {
    map["baseUrl" := Or(Get(cfg, "baseUrl"), Get(cfg, "base_url")),
        "apiKey" := Or(Get(cfg, "apiKey"), Get(cfg, "api_key")),
        "model" := Get(cfg, "model")]
  }

  /** `base` with the applicable overrides of `p` written over it. */
  function Overlay(base: Dict, p: Dict): (r: Dict)
    ensures r.Keys == base.Keys + Renamed(p)
  {
    map key | key in base.Keys + Renamed(p) ::
      match OverrideFor(p, key)
      case Some(v) => v
      case None => base[key]
  }

  /** `merge_phase_config`: the settings for `phase` (a missing global
      configuration is the empty one). A phase entry that is not a dict
      leaves the global configuration as it is; a `phases` value that is
      not a dict raises. */
  function MergePhaseConfig(apiConfig: Dict, phase: string): (r: Result<Dict, string>)
    ensures r.Err? <==> !Or(Get(apiConfig, "phases"), Obj(map[])).Obj?
  {
    var phases := Or(Get(apiConfig, "phases"), Obj(map[]));
    if !phases.Obj? then Err("phases is not a dict")
    else
      var phaseCfg := Or(Get(phases.fields, phase), Obj(map[]));
      if !phaseCfg.Obj? then Ok(apiConfig)
      else
        var merged := Overlay(BaseSettings(apiConfig), phaseCfg.fields);
        if Truthy(Get(merged, "model")) then Ok(merged)
        else Ok(merged["model" := Str(DefaultModel)])
  }

  /** The phase's own entry, as the merge reads it. */
  function PhaseEntry(apiConfig: Dict, phase: string): Value
    requires Or(Get(apiConfig, "phases"), Obj(map[])).Obj?
  {
    Or(Get(Or(Get(apiConfig, "phases"), Obj(map[])).fields, phase), Obj(map[]))
  }

  /** A phase entry that is not a dict hands back the global configuration
      unchanged. */
  lemma NonDictPhaseKeepsConfig(apiConfig: Dict, phase: string)
    requires Or(Get(apiConfig, "phases"), Obj(map[])).Obj? && !PhaseEntry(apiConfig, phase).Obj?
    ensures MergePhaseConfig(apiConfig, phase) == Ok(apiConfig)
  {
  }

  /** With a dict entry the result always holds the three base settings, a
      truthy model, and no snake_case alias; its other keys are exactly the
      phase's applicable extra overrides. */
  lemma MergedShape(apiConfig: Dict, phase: string)
    requires Or(Get(apiConfig, "phases"), Obj(map[])).Obj? && PhaseEntry(apiConfig, phase).Obj?
    ensures var r := MergePhaseConfig(apiConfig, phase).value;
      var p := PhaseEntry(apiConfig, phase).fields;
      r.Keys == BaseKeys + Renamed(p) &&
      Truthy(r["model"]) &&
      "base_url" !in r && "api_key" !in r
  {
    var p := PhaseEntry(apiConfig, phase).fields;
    assert "base_url" !in Renamed(p) && "api_key" !in Renamed(p);
  }

  /** Every setting is the phase's applicable override when there is one and
      the global value otherwise; only the model falls back to the default,
      and only when neither names a truthy one. */
  lemma MergedValues(apiConfig: Dict, phase: string, key: string)
    requires Or(Get(apiConfig, "phases"), Obj(map[])).Obj? && PhaseEntry(apiConfig, phase).Obj?
    requires key in MergePhaseConfig(apiConfig, phase).value
    ensures var r := MergePhaseConfig(apiConfig, phase).value;
      var p := PhaseEntry(apiConfig, phase).fields;
      var g := if OverrideFor(p, key).Some? then OverrideFor(p, key).value else BaseSettings(apiConfig)[key];
      if key == "model" then r[key] == (if Truthy(g) then g else Str(DefaultModel))
      else r[key] == g && (key !in BaseKeys ==> OverrideFor(p, key).Some?)
  {
  }

  /** An override equal to `None` or the empty string changes nothing:
      dropping it from the phase entry gives the same settings. */
  lemma EmptyOverrideIgnored(base: Dict, p: Dict, k: string)
    requires k in p && !Overrides(p[k])
    ensures Overlay(base, p) == Overlay(base, p - {k})
  {
    var q := p - {k};
    assert Renamed(p) == Renamed(q) by {
      forall c | c in Renamed(p) ensures c in Renamed(q) {
        var j :| j in p && Overrides(p[j]) && Canonical(j) == c;
        assert j in q;
      }
    }
    forall key | key in base.Keys + Renamed(p) ensures OverrideFor(p, key) == OverrideFor(q, key) {
    }
  }
}
