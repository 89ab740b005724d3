/** The variable store (internal/config/manager.go): the seven Claude Code
    variables, read, written and removed through a platform backend. The
    backend is abstract: a map from names to values plus the names whose
    read, write or removal fails, and whether the Windows broadcast that
    announces a change succeeds. Two contracts of the Windows backend are
    taken as the backend's laws: reading an absent name gives "" and removing
    an absent name succeeds. */
module Store {
  import opened Wrappers
  import opened Enumeration

  const UseFoundryKey := "CLAUDE_CODE_USE_FOUNDRY"
  const ResourceKey := "ANTHROPIC_FOUNDRY_RESOURCE"
  const BaseURLKey := "ANTHROPIC_FOUNDRY_BASE_URL"
  const APIKeyKey := "ANTHROPIC_FOUNDRY_API_KEY"
  const SonnetKey := "ANTHROPIC_DEFAULT_SONNET_MODEL"
  const HaikuKey := "ANTHROPIC_DEFAULT_HAIKU_MODEL"
  const OpusKey := "ANTHROPIC_DEFAULT_OPUS_MODEL"

  /** The managed names, in the order RollbackToDefault and GetAllVars visit them. */
  const ManagedKeys: seq<string> := [UseFoundryKey, ResourceKey, BaseURLKey, APIKeyKey, SonnetKey, HaikuKey, OpusKey]

  /** The seven names are pairwise different. */
  lemma ManagedKeysDistinct()
    ensures forall i, j :: 0 <= i < j < |ManagedKeys| ==> ManagedKeys[i] != ManagedKeys[j]
  {
    KeyShapes();
  }

  /** The names differ in length, except two that differ at index 18. */
  lemma KeyShapes()
    ensures |UseFoundryKey| == 23 && |ResourceKey| == 26 && |BaseURLKey| == 26 && |APIKeyKey| == 25
    ensures |SonnetKey| == 30 && |HaikuKey| == 29 && |OpusKey| == 28
    ensures ResourceKey[18] == 'R' && BaseURLKey[18] == 'B'
  {
  }

  datatype Platform = Windows | Posix

  /** The state of the backend. On Windows `vars` is the machine-wide
      environment in the registry; on POSIX it stands for the profile block
      (see the Profile module for how that block is kept in a file). */
  datatype Backend = Backend(
    platform: Platform,
    vars: map<string, string>,
    unreadable: set<string>,
    denied: set<string>,
    broadcastOk: bool)

  datatype StoreError = ReadFailed(key: string) | SetFailed(key: string) | DeleteFailed(key: string) | NotifyFailed

  /** getEnvVar: the value of a name; an absent name reads as "". */
  function ReadVar(b: Backend, key: string): (r: Result<string, StoreError>)
    ensures r.Err? <==> key in b.unreadable
    ensures r.Ok? && key !in b.vars ==> r.value == ""
    ensures r.Ok? && key in b.vars ==> r.value == b.vars[key]
  {
    if key in b.unreadable then Err(ReadFailed(key))
    else if key in b.vars then Ok(b.vars[key])
    else Ok("")
  }

  /** The value the facade uses: every caller drops the read error and keeps "". */
  function ValueOf(b: Backend, key: string): (v: string)
    ensures key in b.unreadable || key !in b.vars ==> v == ""
    ensures key !in b.unreadable && key in b.vars ==> v == b.vars[key]
  {
    match ReadVar(b, key)
    case Ok(v) => v
    case Err(_) => ""
  }

  /** setEnvVar: sets one name, or fails and changes nothing. */
  function WriteVar(b: Backend, key: string, value: string): (r: Result<Backend, StoreError>)
    ensures r.Err? <==> key in b.denied
    ensures r.Err? ==> r.error == SetFailed(key)
    ensures r.Ok? ==> r.value == b.(vars := b.vars[key := value])
  {
    if key in b.denied then Err(SetFailed(key)) else Ok(b.(vars := b.vars[key := value]))
  }

  /** deleteEnvVar: removes one name; removing an absent name succeeds. */
  function RemoveVar(b: Backend, key: string): (r: Result<Backend, StoreError>)
    ensures r.Err? <==> key in b.denied
    ensures r.Ok? ==> r.value == b.(vars := b.vars - {key})
    ensures r.Ok? && key !in b.vars ==> r.value == b
  {
    if key in b.denied then Err(DeleteFailed(key)) else Ok(b.(vars := b.vars - {key}))
  }

  /** notifyEnvironmentChange: a broadcast on Windows, nothing to do elsewhere. */
  function Notify(b: Backend): (r: Outcome<StoreError>)
    ensures b.platform.Posix? ==> r.Pass?
    ensures b.platform.Windows? ==> (r.Pass? <==> b.broadcastOk)
  {
    if b.platform.Windows? && !b.broadcastOk then Fail(NotifyFailed) else Pass
  }

  /** Index of the first element of `order` in `s`. */
  function FirstIn(order: seq<string>, s: set<string>): (r: Option<nat>)
    ensures r.None? <==> forall i :: 0 <= i < |order| ==> order[i] !in s
    ensures r.Some? ==> r.value < |order| && order[r.value] in s
    ensures r.Some? ==> forall i :: 0 <= i < r.value ==> order[i] !in s
  {
    if order == [] then None
    else if order[0] in s then Some(0)
    else match FirstIn(order[1..], s)
      case None => None
      case Some(i) => Some(i + 1)
  }

  /** Everything about a backend except its variables. */
  predicate SameSettings(a: Backend, b: Backend) {
    a.platform == b.platform && a.unreadable == b.unreadable && a.denied == b.denied && a.broadcastOk == b.broadcastOk
  }

  /** The loop `for key, value := range vars { setEnvVar }`, visiting the keys
      in `order`: it stops at the first failing key, after the keys before it
      have been set. */
  function SetEach(b: Backend, vars: map<string, string>, order: seq<string>): (r: (Backend, Outcome<StoreError>))
    requires forall i :: 0 <= i < |order| ==> order[i] in vars
    ensures SameSettings(r.0, b)
    decreases |order|
  {
    if order == [] then (b, Pass)
    else match WriteVar(b, order[0], vars[order[0]])
      case Err(e) => (b, Fail(e))
      case Ok(b') => SetEach(b', vars, order[1..])
  }

  /** What SetEach does: with no failing key every entry is set and nothing
      else changes; otherwise the error names the first failing key and
      exactly the entries before it have been set. */
  lemma {:induction false} SetEachEffect(b: Backend, vars: map<string, string>, order: seq<string>)
    requires forall i :: 0 <= i < |order| ==> order[i] in vars
    ensures var r := SetEach(b, vars, order);
      match FirstIn(order, b.denied)
      case None => r.1.Pass? && r.0.vars == b.vars + Restrict(vars, order)
      case Some(n) => r.1 == Fail(SetFailed(order[n])) && r.0.vars == b.vars + Restrict(vars, order[..n])
    decreases |order|
  {
    if order != [] {
      var k := order[0];
      if k !in b.denied {
        var b' := b.(vars := b.vars[k := vars[k]]);
        assert SetEach(b, vars, order) == SetEach(b', vars, order[1..]);
        SetEachEffect(b', vars, order[1..]);
        RestrictCons(b.vars, vars, order);
        match FirstIn(order[1..], b.denied)
        case None =>
        case Some(n) =>
          PrefixTail(order, n);
          RestrictCons(b.vars, vars, order[..n + 1]);
      } else {
        RestrictNothing(b.vars, vars, order);
      }
    }
  }

  /** The first n + 1 elements are the head and the first n of the tail. */
  lemma PrefixTail<T>(s: seq<T>, n: nat)
    requires n < |s|
    ensures s[..n + 1] != [] && s[..n + 1][0] == s[0] && s[..n + 1][1..] == s[1..][..n]
  {
  }

  /** Restricting to no key adds nothing. */
  lemma RestrictNothing<K(!new), V>(acc: map<K, V>, m: map<K, V>, order: seq<K>)
    requires forall i :: 0 <= i < |order| ==> order[i] in m
    ensures acc + Restrict(m, order[..0]) == acc
  {
    assert order[..0] == [];
    assert Restrict(m, order[..0]) == map[];
  }

  /** The configuration ApplyFoundryConfig takes. It has no base URL: the
      URL written is always derived from the resource name. */
  datatype FoundryConfig = FoundryConfig(resource: string, apiKey: string, sonnetModel: string, haikuModel: string, opusModel: string)

  /** The endpoint of an Azure AI Foundry resource. */
  function BaseURLFor(resource: string): (url: string)
    ensures |url| == |resource| + 37
    ensures url[..8] == "https://"
    ensures url[8..8 + |resource|] == resource
    ensures url[8 + |resource|..] == ".services.ai.azure.com/models"
  {
    "https://" + resource + ".services.ai.azure.com/models"
  }

  /** The variables ApplyFoundryConfig writes. */
  function FoundryVars(cfg: FoundryConfig): (vars: map<string, string>)
    ensures vars.Keys == {UseFoundryKey, ResourceKey, BaseURLKey, SonnetKey, HaikuKey, OpusKey}
      + (if cfg.apiKey != "" then {APIKeyKey} else {})
    ensures vars[UseFoundryKey] == "true" && vars[ResourceKey] == cfg.resource
    ensures vars[BaseURLKey] == BaseURLFor(cfg.resource)
    ensures vars[SonnetKey] == cfg.sonnetModel && vars[HaikuKey] == cfg.haikuModel && vars[OpusKey] == cfg.opusModel
    ensures cfg.apiKey != "" ==> vars[APIKeyKey] == cfg.apiKey
  {
    var vars := map[
      UseFoundryKey := "true",
      ResourceKey := cfg.resource,
      BaseURLKey := BaseURLFor(cfg.resource),
      SonnetKey := cfg.sonnetModel,
      HaikuKey := cfg.haikuModel,
      OpusKey := cfg.opusModel];
    if cfg.apiKey != "" then vars[APIKeyKey := cfg.apiKey] else vars
  }

  /** Sets every entry of `vars` in the iteration order `order`, then
      notifies; the first failure is the result. Shared by
      ApplyFoundryConfig and SetAllVars. */
  function SetThenNotify(b: Backend, vars: map<string, string>, order: seq<string>): (r: (Backend, Outcome<StoreError>))
    requires IsEnumeration(order, vars.Keys)
    ensures SameSettings(r.0, b)
    ensures r.1.Pass? <==> (forall k :: k in vars ==> k !in b.denied) && Notify(b).Pass?
    ensures (forall k :: k in vars ==> k !in b.denied) ==> r.0.vars == b.vars + vars && r.1 == Notify(b)
    ensures r.1.Fail? && r.1.error.SetFailed? ==> r.1.error.key in vars && r.1.error.key in b.denied
    ensures (exists k :: k in vars && k in b.denied) ==> r.1.Fail? && r.1.error.SetFailed?
  {
    SetEachEffect(b, vars, order);
    RestrictEnumeration(vars, order);
    var (b', out) := SetEach(b, vars, order);
    if out.Fail? then (b', out) else (b', Notify(b'))
  }

  /** ApplyFoundryConfig. */
  function ApplyFoundryConfig(b: Backend, cfg: FoundryConfig, order: seq<string>): (r: (Backend, Outcome<StoreError>))
    requires IsEnumeration(order, FoundryVars(cfg).Keys)
    ensures SameSettings(r.0, b)
    ensures r.1.Pass? <==> (forall k :: k in FoundryVars(cfg) ==> k !in b.denied) && Notify(b).Pass?
    ensures (forall k :: k in FoundryVars(cfg) ==> k !in b.denied) ==> r.0.vars == b.vars + FoundryVars(cfg)
    ensures r.1.Fail? && r.1.error.SetFailed? ==> r.1.error.key in FoundryVars(cfg) && r.1.error.key in b.denied
    ensures (exists k :: k in FoundryVars(cfg) && k in b.denied) ==> r.1.Fail? && r.1.error.SetFailed?
  {
    SetThenNotify(b, FoundryVars(cfg), order)
  }

  /** The loop of RollbackToDefault: removes each name in turn, and a
      failure only adds a warning naming the key. */
  function RemoveEach(b: Backend, keys: seq<string>): (r: (Backend, seq<string>))
    ensures SameSettings(r.0, b)
    ensures r.0.vars == b.vars - (set i | 0 <= i < |keys| && keys[i] !in b.denied :: keys[i])
    ensures forall i :: 0 <= i < |r.1| ==> r.1[i] in keys && r.1[i] in b.denied
    ensures forall i :: 0 <= i < |keys| && keys[i] in b.denied ==> keys[i] in r.1
    decreases |keys|
  {
    if keys == [] then (b, [])
    else
      var (b', warnings) := match RemoveVar(b, keys[0])
        case Ok(b1) => (b1, [])
        case Err(_) => (b, [keys[0]]);
      var (b'', rest) := RemoveEach(b', keys[1..]);
      assert forall i :: 0 <= i < |keys[1..]| ==> keys[1..][i] == keys[i + 1];
      (b'', warnings + rest)
  }

  /** RollbackToDefault: the warnings, and an error only when the broadcast fails. */
  function RollbackToDefault(b: Backend): (r: (Backend, seq<string>, Outcome<StoreError>))
    ensures SameSettings(r.0, b)
    ensures r.2.Pass? <==> Notify(b).Pass?
    ensures forall k :: k in r.1 <==> k in ManagedKeys && k in b.denied
  {
    var (b', warnings) := RemoveEach(b, ManagedKeys);
    (b', warnings, Notify(b'))
  }

  /** After a rollback every managed name is gone, except those whose removal failed. */
  lemma RollbackClears(b: Backend)
    ensures var b' := RollbackToDefault(b).0;
      (forall k :: k in ManagedKeys && k !in b.denied ==> k !in b'.vars)
      && (forall k :: k in b.vars && (k !in ManagedKeys || k in b.denied) ==> k in b'.vars && b'.vars[k] == b.vars[k])
  {
  }

  /** When every managed name can be removed, a rollback leaves nothing for
      GetAllVars to report and switches Foundry off. */
  lemma RollbackEmptiesAll(b: Backend)
    requires forall k :: k in ManagedKeys ==> k !in b.denied
    ensures GetAllVars(RollbackToDefault(b).0) == map[]
    ensures !GetCurrentConfig(RollbackToDefault(b).0).useFoundry
    ensures forall k :: k !in RollbackToDefault(b).1
  {
    var b' := RollbackToDefault(b).0;
    RollbackClears(b);
    assert forall k :: k in ManagedKeys ==> k !in b'.vars;
    var all := GetAllVars(b');
    assert forall k :: k !in all;
  }

  /** The configuration as read back. */
  datatype CurrentConfig = CurrentConfig(
    useFoundry: bool,
    resource: string,
    baseURL: string,
    apiKey: string,
    sonnetModel: string,
    haikuModel: string,
    opusModel: string)

  /** GetCurrentConfig: never fails; unreadable and absent names read as "",
      and the flag counts only when it is exactly "true". */
  function GetCurrentConfig(b: Backend): (c: CurrentConfig)
    ensures c.useFoundry <==> UseFoundryKey !in b.unreadable && UseFoundryKey in b.vars && b.vars[UseFoundryKey] == "true"
  {
    CurrentConfig(
      ValueOf(b, UseFoundryKey) == "true",
      ValueOf(b, ResourceKey),
      ValueOf(b, BaseURLKey),
      ValueOf(b, APIKeyKey),
      ValueOf(b, SonnetKey),
      ValueOf(b, HaikuKey),
      ValueOf(b, OpusKey))
  }

  /** The loop of GetAllVars over `keys`. */
  function CollectVars(b: Backend, keys: seq<string>): (r: map<string, string>)
    ensures forall k :: k in r <==> k in keys && ValueOf(b, k) != ""
    ensures forall k :: k in r ==> r[k] == ValueOf(b, k)
    decreases |keys|
  {
    if keys == [] then map[]
    else
      var rest := CollectVars(b, keys[1..]);
      var v := ValueOf(b, keys[0]);
      if v != "" then rest[keys[0] := v] else rest
  }

  /** GetAllVars: the managed names whose value reads as non-empty. */
  function GetAllVars(b: Backend): (r: map<string, string>)
    ensures forall k :: k in r <==> k in ManagedKeys && ValueOf(b, k) != ""
    ensures forall k :: k in r ==> r[k] == ValueOf(b, k)
  {
    CollectVars(b, ManagedKeys)
  }

  /** What GetCurrentConfig reports is what GetAllVars holds, with "" for a missing entry. */
  lemma CurrentConfigAgrees(b: Backend)
    ensures var all := GetAllVars(b);
      var c := GetCurrentConfig(b);
      var get := (k: string) => if k in all then all[k] else "";
      c.useFoundry == (get(UseFoundryKey) == "true")
      && c.resource == get(ResourceKey) && c.baseURL == get(BaseURLKey) && c.apiKey == get(APIKeyKey)
      && c.sonnetModel == get(SonnetKey) && c.haikuModel == get(HaikuKey) && c.opusModel == get(OpusKey)
  {
  }

  /** SetAllVars: sets each entry without clearing any other name, stops at
      the first failure, then notifies; an empty map only notifies. */
  function SetAllVars(b: Backend, vars: map<string, string>, order: seq<string>): (r: (Backend, Outcome<StoreError>))
    requires IsEnumeration(order, vars.Keys)
    ensures SameSettings(r.0, b)
    ensures r.1.Pass? <==> (forall k :: k in vars ==> k !in b.denied) && Notify(b).Pass?
    ensures (forall k :: k in vars ==> k !in b.denied) ==> r.0.vars == b.vars + vars
    ensures vars == map[] ==> r == (b, Notify(b))
  {
    SetThenNotify(b, vars, order)
  }

  /** After a successful ApplyFoundryConfig the configuration reads back as
      written; the API key keeps its old value when none was given. */
  lemma ApplyThenRead(b: Backend, cfg: FoundryConfig, order: seq<string>)
    requires IsEnumeration(order, FoundryVars(cfg).Keys)
    requires forall k :: k in ManagedKeys ==> k !in b.unreadable
    requires ApplyFoundryConfig(b, cfg, order).1.Pass?
    ensures var c := GetCurrentConfig(ApplyFoundryConfig(b, cfg, order).0);
      c.useFoundry && c.resource == cfg.resource && c.baseURL == BaseURLFor(cfg.resource)
      && c.sonnetModel == cfg.sonnetModel && c.haikuModel == cfg.haikuModel && c.opusModel == cfg.opusModel
      && c.apiKey == (if cfg.apiKey != "" then cfg.apiKey else ValueOf(b, APIKeyKey))
  {
  }

  /** Six pairwise different elements make a set of six. */
  lemma CardSix<T>(a: T, b: T, c: T, d: T, e: T, f: T)
    requires a != b && a != c && a != d && a != e && a != f
    requires b != c && b != d && b != e && b != f
    requires c != d && c != e && c != f
    requires d != e && d != f
    requires e != f
    ensures |{a, b, c, d, e, f}| == 6
  {
    assert {a, b, c, d, e, f} == {a, b, c, d, e} + {f};
    assert {a, b, c, d, e} == {a, b, c, d} + {e};
    assert {a, b, c, d} == {a, b, c} + {d};
    assert {a, b, c} == {a, b} + {c};
  }

  /** Without an API key the configuration is six variables. */
  lemma FoundryVarsWithoutKey(cfg: FoundryConfig)
    requires cfg.apiKey == ""
    ensures |FoundryVars(cfg)| == 6 && APIKeyKey !in FoundryVars(cfg)
    ensures forall k :: k in FoundryVars(cfg) ==> k in ManagedKeys
  {
    var vars := FoundryVars(cfg);
    KeyShapes();
    CardSix(UseFoundryKey, ResourceKey, BaseURLKey, SonnetKey, HaikuKey, OpusKey);
    assert vars.Keys == {UseFoundryKey, ResourceKey, BaseURLKey, SonnetKey, HaikuKey, OpusKey};
    assert |vars| == |vars.Keys|;
  }

  /** A store holding only managed names with non-empty values, all
      readable, is read back whole by GetAllVars. */
  lemma GetAllVarsExact(b: Backend)
    requires forall k :: k in b.vars ==> k in ManagedKeys && b.vars[k] != ""
    requires forall k :: k in ManagedKeys ==> k !in b.unreadable
    ensures GetAllVars(b) == b.vars
  {
    var all := GetAllVars(b);
    assert forall k :: k in all <==> k in b.vars;
  }

  /** With a resource and model names, every value of the configuration is non-empty. */
  lemma FoundryVarsNonEmpty(cfg: FoundryConfig)
    requires cfg.resource != "" && cfg.sonnetModel != "" && cfg.haikuModel != "" && cfg.opusModel != ""
    ensures forall k :: k in FoundryVars(cfg) ==> FoundryVars(cfg)[k] != ""
  {
  }

  /** On an empty store, applying a configuration with a resource and model
      names but no API key leaves exactly six variables, none of them the key. */
  lemma ApplyOnEmptyStore(b: Backend, cfg: FoundryConfig, order: seq<string>)
    requires b.vars == map[] && b.unreadable == {} && b.denied == {} && b.broadcastOk
    requires cfg.resource != "" && cfg.apiKey == ""
    requires cfg.sonnetModel != "" && cfg.haikuModel != "" && cfg.opusModel != ""
    requires IsEnumeration(order, FoundryVars(cfg).Keys)
    ensures var r := ApplyFoundryConfig(b, cfg, order);
      r.1.Pass? && GetAllVars(r.0) == FoundryVars(cfg) && |GetAllVars(r.0)| == 6 && APIKeyKey !in GetAllVars(r.0)
  {
    var r := ApplyFoundryConfig(b, cfg, order);
    var vars := FoundryVars(cfg);
    FoundryVarsWithoutKey(cfg);
    FoundryVarsNonEmpty(cfg);
    EmptyUnion(vars);
    GetAllVarsExact(r.0);
  }

}
