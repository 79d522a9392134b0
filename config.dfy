/**
 * The service registry of the local service manager: one specification per
 * named service, and the enable/disable update applied from the command line
 * before a launch run (ms_orchestration.py, ServiceManager.save_config).
 */
module ServiceConfig {

  datatype Option<+T> = None | Some(value: T)

  /** One registry entry. `dependencies` holds [] when the key is absent;
      `enabled` is None when the key is absent, which counts as enabled. */
  datatype Spec = Spec(path: string, port: int, dependencies: seq<string>, enabled: Option<bool>)

  /** `config.get("enabled", True)`: absent or true. */
  predicate IsEnabled(s: Spec) {
    s.enabled != Some(false)
  }

  predicate Distinct(names: seq<string>) {
    forall i, j :: 0 <= i < j < |names| ==> names[i] != names[j]
  }

  /** A loaded configuration document: its service names in document order
      and the mapping from name to specification. */
  datatype Document = Document(names: seq<string>, specs: map<string, Spec>)

  predicate WellFormed(d: Document) {
    && Distinct(d.names)
    && (forall n :: n in d.names ==> n in d.specs)
    && (forall n :: n in d.specs ==> n in d.names)
  }

  /** The registry after setting `enabled := v` on every registered name in
      `names`; names that are not registered are ignored. */
  function SetEnabled(s: map<string, Spec>, names: seq<string>, v: bool): map<string, Spec> {
    map n | n in s :: if n in names then s[n].(enabled := Some(v)) else s[n]
  }

  /** One more name on the list updates that name alone, when registered. */
  lemma SetEnabledExtend(s: map<string, Spec>, names: seq<string>, x: string, v: bool)
    ensures SetEnabled(s, names + [x], v)
         == if x in s then SetEnabled(s, names, v)[x := s[x].(enabled := Some(v))] else SetEnabled(s, names, v)
  {
    var longer := SetEnabled(s, names + [x], v);
    var shorter := SetEnabled(s, names, v);
    var expected := if x in s then shorter[x := s[x].(enabled := Some(v))] else shorter;
    assert longer.Keys == expected.Keys;
    forall n | n in longer
      ensures longer[n] == expected[n]
    {
      assert n in names + [x] <==> n in names || n == x;
    }
  }

  /** The registry after the `--disable` list and then the `--enable` list. */
  function ApplyFlags(s: map<string, Spec>, disable: seq<string>, enable: seq<string>): (r: map<string, Spec>)
    ensures r.Keys == s.Keys
    ensures forall n :: n in r ==> r[n].(enabled := s[n].enabled) == s[n]
    ensures forall n :: n in r ==>
      r[n].enabled == (if n in enable then Some(true) else if n in disable then Some(false) else s[n].enabled)
    ensures forall n :: n in r && n !in enable && n !in disable ==> r[n] == s[n]
  {
    SetEnabled(SetEnabled(s, disable, false), enable, true)
  }

  /** Whether a service takes part in a launch run after the flags: an
      enabled name wins over a disabled one. */
  lemma EnabledAfterFlags(s: map<string, Spec>, disable: seq<string>, enable: seq<string>, n: string)
    requires n in s
    ensures IsEnabled(ApplyFlags(s, disable, enable)[n]) <==> n in enable || (n !in disable && IsEnabled(s[n]))
  {
  }

  /** Applying the same lists a second time changes nothing. */
  lemma {:induction false} ApplyFlagsIdempotent(s: map<string, Spec>, disable: seq<string>, enable: seq<string>)
    ensures ApplyFlags(ApplyFlags(s, disable, enable), disable, enable) == ApplyFlags(s, disable, enable)
  {
    var once := ApplyFlags(s, disable, enable);
    var twice := ApplyFlags(once, disable, enable);
    assert twice.Keys == once.Keys;
    forall n | n in twice
      ensures twice[n] == once[n]
    {
      assert twice[n].(enabled := once[n].enabled) == once[n];
    }
  }
}
