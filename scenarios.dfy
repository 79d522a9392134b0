/**
 * Worked scenarios for the registry and the launcher, and the link between
 * the command-line flags and the tasks of the following launch run.
 */
module Scenarios {
  import opened ServiceConfig
  import opened Readiness
  import opened Launch

  /** After the flags, a launch run creates a task for a registered service
      exactly when the service was named by `--enable`, or was not named by
      `--disable` and its spec leaves it enabled. */
  lemma LaunchAfterFlags(order: seq<string>, s: map<string, Spec>, disable: seq<string>, enable: seq<string>, n: string)
    requires n in order && n in s
    ensures var r := ApplyFlags(s, disable, enable);
      Task(n, r[n]) in Launches(order, r) <==> n in enable || (n !in disable && IsEnabled(s[n]))
  {
    var r := ApplyFlags(s, disable, enable);
    LaunchesMembers(order, r);
    EnabledAfterFlags(s, disable, enable, n);
  }

  function Sample(aEnabled: Option<bool>, bEnabled: Option<bool>): map<string, Spec> {
    map[
      "A" := Spec("a", 8001, [], aEnabled),
      "B" := Spec("b", 8002, ["A"], bEnabled),
      "C" := Spec("c", 8003, ["B"], None)
    ]
  }

  /** `--disable B --enable A` on A (disabled) and B (enabled): A ends
      enabled, B disabled, C unchanged. */
  lemma FlagsScenario()
    ensures ApplyFlags(Sample(Some(false), Some(true)), ["B"], ["A"]) == Sample(Some(true), Some(false))
  {
    var r := ApplyFlags(Sample(Some(false), Some(true)), ["B"], ["A"]);
    assert r["A"].enabled == Some(true) && r["B"].enabled == Some(false) && r["C"] == Sample(None, None)["C"];
  }

  /** A's endpoint never answers: B, which depends on A, and C, which depends
      on B, time out on their dependency, while A has nothing to wait for
      and goes on to the path check. */
  lemma DependencyTimeoutScenario(baseDir: string, env: Env, isDir: string -> bool, launcher: string -> bool)
    requires forall k: nat :: !Accepted(env.poll(8001, k))
    requires forall k: nat :: !Accepted(env.poll(8002, k))
    ensures var s := Sample(None, None);
      && StartReport(s, baseDir, s["A"], WaitsReady(env), isDir, launcher).waited == []
      && !StartReport(s, baseDir, s["A"], WaitsReady(env), isDir, launcher).outcome.DepTimeout?
      && StartReport(s, baseDir, s["B"], WaitsReady(env), isDir, launcher) == Report(["A"], DepTimeout("A"))
      && StartReport(s, baseDir, s["C"], WaitsReady(env), isDir, launcher) == Report(["B"], DepTimeout("B"))
  {
    NeverAcceptedTimesOut(8001, DefaultTimeoutMs, env);
    NeverAcceptedTimesOut(8002, DefaultTimeoutMs, env);
    var s := Sample(None, None);
    assert s["B"].dependencies == ["A"] && s["C"].dependencies == ["B"];
    assert ["A"][1..] == [] && ["B"][1..] == [];
  }
}
