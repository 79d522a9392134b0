/**
 * What one launcher task does with a service (ms_orchestration.py,
 * ServiceManager.start_service) and which tasks a launch run creates
 * (ServiceManager.start_all), as functions of the registry.
 *
 * Readiness, directory existence and the external process launcher are
 * oracles: `ready(port)` is what a wait on a dependency's health endpoint
 * returns (the readiness gate of module Readiness), `isDir(dir)` is what the
 * file system says about a directory, and `launcher(dir)` is true when the
 * long-running command started in `dir` exited normally.
 */
module Launch {
  import opened ServiceConfig

  /** `os.path.join(base, path)` on POSIX: an absolute `path` replaces the
      base; otherwise a separator is inserted unless `base` is empty or
      already ends with one. */
  function Join(base: string, path: string): (r: string)
    ensures |path| > 0 && path[0] == '/' ==> r == path
    ensures !(|path| > 0 && path[0] == '/') ==>
      && |r| >= |base| + |path|
      && r[..|base|] == base
      && r[|r| - |path|..] == path
      && |r| <= |base| + 1 + |path|
    ensures !(|path| > 0 && path[0] == '/') ==> r == base + path || r == base + "/" + path
    ensures !(|path| > 0 && path[0] == '/') ==>
      (r == base + path <==> base == [] || base[|base| - 1] == '/')
  {
    if |path| > 0 && path[0] == '/' then path
    else if base == [] || base[|base| - 1] == '/' then base + path
    else base + "/" + path
  }

  /** The dependencies a launcher waited on, in order, and the one whose
      wait timed out, if any. */
  datatype GateResult = GateResult(waited: seq<string>, blocker: Option<string>)

  /** The dependencies of `deps` that are registered, in order. */
  function Registered(services: map<string, Spec>, deps: seq<string>): (r: seq<string>)
    ensures forall d :: d in r <==> d in deps && d in services
  {
    if deps == [] then []
    else if deps[0] in services then [deps[0]] + Registered(services, deps[1..])
    else Registered(services, deps[1..])
  }

  /** The dependency loop of `start_service`: skip unregistered names, wait
      on each registered one's port, and stop at the first wait that is not
      ready. */
  function Gate(services: map<string, Spec>, deps: seq<string>, ready: int -> bool): GateResult {
    if deps == [] then GateResult([], None)
    else if deps[0] !in services then Gate(services, deps[1..], ready)
    else if !ready(services[deps[0]].port) then GateResult([deps[0]], Some(deps[0]))
    else
      var rest := Gate(services, deps[1..], ready);
      rest.(waited := [deps[0]] + rest.waited)
  }

  /** `g` behind dependencies already waited on. */
  function After(waited: seq<string>, g: GateResult): GateResult {
    g.(waited := waited + g.waited)
  }

  /** The end state of one launcher task: aborted on a dependency that did
      not become ready, stopped on a missing directory, or the long-running
      command in `dir` has ended, with exit status 0 or otherwise. */
  datatype Outcome =
    | DepTimeout(dep: string)
    | PathNotFound(dir: string)
    | ExitedNormally(dir: string)
    | LaunchFailed(dir: string)

  datatype Report = Report(waited: seq<string>, outcome: Outcome)

  function StartReport(services: map<string, Spec>, baseDir: string, config: Spec, ready: int -> bool,
                       isDir: string -> bool, launcher: string -> bool): Report
  {
    var g := Gate(services, config.dependencies, ready);
    if g.blocker.Some? then Report(g.waited, DepTimeout(g.blocker.value))
    else
      var dir := Join(baseDir, config.path);
      if !isDir(dir) then Report(g.waited, PathNotFound(dir))
      else if launcher(dir) then Report(g.waited, ExitedNormally(dir))
      else Report(g.waited, LaunchFailed(dir))
  }

  /** The gate passes exactly when every registered dependency is ready. */
  lemma {:induction false} GatePassesIff(services: map<string, Spec>, deps: seq<string>, ready: int -> bool)
    ensures Gate(services, deps, ready).blocker.None? <==>
      forall k :: 0 <= k < |deps| && deps[k] in services ==> ready(services[deps[k]].port)
  {
    if deps != [] {
      GatePassesIff(services, deps[1..], ready);
      if Gate(services, deps, ready).blocker.None? {
        forall k | 0 <= k < |deps| && deps[k] in services
          ensures ready(services[deps[k]].port)
        {
          if k > 0 { assert deps[k] == deps[1..][k - 1]; }
        }
      } else if deps[0] !in services || ready(services[deps[0]].port) {
        var j :| 0 <= j < |deps[1..]| && deps[1..][j] in services && !ready(services[deps[1..][j]].port);
        assert deps[j + 1] == deps[1..][j];
      }
    }
  }

  /** Only registered names are waited on, in order: the waits are the
      registered dependencies up to the first timeout, or all of them. */
  lemma {:induction false} GateWaitsRegistered(services: map<string, Spec>, deps: seq<string>, ready: int -> bool)
    ensures var g := Gate(services, deps, ready);
      && g.waited <= Registered(services, deps)
      && (g.blocker.None? ==> g.waited == Registered(services, deps))
  {
    if deps != [] {
      GateWaitsRegistered(services, deps[1..], ready);
      if deps[0] in services {
        assert Registered(services, deps) == [deps[0]] + Registered(services, deps[1..]);
      }
    }
  }

  /** The waits stop at the first one that timed out, which is the last one
      waited on, and every earlier wait was ready. */
  lemma {:induction false} GateWaitsStop(services: map<string, Spec>, deps: seq<string>, ready: int -> bool)
    ensures var g := Gate(services, deps, ready);
      && (forall k :: 0 <= k < |g.waited| ==> g.waited[k] in services)
      && (g.blocker.Some? ==>
            && |g.waited| > 0
            && g.blocker.value == g.waited[|g.waited| - 1]
            && !ready(services[g.blocker.value].port))
      && (forall k :: 0 <= k < |g.waited| - 1 ==> ready(services[g.waited[k]].port))
  {
    if deps != [] {
      GateWaitsStop(services, deps[1..], ready);
      var d := deps[0];
      if d in services && ready(services[d].port) {
        var g := Gate(services, deps, ready);
        var rest := Gate(services, deps[1..], ready);
        assert g.waited == [d] + rest.waited;
        assert g.blocker == rest.blocker;
        forall k | 0 <= k < |g.waited|
          ensures g.waited[k] in services
          ensures k < |g.waited| - 1 ==> ready(services[g.waited[k]].port)
        {
          if k > 0 { assert g.waited[k] == rest.waited[k - 1]; }
        }
      }
    }
  }

  /** Unregistered dependencies never matter: gating on the registered ones
      alone gives the same result. */
  lemma {:induction false} GateIgnoresUnregistered(services: map<string, Spec>, deps: seq<string>, ready: int -> bool)
    ensures Gate(services, deps, ready) == Gate(services, Registered(services, deps), ready)
  {
    if deps != [] {
      GateIgnoresUnregistered(services, deps[1..], ready);
      if deps[0] in services {
        var regs := Registered(services, deps);
        assert regs[0] == deps[0] && regs[1..] == Registered(services, deps[1..]);
      }
    }
  }

  /** A launcher gets past its dependencies exactly when every registered
      dependency is ready, and then it has waited on all of them. */
  lemma StartReportGate(services: map<string, Spec>, baseDir: string, config: Spec, ready: int -> bool,
                        isDir: string -> bool, launcher: string -> bool)
    ensures var rep := StartReport(services, baseDir, config, ready, isDir, launcher);
      var deps := config.dependencies;
      && (!rep.outcome.DepTimeout? <==>
            forall k :: 0 <= k < |deps| && deps[k] in services ==> ready(services[deps[k]].port))
      && (!rep.outcome.DepTimeout? ==> rep.waited == Registered(services, deps))
  {
    GatePassesIff(services, config.dependencies, ready);
    GateWaitsRegistered(services, config.dependencies, ready);
  }

  /** Otherwise it stops at a registered dependency that is not ready, the
      last one it waited on, and waits on no later one. */
  lemma StartReportTimeout(services: map<string, Spec>, baseDir: string, config: Spec, ready: int -> bool,
                           isDir: string -> bool, launcher: string -> bool)
    ensures var rep := StartReport(services, baseDir, config, ready, isDir, launcher);
      rep.outcome.DepTimeout? ==>
        && rep.outcome.dep in services
        && !ready(services[rep.outcome.dep].port)
        && |rep.waited| > 0
        && rep.waited[|rep.waited| - 1] == rep.outcome.dep
        && rep.waited <= Registered(services, config.dependencies)
  {
    GateWaitsRegistered(services, config.dependencies, ready);
    GateWaitsStop(services, config.dependencies, ready);
  }

  /** The path check is reached exactly when every registered dependency is
      ready; the process is started, in the resolved directory, exactly when
      in addition that directory exists. */
  lemma StartReportLaunch(services: map<string, Spec>, baseDir: string, config: Spec, ready: int -> bool,
                          isDir: string -> bool, launcher: string -> bool)
    ensures var rep := StartReport(services, baseDir, config, ready, isDir, launcher);
      var deps := config.dependencies;
      var dir := Join(baseDir, config.path);
      var gatePasses := forall k :: 0 <= k < |deps| && deps[k] in services ==> ready(services[deps[k]].port);
      && (rep.outcome.PathNotFound? <==> gatePasses && !isDir(dir))
      && ((rep.outcome.ExitedNormally? || rep.outcome.LaunchFailed?) <==> gatePasses && isDir(dir))
      && (!rep.outcome.DepTimeout? ==> rep.outcome.dir == dir)
      && (rep.outcome.ExitedNormally? <==> gatePasses && isDir(dir) && launcher(dir))
  {
    GatePassesIff(services, config.dependencies, ready);
  }

  /** A service without dependencies goes straight to the path check. */
  lemma NoDependenciesNoWait(services: map<string, Spec>, baseDir: string, config: Spec, ready: int -> bool,
                             isDir: string -> bool, launcher: string -> bool)
    requires config.dependencies == []
    ensures var rep := StartReport(services, baseDir, config, ready, isDir, launcher);
      rep.waited == [] && !rep.outcome.DepTimeout?
  {
  }

  /** One launcher task of a launch run: the service name and its spec. */
  datatype Task = Task(name: string, config: Spec)

  /** The task created for registry entry `n`, if it is enabled. */
  function TaskFor(services: map<string, Spec>, n: string): seq<Task> {
    if n in services && IsEnabled(services[n]) then [Task(n, services[n])] else []
  }

  /** The tasks `start_all` creates, walking the registry in order. (Every
      name of a registry's order is registered; a name that is not yields
      no task.) */
  function Launches(order: seq<string>, services: map<string, Spec>): seq<Task> {
    if order == [] then [] else TaskFor(services, order[0]) + Launches(order[1..], services)
  }

  lemma {:induction false} LaunchesAppend(order: seq<string>, n: string, services: map<string, Spec>)
    ensures Launches(order + [n], services) == Launches(order, services) + TaskFor(services, n)
  {
    if order == [] {
      assert order + [n] == [n];
      assert [n][1..] == [];
    } else {
      var head, tail := TaskFor(services, order[0]), order[1..];
      assert (order + [n])[0] == order[0];
      assert (order + [n])[1..] == tail + [n];
      LaunchesAppend(tail, n, services);
      calc {
        Launches(order + [n], services);
        head + Launches(tail + [n], services);
        head + (Launches(tail, services) + TaskFor(services, n));
        (head + Launches(tail, services)) + TaskFor(services, n);
        Launches(order, services) + TaskFor(services, n);
      }
    }
  }

  /** The task at position `i` is a registered, enabled service of the
      registry order, with its spec. */
  lemma {:induction false} LaunchesAt(order: seq<string>, services: map<string, Spec>, i: nat)
    requires i < |Launches(order, services)|
    ensures var t := Launches(order, services)[i];
      t.name in order && t.name in services && t.config == services[t.name] && IsEnabled(t.config)
  {
    assert order != [];
    var head, tail := TaskFor(services, order[0]), order[1..];
    var rest := Launches(tail, services);
    if i < |head| {
      assert Launches(order, services)[i] == Task(order[0], services[order[0]]);
    } else {
      LaunchesAt(tail, services, i - |head|);
      assert Launches(order, services)[i] == rest[i - |head|];
      assert rest[i - |head|].name in order;
    }
  }

  /** A task is created for a registered service exactly when it is enabled,
      and carries that service's spec. */
  lemma {:induction false} LaunchesMembers(order: seq<string>, services: map<string, Spec>)
    ensures forall t :: t in Launches(order, services) ==>
      t.name in order && t.name in services && t.config == services[t.name] && IsEnabled(t.config)
    ensures forall n :: n in order && n in services && IsEnabled(services[n]) ==>
      Task(n, services[n]) in Launches(order, services)
  {
    var ts := Launches(order, services);
    forall t | t in ts
      ensures t.name in order && t.name in services && t.config == services[t.name] && IsEnabled(t.config)
    {
      var i :| 0 <= i < |ts| && ts[i] == t;
      LaunchesAt(order, services, i);
    }
    if order != [] {
      LaunchesMembers(order[1..], services);
      forall n | n in order && n in services && IsEnabled(services[n])
        ensures Task(n, services[n]) in ts
      {
        if n != order[0] {
          assert n in order[1..];
          assert Task(n, services[n]) in Launches(order[1..], services);
        }
      }
    }
  }

  /** The position of `x` in `s`. */
  function IndexOf(s: seq<string>, x: string): (i: nat)
    requires x in s
    ensures i < |s| && s[i] == x && x !in s[..i]
  {
    if s[0] == x then 0 else 1 + IndexOf(s[1..], x)
  }

  lemma DistinctTail(order: seq<string>)
    requires order != [] && Distinct(order)
    ensures Distinct(order[1..]) && order[0] !in order[1..]
  {
    var tail := order[1..];
    forall i | 0 <= i < |tail|
      ensures tail[i] != order[0]
      ensures forall j :: i < j < |tail| ==> tail[i] != tail[j]
    {
      assert tail[i] == order[i + 1];
      assert forall j :: i < j < |tail| ==> tail[j] == order[j + 1];
    }
  }

  /** Past the first name, positions in a list of distinct names shift by one. */
  lemma IndexOfTail(order: seq<string>, x: string)
    requires order != [] && Distinct(order) && x in order[1..]
    ensures x in order && IndexOf(order, x) == 1 + IndexOf(order[1..], x)
  {
    var i := IndexOf(order[1..], x);
    assert order[i + 1] == x;
  }

  /** Of two tasks, the earlier one's service comes earlier in the registry. */
  lemma {:induction false} LaunchesOrderedPair(order: seq<string>, services: map<string, Spec>, i: nat, j: nat)
    requires Distinct(order)
    requires i < j < |Launches(order, services)|
    ensures NamedBefore(order, Launches(order, services), i, j)
  {
    assert order != [];
    var head, tail := TaskFor(services, order[0]), order[1..];
    DistinctTail(order);
    var ts, rest := Launches(order, services), Launches(tail, services);
    var h := |head|;
    assert ts == head + rest;
    LaunchesAt(tail, services, j - h);
    assert ts[j] == rest[j - h];
    IndexOfTail(order, rest[j - h].name);
    if i < h {
      assert ts[i].name == order[0];
    } else {
      LaunchesAt(tail, services, i - h);
      assert ts[i] == rest[i - h];
      IndexOfTail(order, rest[i - h].name);
      LaunchesOrderedPair(tail, services, i - h, j - h);
    }
  }

  /** The `i`-th name of `ts` occurs in `order` before the `j`-th. */
  predicate NamedBefore(order: seq<string>, ts: seq<Task>, i: nat, j: nat)
    requires i < |ts| && j < |ts|
  {
    ts[i].name in order && ts[j].name in order && IndexOf(order, ts[i].name) < IndexOf(order, ts[j].name)
  }

  /** The names of `ts` occur in `order`, in the same relative order. */
  predicate InOrderOf(order: seq<string>, ts: seq<Task>) {
    forall i, j :: 0 <= i < j < |ts| ==> NamedBefore(order, ts, i, j)
  }

  /** Tasks are created in registry order. */
  lemma LaunchesOrdered(order: seq<string>, services: map<string, Spec>)
    requires Distinct(order)
    ensures InOrderOf(order, Launches(order, services))
  {
    var ts := Launches(order, services);
    forall i, j | 0 <= i < j < |ts|
      ensures NamedBefore(order, ts, i, j)
    {
      LaunchesOrderedPair(order, services, i, j);
    }
  }

  /** The set of enabled, registered names among `order`. */
  function EnabledNames(order: seq<string>, services: map<string, Spec>): set<string> {
    set n | n in order && n in services && IsEnabled(services[n])
  }

  /** One task per enabled service: as many tasks as enabled names. */
  lemma {:induction false} LaunchesCount(order: seq<string>, services: map<string, Spec>)
    requires Distinct(order)
    ensures |Launches(order, services)| == |EnabledNames(order, services)|
  {
    if order != [] {
      var n, tail := order[0], order[1..];
      DistinctTail(order);
      LaunchesCount(tail, services);
      var added: set<string> := if n in services && IsEnabled(services[n]) then {n} else {};
      assert forall m :: m in order <==> m == n || m in tail;
      assert EnabledNames(order, services) == added + EnabledNames(tail, services);
      assert |Launches(order, services)| == |added| + |Launches(tail, services)|;
    } else {
      assert EnabledNames(order, services) == {};
    }
  }
}
