/**
 * The service manager object (ms_orchestration.py, class ServiceManager):
 * the registry it loads, the enable/disable update, one launcher task's
 * dependency gating, and the creation of the launch tasks.
 */
module Manager {
  import opened ServiceConfig
  import opened Readiness
  import opened Launch

  class ServiceManager {
    /** Base directory against which service paths are resolved. */
    var baseDir: string
    /** The registry: service name to spec ... */
    var services: map<string, Spec>
    /** ... and the order in which its names were inserted. */
    var order: seq<string>
    /** The launcher tasks created so far. */
    var threads: seq<Task>

    ghost predicate Valid()
      reads this
    {
      && Distinct(order)
      && (forall n :: n in order ==> n in services)
      && (forall n :: n in services ==> n in order)
    }

    /** `loaded` is the configuration document, or None when the
        configuration file does not exist; then the registry is empty. */
    constructor (dir: string, loaded: Option<Document>)
      requires loaded.Some? ==> WellFormed(loaded.value)
      ensures Valid()
      ensures baseDir == if dir == "" then "./" else dir
      ensures loaded.Some? ==> services == loaded.value.specs && order == loaded.value.names
      ensures loaded.None? ==> services == map[] && order == []
      ensures threads == []
    {
      baseDir := if dir == "" then "./" else dir;
      threads := [];
      if loaded.Some? {
        services := loaded.value.specs;
        order := loaded.value.names;
      } else {
        services := map[];
        order := [];
      }
    }

    /** Apply `--disable`, then `--enable`, in place; when `save` is set,
        return the registry that is written back to the configuration file. */
    method SaveConfig(disable: seq<string>, enable: seq<string>, save: bool) returns (written: Option<map<string, Spec>>)
      requires Valid()
      modifies this`services
      ensures Valid()
      ensures services == ApplyFlags(old(services), disable, enable)
      ensures written == if save then Some(services) else None
    {
      for i := 0 to |disable|
        invariant services == SetEnabled(old(services), disable[..i], false)
      {
        var name := disable[i];
        SetEnabledExtend(old(services), disable[..i], name, false);
        assert disable[..i + 1] == disable[..i] + [name];
        if name in services {
          services := services[name := services[name].(enabled := Some(false))];
        }
      }
      assert disable[..|disable|] == disable;
      ghost var disabled := services;
      for i := 0 to |enable|
        invariant services == SetEnabled(disabled, enable[..i], true)
      {
        var name := enable[i];
        SetEnabledExtend(disabled, enable[..i], name, true);
        assert enable[..i + 1] == enable[..i] + [name];
        if name in services {
          services := services[name := services[name].(enabled := Some(true))];
        }
      }
      assert enable[..|enable|] == enable;
      written := if save then Some(services) else None;
    }

    /** One launcher task: wait on every registered dependency in order,
        abort at the first one that is not ready, then check the service's
        directory and start the process there. */
    method StartService(config: Spec, env: Env, isDir: string -> bool, launcher: string -> bool) returns (report: Report)
      ensures report == StartReport(services, baseDir, config, WaitsReady(env), isDir, launcher)
    {
      var deps := config.dependencies;
      var waited: seq<string> := [];
      for k := 0 to |deps|
        invariant Gate(services, deps, WaitsReady(env)) == After(waited, Gate(services, deps[k..], WaitsReady(env)))
      {
        var dep := deps[k];
        assert deps[k..][1..] == deps[k + 1..];
        if dep in services {
          var wait := WaitForDependency(services[dep].port, DefaultTimeoutMs, env);
          waited := waited + [dep];
          if !wait.ready {
            return Report(waited, DepTimeout(dep));
          }
        }
      }
      assert deps[|deps|..] == [];
      var dir := Join(baseDir, config.path);
      if !isDir(dir) {
        return Report(waited, PathNotFound(dir));
      }
      var exitedNormally := launcher(dir);
      report := Report(waited, if exitedNormally then ExitedNormally(dir) else LaunchFailed(dir));
    }

    /** Create one launcher task per enabled service, in registry order. */
    method StartAll()
      requires Valid()
      modifies this`threads
      ensures threads == old(threads) + Launches(order, services)
    {
      for k := 0 to |order|
        invariant threads == old(threads) + Launches(order[..k], services)
      {
        var name := order[k];
        LaunchesAppend(order[..k], name, services);
        assert order[..k + 1] == order[..k] + [name];
        var config := services[name];
        if IsEnabled(config) {
          assert TaskFor(services, name) == [Task(name, config)];
          threads := threads + [Task(name, config)];
        } else {
          assert TaskFor(services, name) == [];
        }
      }
      assert order[..|order|] == order;
    }
  }
}
