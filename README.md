# Local service manager: a verified model of its startup core

The local service manager (`ms_orchestration.py`) starts a set of locally
developed services. Each service has a directory, a health-check port, a
list of services it depends on and an `enabled` flag. The manager first
applies `--disable` and `--enable` from the command line to its registry and
optionally saves the registry. It then creates one launcher task per enabled
service. Each task waits until every registered dependency's health endpoint
answers 200 or 503, checks the service's directory, and starts the service's
long-running process there.

This project models that core in Dafny and proves its properties:

- `config.dfy` (module `ServiceConfig`): the registry entry `Spec`, the
  "enabled unless explicitly false" rule, and the enable/disable update as a
  function of the old registry.
- `readiness.dfy` (module `Readiness`): the readiness polling loop as a method.
  It is proved equal to a recursive specification function over an abstract
  clock and an abstract network. Lemmas prove when it returns true, when it
  sleeps, which requests it makes, and when it gives up.
- `launch.dfy` (module `Launch`): `os.path.join`, the dependency gate of one
  launcher task, the end state of a task, and which tasks a launch run
  creates, all as functions of the registry, with the lemmas about them.
  Here readiness is a predicate `ready(port)` on ports. The manager
  instantiates it with what the polling loop returns for that port with the
  default timeout (`Readiness.WaitsReady`).
- `manager.dfy` (module `Manager`): the `ServiceManager` class. Its fields are
  the registry map, the registry's insertion order, the base directory and
  the list of created tasks. Its methods (`SaveConfig`, `StartService`,
  `StartAll`) are loops that are proved to compute the functions above.
- `scenarios.dfy` (module `Scenarios`): how the flags decide the next launch
  run, plus two worked scenarios: a flag update, and a chain of services whose
  root dependency never becomes ready.

The outside world is replaced by parameters:

- The network is `Env.poll(port, k)`: the outcome of the k-th health request
  of one wait on `port`, either an HTTP status or a connection error/timeout.
- The clock is `Env.latency(port, k)`: the positive time that request took,
  in milliseconds. The 5-second back-off and the 180-second default timeout
  are constants in the same unit.
- Directory existence is a predicate `isDir`.
- The external process launcher is `launcher(dir)`. It is true when the
  process started in `dir` exited normally.
- The loaded configuration file is an optional `Document` (its names in
  document order and its name-to-spec mapping). `None` means the file does
  not exist.

Behaviour of the code that the model keeps:

- The polling loop stops once the elapsed time reaches the timeout: its
  guard is `elapsed < timeout`.
- A status other than 200 or 503 is retried at once, without the back-off
  sleep. Only a connection error or request timeout is followed by a sleep.
- A wait cannot be cancelled. It always runs until it is ready or its
  timeout is reached.
- The launcher resolves the service directory against the base directory
  and hands it to the process launcher. The model passes it explicitly; the
  code instead changes the process-wide working directory (see Left out).

## Model

| member | source | states |
|---|---|---|
| `ServiceConfig.ApplyFlags` | ms_orchestration.py:93-103 | keeps exactly the same service names; changes nothing but `enabled`; a name on `--enable` ends enabled (even if also on `--disable`), a name only on `--disable` ends disabled, and any other service is unchanged |
| `ServiceConfig.EnabledAfterFlags` | ms_orchestration.py:95-103 | after the flags a service is enabled iff it was named by `--enable`, or it was not named by `--disable` and was enabled before |
| `ServiceConfig.ApplyFlagsIdempotent` | ms_orchestration.py:93-103 | applying the same disable/enable lists twice gives the same registry as applying them once |
| `ServiceConfig.SetEnabledExtend` | ms_orchestration.py:96-98 | one more name on a list changes that registered service's `enabled` alone, and an unregistered name changes nothing |
| `Readiness.WaitForDependency` | ms_orchestration.py:25-37 | the polling loop returns exactly the wait the specification function describes (readiness, the requests made, the time it returns) |
| `Readiness.WaitFromPolls` | ms_orchestration.py:28-35 | the requests of a wait are the network's requests in order, and the gate sleeps after a request iff it ended in a connection error or timeout |
| `Readiness.WaitFromClock` | ms_orchestration.py:26-35 | the first request starts when the wait starts, and each later one when the previous iteration ended (request time plus back-off if it slept) |
| `Readiness.WaitFromEnd` | ms_orchestration.py:28-37 | a wait returns when its last iteration ends (that request's start time plus its duration and any back-off), or at once when it made no request |
| `Readiness.WaitFromDeadline` | ms_orchestration.py:28-37 | every request is made while the elapsed time is below the timeout; a wait that returns false has reached the timeout |
| `Readiness.WaitFromReady` | ms_orchestration.py:31-33 | a wait returns true iff one of its requests got 200 or 503, and it stops at the first such request |
| `Readiness.WaitSemantics` | ms_orchestration.py:25-37 | from the start of a wait: true exactly when some request made before the timeout got 200 or 503; false only once the timeout is reached; sleeps only after connection errors or timeouts |
| `Readiness.TimedOutWithinOneIteration` | ms_orchestration.py:28-37 | a wait that returns false made its last request before the timeout and returns one iteration later; with no request at all, the timeout was not positive |
| `Readiness.NeverAcceptedTimesOut` | ms_orchestration.py:28-37 | a dependency that never answers 200 or 503 is never ready |
| `Launch.Join` | ms_orchestration.py:54 | an absolute service path replaces the base directory; otherwise the result is the base directory, then a `/` exactly when the base is non-empty and does not already end with `/`, then the path |
| `Launch.Registered` | ms_orchestration.py:43-46 | the dependencies that are kept are exactly those that name a registered service |
| `Launch.GatePassesIff` | ms_orchestration.py:43-51 | the dependency gate passes iff every registered dependency is ready |
| `Launch.GateWaitsRegistered` | ms_orchestration.py:43-51 | only registered dependencies are waited on, in order: the waits are a prefix of the registered dependencies, and all of them when the gate passes |
| `Launch.GateWaitsStop` | ms_orchestration.py:43-51 | every name waited on is registered; on a timeout the waits stop there, the timed-out dependency is the last one waited on, and every earlier one was ready |
| `Launch.GateIgnoresUnregistered` | ms_orchestration.py:44-46 | dependencies that are not registered never change the outcome of the gate |
| `Launch.StartReportGate` | ms_orchestration.py:43-51 | a task gets past its dependencies iff every registered dependency is ready, and then it has waited on all of them |
| `Launch.StartReportTimeout` | ms_orchestration.py:43-51 | a task that ends on a dependency timeout names a registered dependency that is not ready, the last one it waited on, and waited on no later registered dependency |
| `Launch.StartReportLaunch` | ms_orchestration.py:43-67 | the path check fails iff every registered dependency is ready and the resolved directory does not exist; the process is started in the resolved directory iff, in addition, the directory exists; it ends as `ExitedNormally` iff, in addition, the process exits with status 0 |
| `Launch.NoDependenciesNoWait` | ms_orchestration.py:43-56 | a service without dependencies waits on nothing and goes straight to the path check |
| `Launch.LaunchesAppend` | ms_orchestration.py:73-81 | walking one more registry entry adds a task exactly when that service is enabled |
| `Launch.LaunchesAt` | ms_orchestration.py:73-81 | every task created is for a registered, enabled service of the registry order and carries that service's spec |
| `Launch.LaunchesMembers` | ms_orchestration.py:73-83 | a task is created for a registered service iff it is enabled, and carries that service's name and spec |
| `Launch.LaunchesOrderedPair` | ms_orchestration.py:73-81 | of any two tasks, the earlier one is for a service that comes earlier in the registry order |
| `Launch.LaunchesOrdered` | ms_orchestration.py:73-81 | tasks are created in registry order |
| `Launch.LaunchesCount` | ms_orchestration.py:73-81 | a launch run creates exactly as many tasks as there are enabled services |
| `Manager.ServiceManager.constructor` | ms_orchestration.py:14-23 | the base directory defaults to `./`; the registry is the loaded document, or empty when the configuration file is missing; no tasks yet |
| `Manager.ServiceManager.SaveConfig` | ms_orchestration.py:93-107 | the registry becomes the flag update of the old one and keeps its invariant; the registry is written back iff `save` is set |
| `Manager.ServiceManager.StartService` | ms_orchestration.py:39-67 | the task's dependency waits and end state are exactly the gate-then-path-then-launch outcome described above, with each dependency ready iff the polling loop with the default timeout returns true for its port |
| `Manager.ServiceManager.StartAll` | ms_orchestration.py:69-83 | the task list grows by exactly one task per enabled service, in registry order |
| `Scenarios.LaunchAfterFlags` | ms_orchestration.py:74-103 | after the flags, the next launch run creates a task for a service iff it was named by `--enable`, or was not named by `--disable` and was enabled |
| `Scenarios.FlagsScenario` | ms_orchestration.py:95-103 | `--disable B --enable A` on A disabled and B enabled gives A enabled and B disabled, and leaves C unchanged |
| `Scenarios.DependencyTimeoutScenario` | ms_orchestration.py:43-53 | if neither A's endpoint (port 8001) nor B's (port 8002) ever answers 200 or 503, B (which depends on A) and C (which depends on B) both end with a timeout on their dependency, while A waits on nothing and goes on to the path check |

## Left out

- Threads, `thread.start`, `join` and the `KeyboardInterrupt` handling: each launcher task is modelled on its own. In the program the tasks are coupled through the network: B's wait on A's port succeeds only once A's task has started A's process. The model does not connect one task's launch to the answers other tasks' waits receive; the `poll` oracle is independent of every task's outcome.
- Scenarios.DependencyTimeoutScenario: because the readiness oracle is not tied to launch outcomes, B's endpoint is assumed silent too, rather than derived from B's task aborting.
- The process-wide `os.chdir` into the service directory, and the restoring of the original directory after the joins. These make concurrent tasks race on the working directory. The model hands the directory to the launcher instead.
- `subprocess.run("skaffold dev --port-forward")`: it is the `launcher` oracle. Any failure, including a non-zero exit or a failure to change directory, is folded into `LaunchFailed`.
- HTTP: `requests.get` on `http://localhost:{port}/actuator/health` is the `poll` oracle. Exceptions other than a connection error or a request timeout would end the task; they are not modelled.
- The oracle is deterministic per port and request number, so two waits on the same port see the same answers. The model does not bound a request's latency by the 5-second request timeout.
- Wall-clock time is integer milliseconds, advanced only by requests and back-off sleeps. Time spent outside them is not counted.
- YAML loading and dumping: the loaded file is a `Document` whose names are distinct and match its mapping. An empty file, or an entry that is not a mapping, would make the program fail later; neither is modelled. `yaml.dump` writes the keys sorted, so the saved value is the registry map without an order.
- `dependencies` and `enabled` are typed: a missing `dependencies` is the empty list, and `enabled` is absent, true or false. A registered entry is always a non-empty mapping, so "registered" and "truthy" coincide.
- `argparse`, `main`, the `clear` command and every printed message. The `name` argument of `start_service` is only printed, so it is not a parameter of `StartService`.
- Cancellation of waits on interrupt: the code has none.
