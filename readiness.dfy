/**
 * The readiness gate (ms_orchestration.py, ServiceManager.wait_for_dependency):
 * poll a dependency's health endpoint until it answers 200 or 503, or until
 * the elapsed time reaches the timeout.
 *
 * The network and the clock are oracles. `Env.poll(port, k)` is the outcome
 * of the k-th health request of a wait on `port`; `Env.latency(port, k)` is
 * the positive time that request took. Time is counted in milliseconds from
 * the start of the wait.
 */
module Readiness {

  /** Back-off after a connection error or a request timeout (5 s). */
  const BackoffMs: nat := 5000
  /** Default `thread_timeout` of a wait (180 s). */
  const DefaultTimeoutMs: int := 180000

  /** The outcome of one health request: an HTTP status, or a connection
      error / request timeout. */
  datatype Poll = Status(code: int) | ConnErr

  type Duration = d: nat | d > 0 witness 1

  datatype Env = Env(poll: (int, nat) -> Poll, latency: (int, nat) -> Duration)

  /** One health request of a wait: its outcome, the elapsed time at which
      the loop guard admitted it, and whether the gate slept after it. */
  datatype Attempt = Attempt(outcome: Poll, at: nat, slept: bool)

  /** `ready` is the value `wait_for_dependency` returns; `elapsed` is the
      time at which it returns. */
  datatype WaitResult = WaitResult(ready: bool, attempts: seq<Attempt>, elapsed: nat)

  /** Status 200 and 503 both count as reachable. */
  predicate Accepted(p: Poll) {
    p.Status? && (p.code == 200 || p.code == 503)
  }

  /** The time one iteration of the polling loop takes. */
  function StepTime(a: Attempt, latency: Duration): nat {
    latency + if a.slept then BackoffMs else 0
  }

  function Extend(prefix: seq<Attempt>, r: WaitResult): WaitResult {
    r.(attempts := prefix + r.attempts)
  }

  /** The iteration that the loop runs when the `k`-th request, admitted at
      `elapsed`, is not accepted: it sleeps after a connection error. */
  function NextAttempt(port: int, env: Env, k: nat, elapsed: nat): Attempt {
    Attempt(env.poll(port, k), elapsed, env.poll(port, k).ConnErr?)
  }

  function NextElapsed(port: int, env: Env, k: nat, elapsed: nat): nat {
    elapsed + StepTime(NextAttempt(port, env, k, elapsed), env.latency(port, k))
  }

  /** The wait from its `k`-th request on, `elapsed` time after it began. */
  function WaitFrom(port: int, timeout: int, env: Env, k: nat, elapsed: nat): WaitResult
    decreases timeout - elapsed
  {
    if elapsed >= timeout then WaitResult(false, [], elapsed)
    else if Accepted(env.poll(port, k)) then
      WaitResult(true, [Attempt(env.poll(port, k), elapsed, false)], elapsed + env.latency(port, k))
    else
      Extend([NextAttempt(port, env, k, elapsed)], WaitFrom(port, timeout, env, k + 1, NextElapsed(port, env, k, elapsed)))
  }

  function Wait(port: int, timeout: int, env: Env): WaitResult {
    WaitFrom(port, timeout, env, 0, 0)
  }

  predicate Ready(port: int, timeout: int, env: Env) {
    Wait(port, timeout, env).ready
  }

  lemma ExtendTwice(prefix: seq<Attempt>, a: Attempt, r: WaitResult)
    ensures Extend(prefix, Extend([a], r)) == Extend(prefix + [a], r)
  {
    assert prefix + ([a] + r.attempts) == prefix + [a] + r.attempts;
  }

  /** What a wait with the default timeout returns, port by port. */
  function WaitsReady(env: Env): int -> bool {
    port => Ready(port, DefaultTimeoutMs, env)
  }

  /** The polling loop itself. */
  method WaitForDependency(port: int, timeout: int, env: Env) returns (r: WaitResult)
    ensures r == Wait(port, timeout, env)
  {
    var elapsed: nat := 0;
    var k: nat := 0;
    var attempts: seq<Attempt> := [];
    while elapsed < timeout
      invariant Wait(port, timeout, env) == Extend(attempts, WaitFrom(port, timeout, env, k, elapsed))
      decreases timeout - elapsed
    {
      var p := env.poll(port, k);
      var took := env.latency(port, k);
      if Accepted(p) {
        WaitFromAccepted(port, timeout, env, k, elapsed);
        return WaitResult(true, attempts + [Attempt(p, elapsed, false)], elapsed + took);
      }
      var a := Attempt(p, elapsed, p.ConnErr?);
      var next := elapsed + StepTime(a, took);
      WaitFromStep(port, timeout, env, k, elapsed);
      ExtendTwice(attempts, a, WaitFrom(port, timeout, env, k + 1, next));
      attempts := attempts + [a];
      elapsed := next;
      k := k + 1;
    }
    WaitFromTimedOut(port, timeout, env, k, elapsed);
    r := WaitResult(false, attempts, elapsed);
  }

  /** One unfolding of the loop past a request that was not accepted. */
  lemma WaitFromStep(port: int, timeout: int, env: Env, k: nat, elapsed: nat)
    requires elapsed < timeout && !Accepted(env.poll(port, k))
    ensures WaitFrom(port, timeout, env, k, elapsed)
         == Extend([NextAttempt(port, env, k, elapsed)], WaitFrom(port, timeout, env, k + 1, NextElapsed(port, env, k, elapsed)))
  {
  }

  /** The loop returns true at an accepted request taken before the timeout. */
  lemma WaitFromAccepted(port: int, timeout: int, env: Env, k: nat, elapsed: nat)
    requires elapsed < timeout && Accepted(env.poll(port, k))
    ensures WaitFrom(port, timeout, env, k, elapsed)
         == WaitResult(true, [Attempt(env.poll(port, k), elapsed, false)], elapsed + env.latency(port, k))
  {
  }

  /** The loop returns false, without a request, once the timeout is reached. */
  lemma WaitFromTimedOut(port: int, timeout: int, env: Env, k: nat, elapsed: nat)
    requires elapsed >= timeout
    ensures WaitFrom(port, timeout, env, k, elapsed) == WaitResult(false, [], elapsed)
  {
  }

  /** The requests of a wait are the oracle's requests from the k-th on, in
      order, and the gate sleeps after a request exactly when it ended in a
      connection error or timeout. */
  lemma {:induction false} WaitFromPolls(port: int, timeout: int, env: Env, k: nat, elapsed: nat)
    ensures var r := WaitFrom(port, timeout, env, k, elapsed);
      && (forall j :: 0 <= j < |r.attempts| ==> r.attempts[j].outcome == env.poll(port, k + j))
      && (forall j :: 0 <= j < |r.attempts| ==> (r.attempts[j].slept <==> r.attempts[j].outcome.ConnErr?))
    decreases timeout - elapsed
  {
    if elapsed < timeout && !Accepted(env.poll(port, k)) {
      var next := NextElapsed(port, env, k, elapsed);
      WaitFromStep(port, timeout, env, k, elapsed);
      WaitFromPolls(port, timeout, env, k + 1, next);
      var r := WaitFrom(port, timeout, env, k, elapsed);
      var rest := WaitFrom(port, timeout, env, k + 1, next);
      forall j | 1 <= j < |r.attempts|
        ensures r.attempts[j].outcome == env.poll(port, k + j)
      {
        assert r.attempts[j] == rest.attempts[j - 1];
      }
    }
  }

  /** Each request starts when the previous iteration ended, the first one at
      `elapsed`. */
  lemma {:induction false} WaitFromClock(port: int, timeout: int, env: Env, k: nat, elapsed: nat)
    ensures var r := WaitFrom(port, timeout, env, k, elapsed);
      && (|r.attempts| > 0 ==> r.attempts[0].at == elapsed)
      && (forall j :: 0 <= j < |r.attempts| - 1 ==>
            r.attempts[j + 1].at == r.attempts[j].at + StepTime(r.attempts[j], env.latency(port, k + j)))
    decreases timeout - elapsed
  {
    if elapsed < timeout && !Accepted(env.poll(port, k)) {
      var next := NextElapsed(port, env, k, elapsed);
      WaitFromStep(port, timeout, env, k, elapsed);
      WaitFromClock(port, timeout, env, k + 1, next);
      var r := WaitFrom(port, timeout, env, k, elapsed);
      var rest := WaitFrom(port, timeout, env, k + 1, next);
      forall j | 0 <= j < |r.attempts| - 1
        ensures r.attempts[j + 1].at == r.attempts[j].at + StepTime(r.attempts[j], env.latency(port, k + j))
      {
        assert r.attempts[j + 1] == rest.attempts[j];
        if j > 0 { assert r.attempts[j] == rest.attempts[j - 1]; }
      }
    }
  }

  /** The wait returns when its last iteration ended, or at once when it
      made no request. */
  lemma {:induction false} WaitFromEnd(port: int, timeout: int, env: Env, k: nat, elapsed: nat)
    ensures var r := WaitFrom(port, timeout, env, k, elapsed);
      && (|r.attempts| == 0 ==> r.elapsed == elapsed)
      && (|r.attempts| > 0 ==>
            var last := r.attempts[|r.attempts| - 1];
            r.elapsed == last.at + StepTime(last, env.latency(port, k + |r.attempts| - 1)))
    decreases timeout - elapsed
  {
    if elapsed < timeout && !Accepted(env.poll(port, k)) {
      var next := NextElapsed(port, env, k, elapsed);
      WaitFromStep(port, timeout, env, k, elapsed);
      WaitFromEnd(port, timeout, env, k + 1, next);
      var r := WaitFrom(port, timeout, env, k, elapsed);
      var rest := WaitFrom(port, timeout, env, k + 1, next);
      if |rest.attempts| > 0 {
        assert r.attempts[|r.attempts| - 1] == rest.attempts[|rest.attempts| - 1];
      }
    }
  }

  /** Every request was admitted while the elapsed time was below the
      timeout, and a wait that is not ready has reached the timeout. */
  lemma {:induction false} WaitFromDeadline(port: int, timeout: int, env: Env, k: nat, elapsed: nat)
    ensures var r := WaitFrom(port, timeout, env, k, elapsed);
      && (forall j :: 0 <= j < |r.attempts| ==> elapsed <= r.attempts[j].at < timeout)
      && (!r.ready ==> r.elapsed >= timeout)
    decreases timeout - elapsed
  {
    if elapsed < timeout && !Accepted(env.poll(port, k)) {
      var next := NextElapsed(port, env, k, elapsed);
      WaitFromStep(port, timeout, env, k, elapsed);
      WaitFromDeadline(port, timeout, env, k + 1, next);
      var r := WaitFrom(port, timeout, env, k, elapsed);
      var rest := WaitFrom(port, timeout, env, k + 1, next);
      forall j | 1 <= j < |r.attempts|
        ensures elapsed <= r.attempts[j].at < timeout
      {
        assert r.attempts[j] == rest.attempts[j - 1];
      }
    }
  }

  /** A wait is ready exactly when one of its requests was accepted, and then
      it stopped at the first accepted one. */
  lemma {:induction false} WaitFromReady(port: int, timeout: int, env: Env, k: nat, elapsed: nat)
    ensures var r := WaitFrom(port, timeout, env, k, elapsed);
      && (r.ready <==> exists j :: 0 <= j < |r.attempts| && Accepted(r.attempts[j].outcome))
      && (r.ready ==> |r.attempts| > 0 && Accepted(r.attempts[|r.attempts| - 1].outcome))
      && (forall j :: 0 <= j < |r.attempts| - 1 ==> !Accepted(r.attempts[j].outcome))
    decreases timeout - elapsed
  {
    var r := WaitFrom(port, timeout, env, k, elapsed);
    if elapsed < timeout && Accepted(env.poll(port, k)) {
      assert Accepted(r.attempts[0].outcome);
    } else if elapsed < timeout {
      var next := NextElapsed(port, env, k, elapsed);
      WaitFromStep(port, timeout, env, k, elapsed);
      WaitFromReady(port, timeout, env, k + 1, next);
      var rest := WaitFrom(port, timeout, env, k + 1, next);
      if r.ready {
        var j :| 0 <= j < |rest.attempts| && Accepted(rest.attempts[j].outcome);
        assert r.attempts[j + 1] == rest.attempts[j];
      }
      forall j | 0 <= j < |r.attempts| && Accepted(r.attempts[j].outcome)
        ensures r.ready && j == |r.attempts| - 1
      {
        assert j > 0 && r.attempts[j] == rest.attempts[j - 1];
      }
    }
  }

  /** The properties of `wait_for_dependency`, from the start of a wait. */
  lemma WaitSemantics(port: int, timeout: int, env: Env)
    ensures var r := Wait(port, timeout, env);
      && (forall j :: 0 <= j < |r.attempts| ==> r.attempts[j].outcome == env.poll(port, j))
      && (forall j :: 0 <= j < |r.attempts| ==> r.attempts[j].at < timeout)
      && (r.ready <==> exists j :: 0 <= j < |r.attempts| && Accepted(r.attempts[j].outcome))
      && (forall j :: 0 <= j < |r.attempts| - 1 ==> !Accepted(r.attempts[j].outcome))
      && (!r.ready ==> r.elapsed >= timeout)
      && (forall j :: 0 <= j < |r.attempts| ==> (r.attempts[j].slept <==> r.attempts[j].outcome.ConnErr?))
  {
    WaitFromPolls(port, timeout, env, 0, 0);
    WaitFromDeadline(port, timeout, env, 0, 0);
    WaitFromReady(port, timeout, env, 0, 0);
  }

  /** A wait that times out returns within one iteration of the timeout: its
      last request began before the timeout. */
  lemma TimedOutWithinOneIteration(port: int, timeout: int, env: Env)
    ensures var r := Wait(port, timeout, env);
      !r.ready ==>
        if |r.attempts| == 0 then timeout <= 0 && r.elapsed == 0
        else
          var last := r.attempts[|r.attempts| - 1];
          r.elapsed == last.at + StepTime(last, env.latency(port, |r.attempts| - 1)) && last.at < timeout <= r.elapsed
  {
    WaitFromEnd(port, timeout, env, 0, 0);
    WaitFromDeadline(port, timeout, env, 0, 0);
  }

  /** A dependency whose endpoint never answers 200 or 503 is never ready. */
  lemma NeverAcceptedTimesOut(port: int, timeout: int, env: Env)
    requires forall k: nat :: !Accepted(env.poll(port, k))
    ensures !Ready(port, timeout, env)
  {
    WaitSemantics(port, timeout, env);
  }
}
