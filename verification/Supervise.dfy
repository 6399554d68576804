// The daemon supervisor (crates/anchor/src/supervise.rs) and the supervision words
// it keeps (crates/anchor/src/segment.rs, `Supervision`). The clock, the spawn, the
// wait and what the daemon writes are parameters.

module Supervise {
  import opened Wire

  const RETRY_CAP_NS: U64 := 60_000_000_000

  datatype Policy = Policy(window: U64, maxRestarts: U32)

  /** `RestartPolicy::derive`: as many restarts as daemon starts fit in the budget, one at least. */
  function Derive(recoveryBudget: U64, startP99: U64): Policy {
    Policy(recoveryBudget, Max(Min(recoveryBudget / Max(startP99, 1), U32_MAX), 1))
  }

  /** The bound is the starts the budget holds: that many fit in it, and no more would (up to 32 bits). */
  lemma {:induction false} DeriveHolds(recoveryBudget: U64, startP99: U64)
    ensures var n := Derive(recoveryBudget, startP99).maxRestarts; var start := Max(startP99, 1);
      && 1 <= n
      && (n > 1 ==> n * start <= recoveryBudget)
      && (n < U32_MAX ==> recoveryBudget < (n + 1) * start)
  {
    var start := Max(startP99, 1);
    var q := recoveryBudget / start;
    var n: int := Derive(recoveryBudget, startP99).maxRestarts;
    Quotient(recoveryBudget, start);
    MulLe(n, q, start);
    MulLe(q + 1, n + 1, start);
  }

  datatype DaemonState = NotRunning | Live | Looping

  /** The supervision block. */
  datatype Words = Words(
    pid: U64, heartbeat: U64, generation: U64, restarts: U64, state: DaemonState, started: U64, stop: U64, stopBy: U64)

  function Bump(v: U64): U64 { if v == U64_MAX then 0 else v + 1 }

  function RecordStart(w: Words, pid: U64, now: U64, restart: bool): Words {
    w.(stop := 0, stopBy := 0, pid := pid, started := now, heartbeat := 0, generation := Bump(w.generation),
       restarts := if restart then Bump(w.restarts) else w.restarts, state := Live)
  }

  function RecordExit(w: Words, crashLoop: bool): Words {
    w.(pid := 0, state := if crashLoop then Looping else NotRunning)
  }

  function SatSub(a: nat, b: nat): nat { Max(a - b, 0) }

  predicate Alive(w: Words, now: U64, budget: U64) {
    w.state == Live && w.heartbeat > 0 && SatSub(now, w.heartbeat) <= budget
  }

  // ------------------------------------------------------------------- values

  /** A supervisor's fields. */
  datatype Sup = Sup(
    policy: Policy, child: Option<U64>, restartsAt: seq<U64>, retryAt: Option<U64>, backoff: U64, startedAt: U64,
    words: Words)

  /** What waiting on the daemon answers. */
  datatype Poll = StillRunning | Exited(code: Option<int>) | PollFails

  datatype StepResult =
    | Running
    | Restarted(exitCode: Option<int>, inWindow: U32)
    | CrashLoop(exitCode: Option<int>, retryIn: U64)
    | BackingOff(retryAt: U64)
    | Stopped
    | Failed

  datatype Stopping = Draining | Gone(exitCode: Option<int>, killed: bool) | StopFails

  /** `start`, given the pid a spawn yields or none when it is refused. */
  function StartOf(s: Sup, now: U64, spawn: Option<U64>): (Sup, bool) {
    if s.child.Some? then (s, true)
    else if spawn.None? then (s.(startedAt := now), false)
    else
      (s.(startedAt := now, child := spawn,
          words := RecordStart(s.words, spawn.value, now, s.words.generation > 0)), true)
  }

  /** The exits left after those older than the window are dropped from the front. */
  function Pruned(times: seq<U64>, now: U64, window: U64): seq<U64> {
    if times != [] && SatSub(now, times[0]) > window then Pruned(times[1..], now, window) else times
  }

  /** What an exit at `now` leads to: a restart, or a crash loop past the bound. */
  function ExitOf(s: Sup, now: U64, code: Option<int>, spawn: Option<U64>): (Sup, StepResult) {
    var times := Pruned(s.restartsAt + [now], now, s.policy.window);
    var gone := s.(child := None, restartsAt := times);
    var inWindow := Min(|times|, U32_MAX);
    if inWindow > s.policy.maxRestarts then
      (gone.(words := RecordExit(s.words, true), backoff := Min(Min(s.backoff * 2, U64_MAX), RETRY_CAP_NS),
             retryAt := Some(SatAdd(now, s.backoff))),
       CrashLoop(code, s.backoff))
    else
      var started := StartOf(gone.(words := RecordExit(s.words, false)), now, spawn);
      (started.0, if started.1 then Restarted(code, inWindow) else Failed)
  }

  /** `step`. */
  function StepOf(s: Sup, now: U64, poll: Poll, spawn: Option<U64>): (Sup, StepResult) {
    if s.retryAt.Some? then
      if now < s.retryAt.value then (s, BackingOff(s.retryAt.value))
      else
        var started := StartOf(s.(retryAt := None), now, spawn);
        (started.0, if started.1 then Restarted(None, Min(|s.restartsAt|, U32_MAX)) else Failed)
    else if s.child.None? then (s, Stopped)
    else
      match poll
      case StillRunning =>
        (if SatSub(now, s.startedAt) > s.policy.window then s.(backoff := s.policy.window) else s, Running)
      case PollFails => (s, Failed)
      case Exited(code) => ExitOf(s, now, code, spawn)
  }

  function SetPolicyOf(s: Sup, p: Policy): Sup {
    s.(policy := p, backoff := if s.retryAt.None? then p.window else s.backoff)
  }

  function RequestStopOf(s: Sup, now: U64): Sup {
    if s.child.Some? then s.(words := s.words.(stop := Max(now, 1))) else s
  }

  /** Whether a stopping daemon is past every bound it is held to. */
  predicate GivesUp(w: Words, now: U64, budget: U64) {
    var requested := if w.stop != 0 then w.stop else now;
    || !Alive(w, now, budget)
    || (if w.stopBy == 0 then SatSub(now, requested) > budget else now > SatAdd(w.stopBy, budget))
  }

  /** `stop_step`; `killed` is the code a killed daemon exits with. */
  function StopStepOf(s: Sup, now: U64, budget: U64, poll: Poll, killed: Option<int>): (Sup, Stopping) {
    var s := s.(retryAt := None);
    var gone := s.(child := None, words := RecordExit(s.words, false));
    if s.child.None? then (gone, Gone(None, false))
    else
      match poll
      case Exited(code) => (gone, Gone(code, false))
      case PollFails => (s, StopFails)
      case StillRunning => if GivesUp(s.words, now, budget) then (gone, Gone(killed, true)) else (s, Draining)
  }

  function StopOf(s: Sup): Sup {
    s.(retryAt := None, child := None, words := RecordExit(s.words, false))
  }

  // ------------------------------------------------------------------- object

  class Supervisor {
    var policy: Policy
    var child: Option<U64>
    var restartsAt: seq<U64>
    var retryAt: Option<U64>
    var backoff: U64
    var startedAt: U64
    var words: Words

    ghost function View(): Sup
      reads this
    {
      Sup(policy, child, restartsAt, retryAt, backoff, startedAt, words)
    }

    constructor (p: Policy)
      ensures View() == InitialSup(p)
    {
      policy, child, restartsAt, retryAt, backoff, startedAt := p, None, [], None, p.window, 0;
      words := Words(0, 0, 0, 0, NotRunning, 0, 0, 0);
    }

    method Start(now: U64, spawn: Option<U64>) returns (ok: bool)
      modifies this
      ensures (View(), ok) == StartOf(old(View()), now, spawn)
    {
      if child.Some? {
        return true;
      }
      startedAt := now;
      if spawn.None? {
        return false;
      }
      words := RecordStart(words, spawn.value, now, words.generation > 0);
      child := spawn;
      return true;
    }

    /** Records an exit's time and drops those older than the window. */
    method RecordExitTime(now: U64)
      modifies `restartsAt
      ensures restartsAt == Pruned(old(restartsAt) + [now], now, policy.window)
    {
      restartsAt := restartsAt + [now];
      while restartsAt != [] && SatSub(now, restartsAt[0]) > policy.window
        invariant Pruned(restartsAt, now, policy.window) == Pruned(old(restartsAt) + [now], now, policy.window)
        decreases |restartsAt|
      {
        restartsAt := restartsAt[1..];
      }
    }

    method Step(now: U64, poll: Poll, spawn: Option<U64>) returns (r: StepResult)
      modifies this
      ensures (View(), r) == StepOf(old(View()), now, poll, spawn)
    {
      if retryAt.Some? {
        if now < retryAt.value {
          return BackingOff(retryAt.value);
        }
        retryAt := None;
        var ok := Start(now, spawn);
        return if ok then Restarted(None, Min(|restartsAt|, U32_MAX)) else Failed;
      }
      if child.None? {
        return Stopped;
      }
      match poll {
        case StillRunning =>
          if SatSub(now, startedAt) > policy.window {
            backoff := policy.window;
          }
          return Running;
        case PollFails => return Failed;
        case Exited(code) =>
          child := None;
          RecordExitTime(now);
          var inWindow := Min(|restartsAt|, U32_MAX);
          if inWindow > policy.maxRestarts {
            words := RecordExit(words, true);
            var retryIn := backoff;
            backoff := Min(Min(backoff * 2, U64_MAX), RETRY_CAP_NS);
            retryAt := Some(SatAdd(now, retryIn));
            return CrashLoop(code, retryIn);
          }
          words := RecordExit(words, false);
          var ok := Start(now, spawn);
          return if ok then Restarted(code, inWindow) else Failed;
      }
    }

    /** `set_policy`; when it takes effect over a run is `SupervisorRuns.PolicyTakesEffect`. */
    method SetPolicy(p: Policy)
      modifies this
      ensures View() == SetPolicyOf(old(View()), p)
    {
      if retryAt.None? {
        backoff := p.window;
      }
      policy := p;
    }

    method RequestStop(now: U64)
      modifies this
      ensures View() == RequestStopOf(old(View()), now)
    {
      if child.Some? {
        words := words.(stop := Max(now, 1));
      }
    }

    method StopStep(now: U64, budget: U64, poll: Poll, killed: Option<int>) returns (r: Stopping)
      modifies this
      ensures (View(), r) == StopStepOf(old(View()), now, budget, poll, killed)
    {
      retryAt := None;
      if child.None? {
        words := RecordExit(words, false);
        return Gone(None, false);
      }
      match poll {
        case Exited(code) =>
          child := None;
          words := RecordExit(words, false);
          return Gone(code, false);
        case PollFails => return StopFails;
        case StillRunning =>
      }
      if !GivesUp(words, now, budget) {
        return Draining;
      }
      child := None;
      words := RecordExit(words, false);
      return Gone(killed, true);
    }

    method Stop()
      modifies this
      ensures View() == StopOf(old(View()))
    {
      retryAt := None;
      child := None;
      words := RecordExit(words, false);
    }
  }

  function InitialSup(p: Policy): Sup {
    Sup(p, None, [], None, p.window, 0, Words(0, 0, 0, 0, NotRunning, 0, 0, 0))
  }
}
