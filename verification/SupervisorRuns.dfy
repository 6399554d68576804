// What the supervisor (crates/anchor/src/supervise.rs) keeps over whole runs, with
// the policy replaced at any point of them: the restart rate, the backoff between
// crash loops, when a new policy takes effect, and that a stop is final.

module SupervisorRuns {
  import opened Wire
  import opened Supervise

  /** One thing that happens to a supervisor, or that its daemon writes. */
  datatype Event =
    | StartAt(now: U64, spawn: Option<U64>)
    | StepAt(now: U64, poll: Poll, spawn: Option<U64>)
    | RequestStopAt(now: U64)
    | StopStepAt(now: U64, budget: U64, poll: Poll, killed: Option<int>)
    | StopNow(now: U64)
    | SetPolicyAt(now: U64, policy: Policy)
    | DaemonBeats(now: U64)
    | DaemonDeclares(now: U64, deadline: U64)

  function ApplyTo(s: Sup, e: Event): Sup {
    match e
    case StartAt(now, spawn) => StartOf(s, now, spawn).0
    case StepAt(now, poll, spawn) => StepOf(s, now, poll, spawn).0
    case RequestStopAt(now) => RequestStopOf(s, now)
    case StopStepAt(now, budget, poll, killed) => StopStepOf(s, now, budget, poll, killed).0
    case StopNow(_) => StopOf(s)
    case SetPolicyAt(_, policy) => SetPolicyOf(s, policy)
    case DaemonBeats(now) => s.(words := s.words.(heartbeat := now))
    case DaemonDeclares(_, deadline) => s.(words := s.words.(stopBy := Max(deadline, 1)))
  }

  /** The event is a step that finds the daemon has exited. */
  predicate FindsExit(s: Sup, e: Event) {
    e.StepAt? && s.retryAt.None? && s.child.Some? && e.poll.Exited?
  }

  /** The exit is answered with a restart at once. */
  predicate RestartsAtOnce(s: Sup, e: Event) {
    FindsExit(s, e) && StepOf(s, e.now, e.poll, e.spawn).1.Restarted?
  }

  predicate Loops(s: Sup, e: Event) {
    FindsExit(s, e) && StepOf(s, e.now, e.poll, e.spawn).1.CrashLoop?
  }

  /** The step that a backoff was waiting for. */
  predicate EndsBackoff(s: Sup, e: Event) {
    e.StepAt? && s.retryAt.Some? && e.now >= s.retryAt.value
  }

  /** The step that finds the daemon has outlived the window. */
  predicate Recovers(s: Sup, e: Event) {
    && e.StepAt? && s.retryAt.None? && s.child.Some? && e.poll.StillRunning?
    && SatSub(e.now, s.startedAt) > s.policy.window
  }

  /** The policy replaced while no backoff is under way. */
  predicate Resets(s: Sup, e: Event) { e.SetPolicyAt? && s.retryAt.None? }

  /**
   * A supervisor with the history of its run: every exit, the restarts made at once and which exit each
   * answered, the backed-off restarts, the window the backoff doubles from and the crash loops since it did.
   */
  datatype Trace = Trace(
    s: Sup, last: U64, exits: seq<U64>, directs: seq<U64>, answered: seq<nat>, backs: seq<U64>, base: U64, loops: nat)

  function Advance(t: Trace, e: Event): Trace {
    var exits := if FindsExit(t.s, e) then t.exits + [e.now] else t.exits;
    Trace(ApplyTo(t.s, e), e.now, exits,
          if RestartsAtOnce(t.s, e) then t.directs + [e.now] else t.directs,
          if RestartsAtOnce(t.s, e) then t.answered + [|t.exits|] else t.answered,
          if EndsBackoff(t.s, e) then t.backs + [e.now] else t.backs,
          if Recovers(t.s, e) then t.s.policy.window else if Resets(t.s, e) then e.policy.window else t.base,
          if Loops(t.s, e) then t.loops + 1 else if Recovers(t.s, e) || Resets(t.s, e) then 0 else t.loops)
  }

  function Play(t: Trace, es: seq<Event>): Trace {
    if es == [] then t else Advance(Play(t, es[..|es| - 1]), es[|es| - 1])
  }

  function Begin(p: Policy): Trace { Trace(InitialSup(p), 0, [], [], [], [], p.window, 0) }

  /** Times never go back. */
  predicate Ordered(es: seq<Event>) { forall i, j :: 0 <= i < j < |es| ==> es[i].now <= es[j].now }

  /** Times leave room for the longest backoff in 64 bits. */
  predicate Roomy(es: seq<Event>) { forall i :: 0 <= i < |es| ==> es[i].now + RETRY_CAP_NS <= U64_MAX }

  /** Every policy of the run keeps to a window no shorter and a bound no greater. */
  predicate Bounded(p: Policy, es: seq<Event>, window: nat, bound: nat) {
    && Tighter(p, window, bound)
    && forall i :: 0 <= i < |es| && es[i].SetPolicyAt? ==> Tighter(es[i].policy, window, bound)
  }

  predicate Tighter(p: Policy, window: nat, bound: nat) { window <= p.window && p.maxRestarts <= bound }

  /** Every policy of the run has a window no shorter, and none past the backoff's cap. */
  predicate Windowed(p: Policy, es: seq<Event>, window: nat) {
    && window <= p.window <= RETRY_CAP_NS
    && forall i :: 0 <= i < |es| && es[i].SetPolicyAt? ==> window <= es[i].policy.window <= RETRY_CAP_NS
  }

  /** The policy is not replaced. */
  predicate OnePolicy(es: seq<Event>) { forall i :: 0 <= i < |es| ==> !es[i].SetPolicyAt? }

  // --------------------------------------------------------------- the window

  lemma {:induction false} PrunedIsSuffix(times: seq<U64>, now: U64, window: U64)
    ensures |Pruned(times, now, window)| <= |times|
    ensures var k := |times| - |Pruned(times, now, window)|;
      && Pruned(times, now, window) == times[k..]
      && (forall m :: 0 <= m < k ==> SatSub(now, times[m]) > window)
      && (k < |times| ==> SatSub(now, times[k]) <= window)
  {
    if times != [] && SatSub(now, times[0]) > window {
      PrunedIsSuffix(times[1..], now, window);
    }
  }

  /** The exits remembered are the latest ones, and every one forgotten is out of the window. */
  ghost predicate WindowOk(t: Trace, window: nat) {
    && |t.s.restartsAt| <= |t.exits|
    && t.s.restartsAt == t.exits[|t.exits| - |t.s.restartsAt|..]
    && (forall m :: 0 <= m < |t.exits| - |t.s.restartsAt| ==> t.last - t.exits[m] > window)
    && (forall m :: 0 <= m < |t.exits| ==> t.exits[m] <= t.last)
  }

  /** Each immediate restart answers an exit of its own, in order. */
  ghost predicate AnswersOk(t: Trace) {
    && |t.answered| == |t.directs|
    && (forall d :: 0 <= d < |t.directs| ==> t.answered[d] < |t.exits| && t.exits[t.answered[d]] == t.directs[d])
    && (forall d, d' :: 0 <= d < d' < |t.directs| ==> t.answered[d] + (d' - d) <= t.answered[d'])
    && (forall d :: 0 <= d < |t.directs| ==> t.answered[d] + (|t.directs| - d) <= |t.exits|)
  }

  /** No window's span holds more than `bound` immediate restarts. */
  ghost predicate RateOk(t: Trace, window: nat, bound: nat) {
    forall i, j :: 0 <= i <= j < |t.directs| && t.directs[j] - t.directs[i] <= window ==> j - i + 1 <= bound
  }

  ghost predicate RateInv(t: Trace, window: nat, bound: nat) {
    WindowOk(t, window) && AnswersOk(t) && RateOk(t, window, bound) && Tighter(t.s.policy, window, bound)
  }

  lemma {:induction false} BeginRate(p: Policy, window: nat, bound: nat)
    requires Tighter(p, window, bound)
    ensures RateInv(Begin(p), window, bound)
  {
  }

  /** Only an exit changes the exits remembered. */
  lemma {:induction false} OtherEventsKeepWindow(s: Sup, e: Event)
    requires !FindsExit(s, e)
    ensures ApplyTo(s, e).restartsAt == s.restartsAt
  {
  }

  lemma {:induction false} PolicyOfEvent(s: Sup, e: Event)
    ensures ApplyTo(s, e).policy == if e.SetPolicyAt? then e.policy else s.policy
  {
    hide Pruned, GivesUp;
  }

  lemma {:induction false} ExitUpdatesWindow(s: Sup, e: Event)
    requires FindsExit(s, e)
    ensures ApplyTo(s, e).restartsAt == Pruned(s.restartsAt + [e.now], e.now, s.policy.window)
    ensures RestartsAtOnce(s, e) ==> Min(|ApplyTo(s, e).restartsAt|, U32_MAX) <= s.policy.maxRestarts
  {
    hide Pruned;
  }

  /** The exits remembered stay the latest ones, and those forgotten stay older than the window. */
  lemma {:induction false} WindowMoves(
    times: seq<U64>, exits: seq<U64>, last: U64, now: U64, pruned: U64, window: nat)
    requires |times| <= |exits| && times == exits[|exits| - |times|..] && last <= now && window <= pruned
    requires forall m :: 0 <= m < |exits| - |times| ==> last - exits[m] > window
    ensures var kept, all := Pruned(times + [now], now, pruned), exits + [now];
      && |kept| <= |all| && kept == all[|all| - |kept|..]
      && (forall m :: 0 <= m < |all| - |kept| ==> now - all[m] > window)
  {
    hide Pruned;
    var remembered, all := times + [now], exits + [now];
    PrunedIsSuffix(remembered, now, pruned);
    var k, base := |remembered| - |Pruned(remembered, now, pruned)|, |exits| - |times|;
    assert remembered == all[base..];
    assert remembered[k..] == all[base + k..];
    forall m | 0 <= m < base + k ensures now - all[m] > window {
      if m >= base {
        assert all[m] == remembered[m - base];
      }
    }
  }

  lemma {:induction false} AdvanceKeepsWindow(t: Trace, e: Event, window: nat)
    requires WindowOk(t, window) && t.last <= e.now && window <= t.s.policy.window
    ensures WindowOk(Advance(t, e), window)
  {
    hide ApplyTo, Pruned, RestartsAtOnce, Loops, EndsBackoff, Recovers, Resets;
    if FindsExit(t.s, e) {
      ExitUpdatesWindow(t.s, e);
      WindowMoves(t.s.restartsAt, t.exits, t.last, e.now, t.s.policy.window, window);
    } else {
      OtherEventsKeepWindow(t.s, e);
    }
  }

  lemma {:induction false} AdvanceKeepsAnswers(t: Trace, e: Event)
    requires AnswersOk(t)
    ensures AnswersOk(Advance(t, e))
  {
    hide ApplyTo, StepOf, Loops, EndsBackoff, Recovers, Resets;
  }

  /** A restart at once is one of the exits remembered, and so are all those a window back. */
  lemma {:induction false} AdvanceKeepsRate(t: Trace, e: Event, window: nat, bound: nat)
    requires RateInv(t, window, bound) && t.last <= e.now && bound < U32_MAX
    requires e.SetPolicyAt? ==> Tighter(e.policy, window, bound)
    ensures RateInv(Advance(t, e), window, bound)
  {
    hide ApplyTo, Loops, EndsBackoff, Recovers, Resets, WindowOk, AnswersOk, RestartsAtOnce;
    AdvanceKeepsWindow(t, e, window);
    AdvanceKeepsAnswers(t, e);
    PolicyOfEvent(t.s, e);
    var u := Advance(t, e);
    if RestartsAtOnce(t.s, e) {
      RestartIsExit(t.s, e);
      AnswersMatch(t);
      ExitUpdatesWindow(t.s, e);
      var j := |t.directs|;
      forall i | 0 <= i <= j && u.directs[j] - u.directs[i] <= window ensures j - i + 1 <= bound {
        CountRestarts(u, i, window);
      }
    }
  }

  lemma {:induction false} RestartIsExit(s: Sup, e: Event)
    requires RestartsAtOnce(s, e)
    ensures FindsExit(s, e)
  {
  }

  lemma {:induction false} AnswersMatch(t: Trace)
    requires AnswersOk(t)
    ensures |t.answered| == |t.directs|
  {
  }

  lemma {:induction false} CountRestarts(u: Trace, i: nat, window: nat)
    requires WindowOk(u, window) && AnswersOk(u) && i < |u.directs|
    requires u.directs[|u.directs| - 1] == u.last && u.answered[|u.directs| - 1] == |u.exits| - 1
    requires u.last - u.directs[i] <= window
    ensures |u.directs| - i <= |u.s.restartsAt|
  {
    var j := |u.directs| - 1;
    assert u.answered[i] + (j - i) <= u.answered[j] by {
      if i == j {
        assert u.answered[i] == u.answered[j];
      }
    }
    assert u.exits[u.answered[i]] == u.directs[i];
    assert u.answered[i] >= |u.exits| - |u.s.restartsAt|;
  }

  lemma {:induction false} PlayTimes(p: Policy, es: seq<Event>)
    ensures es != [] ==> Play(Begin(p), es).last == es[|es| - 1].now
    ensures es == [] ==> Play(Begin(p), es).last == 0
  {
    hide Advance;
    if es != [] {
      LastOfAdvance(Play(Begin(p), es[..|es| - 1]), es[|es| - 1]);
    }
  }

  lemma {:induction false} LastOfAdvance(t: Trace, e: Event)
    ensures Advance(t, e).last == e.now
  {
  }

  lemma {:induction false} PlayKeepsRate(p: Policy, es: seq<Event>, window: nat, bound: nat)
    requires Ordered(es) && Bounded(p, es, window, bound) && bound < U32_MAX
    ensures RateInv(Play(Begin(p), es), window, bound)
  {
    hide RateInv, Advance, Tighter;
    if es == [] {
      BeginRate(p, window, bound);
    } else {
      var front := es[..|es| - 1];
      PlayKeepsRate(p, front, window, bound);
      PlayTimes(p, front);
      AdvanceKeepsRate(Play(Begin(p), front), es[|es| - 1], window, bound);
    }
  }

  /**
   * Over every run, whatever policies it goes through, a span no longer than the shortest window holds no more
   * restarts made straight after an exit than the greatest bound.
   */
  lemma {:induction false} RestartRate(p: Policy, es: seq<Event>, window: nat, bound: nat, i: nat, j: nat)
    requires Ordered(es) && Bounded(p, es, window, bound) && bound < U32_MAX
    requires i <= j < |Play(Begin(p), es).directs|
    requires Play(Begin(p), es).directs[j] - Play(Begin(p), es).directs[i] <= window
    ensures j - i + 1 <= bound
  {
    hide Advance, Play, WindowOk, AnswersOk;
    PlayKeepsRate(p, es, window, bound);
  }

  /** A start, then `n` exits found at the same instant. */
  function Burst(n: nat): seq<Event> {
    if n == 0 then [StartAt(0, Some(1))] else Burst(n - 1) + [StepAt(0, Exited(None), Some(1))]
  }

  lemma {:induction false} BurstOrdered(n: nat)
    ensures Ordered(Burst(n))
    ensures forall i :: 0 <= i < |Burst(n)| ==> Burst(n)[i].now == 0
  {
    if n > 0 {
      BurstOrdered(n - 1);
    }
  }

  lemma {:induction false} BurstStep(t: Trace)
    requires t.s.policy.maxRestarts == U32_MAX && t.s.child.Some? && t.s.retryAt.None?
    ensures var u := Advance(t, StepAt(0, Exited(None), Some(1)));
      u.s.child.Some? && u.s.retryAt.None? && u.s.policy == t.s.policy && u.directs == t.directs + [0]
  {
    hide Pruned;
  }

  lemma {:induction false} BurstBegins(p: Policy)
    ensures var t := Play(Begin(p), Burst(0));
      t.s.child.Some? && t.s.retryAt.None? && t.s.policy == p && t.directs == []
  {
    var start := StartAt(0, Some(1));
    assert Burst(0) == [start] && [start][..0] == [];
    assert Play(Begin(p), [start]) == Advance(Play(Begin(p), []), start);
    assert Play(Begin(p), []) == Begin(p);
  }

  lemma {:induction false} BurstRestarts(p: Policy, n: nat)
    requires p.maxRestarts == U32_MAX
    ensures var t := Play(Begin(p), Burst(n));
      && t.s.child.Some? && t.s.retryAt.None? && t.s.policy == p
      && |t.directs| == n && forall i :: 0 <= i < n ==> t.directs[i] == 0
  {
    hide Advance;
    if n == 0 {
      BurstBegins(p);
    } else {
      BurstRestarts(p, n - 1);
      assert Burst(n)[..|Burst(n)| - 1] == Burst(n - 1);
      BurstStep(Play(Begin(p), Burst(n - 1)));
    }
  }

  /** At the largest 32-bit bound the count saturates there, no exit is a crash loop and the rate is unbounded. */
  lemma {:induction false} LargestBoundIsNone(p: Policy)
    requires p.maxRestarts == U32_MAX
    ensures var t := Play(Begin(p), Burst(U32_MAX + 1));
      && Ordered(Burst(U32_MAX + 1)) && |t.directs| > p.maxRestarts
      && t.directs[|t.directs| - 1] - t.directs[0] <= p.window
    ensures forall s: Sup, e :: s.policy == p ==> !Loops(s, e)
  {
    hide Play, Burst, Ordered;
    BurstOrdered(U32_MAX + 1);
    BurstRestarts(p, U32_MAX + 1);
  }

  /** How many of the exits are no older than the window. */
  function Recent(exits: seq<U64>, now: U64, window: U64): nat {
    if exits == [] then 0 else
    Recent(exits[..|exits| - 1], now, window) + if now - exits[|exits| - 1] <= window then 1 else 0
  }

  lemma {:induction false} RecentAreLatest(exits: seq<U64>, now: U64, window: U64, k: nat)
    requires k <= |exits|
    requires forall m :: 0 <= m < k ==> now - exits[m] > window
    requires forall m :: k <= m < |exits| ==> now - exits[m] <= window
    ensures Recent(exits, now, window) == |exits| - k
  {
    if exits != [] {
      RecentAreLatest(exits[..|exits| - 1], now, window, Min(k, |exits| - 1));
    }
  }

  lemma {:induction false} ExitsOrdered(p: Policy, es: seq<Event>)
    requires Ordered(es)
    ensures var t := Play(Begin(p), es);
      && (forall m, n :: 0 <= m < n < |t.exits| ==> t.exits[m] <= t.exits[n])
      && (forall m :: 0 <= m < |t.exits| ==> t.exits[m] <= t.last)
  {
    hide Advance;
    if es != [] {
      var front := es[..|es| - 1];
      ExitsOrdered(p, front);
      PlayTimes(p, front);
      ExitsMore(Play(Begin(p), front), es[|es| - 1]);
    }
  }

  lemma {:induction false} ExitsMore(t: Trace, e: Event)
    ensures Advance(t, e).exits == (if FindsExit(t.s, e) then t.exits + [e.now] else t.exits)
    ensures Advance(t, e).last == e.now
  {
    hide ApplyTo, RestartsAtOnce, Loops, EndsBackoff, Recovers, Resets, FindsExit;
  }

  /**
   * Under one policy an exit is a crash loop exactly when, with it, more exits than the bound are no older than the
   * window; otherwise the daemon is started again at once, and the restart reports how many they are.
   */
  lemma {:induction false} CrashLoopIff(p: Policy, es: seq<Event>, e: Event)
    requires Ordered(es + [e]) && OnePolicy(es) && p.maxRestarts < U32_MAX && FindsExit(Play(Begin(p), es).s, e)
    ensures var t := Play(Begin(p), es);
      var recent := Recent(t.exits + [e.now], e.now, p.window);
      && (Loops(t.s, e) <==> recent > p.maxRestarts)
      && (recent <= p.maxRestarts ==>
            StepOf(t.s, e.now, e.poll, e.spawn).1 ==
              if e.spawn.Some? then Restarted(e.poll.code, recent) else Failed)
  {
    hide Advance, Play, Pruned;
    assert forall i :: 0 <= i < |es| ==> es[i] == (es + [e])[i];
    assert (es + [e])[|es|] == e;
    PlayKeepsRate(p, es, p.window, p.maxRestarts);
    OnePolicyBase(p, es);
    PlayTimes(p, es);
    ExitsOrdered(p, es);
    RecentKept(Play(Begin(p), es), e);
  }

  lemma {:induction false} RecentKept(t: Trace, e: Event)
    requires WindowOk(t, t.s.policy.window) && t.last <= e.now
    requires forall m, n :: 0 <= m < n < |t.exits| ==> t.exits[m] <= t.exits[n]
    ensures |Pruned(t.s.restartsAt + [e.now], e.now, t.s.policy.window)| ==
      Recent(t.exits + [e.now], e.now, t.s.policy.window)
  {
    var window, all, exits := t.s.policy.window, t.s.restartsAt + [e.now], t.exits + [e.now];
    PrunedIsSuffix(all, e.now, window);
    var kept := Pruned(all, e.now, window);
    var k := |exits| - |kept|;
    assert all == exits[|t.exits| - |t.s.restartsAt|..];
    assert all[|all| - |kept|..] == exits[k..];
    forall m | 0 <= m < k ensures e.now - exits[m] > window {
      if m >= |t.exits| - |t.s.restartsAt| {
        assert exits[m] == all[m - (|t.exits| - |t.s.restartsAt|)];
      }
    }
    forall m | k <= m < |exits| ensures e.now - exits[m] <= window {
      assert exits[k] == all[|all| - |kept|];
      assert m < |t.exits| && k < m ==> t.exits[k] <= t.exits[m];
    }
    RecentAreLatest(exits, e.now, window, k);
  }

  // -------------------------------------------------------------------- words

  /** The event spawns a daemon: nothing was running, and the spawn succeeds. */
  predicate Spawns(s: Sup, e: Event) {
    || (e.StartAt? && s.child.None? && e.spawn.Some?)
    || (EndsBackoff(s, e) && s.child.None? && e.spawn.Some?)
    || (FindsExit(s, e) && !Loops(s, e) && e.spawn.Some?)
  }

  /**
   * The supervision words over one event. A spawn records the daemon, clears what the last one was asked and said,
   * counts one generation more, and one restart more unless it is the first; nothing else touches those but a stop
   * asked of a running daemon, what the daemon writes, and an exit, which leaves no pid.
   */
  lemma {:induction false} WordsOfEvent(s: Sup, e: Event)
    ensures var w, u := s.words, ApplyTo(s, e).words;
      && (Spawns(s, e) ==>
            && u.pid == e.spawn.value && u.started == e.now && u.state == Live && u.heartbeat == 0 && u.stop == 0
            && u.stopBy == 0 && u.generation == (w.generation + 1) % (U64_MAX + 1)
            && u.restarts == (if w.generation == 0 then w.restarts else (w.restarts + 1) % (U64_MAX + 1)))
      && (!Spawns(s, e) ==>
            && u.started == w.started && u.generation == w.generation && u.restarts == w.restarts
            && (u.stop == w.stop || (e.RequestStopAt? && s.child.Some? && u.stop == Max(e.now, 1)))
            && (u.stopBy == w.stopBy || (e.DaemonDeclares? && u.stopBy == Max(e.deadline, 1)))
            && (u.heartbeat == w.heartbeat || (e.DaemonBeats? && u.heartbeat == e.now)))
      && (e.RequestStopAt? && s.child.Some? ==> u.stop == Max(e.now, 1))
      && (e.DaemonDeclares? ==> u.stopBy == Max(e.deadline, 1)) && (e.DaemonBeats? ==> u.heartbeat == e.now)
  {
    hide ApplyTo, Spawns;
    if Spawns(s, e) {
      SpawnWords(s, e);
    } else {
      OtherWords(s, e);
    }
    SaidWords(s, e);
  }

  lemma {:induction false} SpawnWords(s: Sup, e: Event)
    requires Spawns(s, e)
    ensures var w, u := s.words, ApplyTo(s, e).words;
      && u.pid == e.spawn.value && u.started == e.now && u.state == Live && u.heartbeat == 0 && u.stop == 0
      && u.stopBy == 0 && u.generation == (w.generation + 1) % (U64_MAX + 1)
      && u.restarts == if w.generation == 0 then w.restarts else (w.restarts + 1) % (U64_MAX + 1)
  {
    hide Pruned, GivesUp;
  }

  lemma {:induction false} OtherWords(s: Sup, e: Event)
    requires !Spawns(s, e)
    ensures var w, u := s.words, ApplyTo(s, e).words;
      && u.started == w.started && u.generation == w.generation && u.restarts == w.restarts
      && (u.stop == w.stop || (e.RequestStopAt? && s.child.Some? && u.stop == Max(e.now, 1)))
      && (u.stopBy == w.stopBy || (e.DaemonDeclares? && u.stopBy == Max(e.deadline, 1)))
      && (u.heartbeat == w.heartbeat || (e.DaemonBeats? && u.heartbeat == e.now))
  {
    hide Pruned, GivesUp;
  }

  lemma {:induction false} SaidWords(s: Sup, e: Event)
    ensures var u := ApplyTo(s, e).words;
      && (e.RequestStopAt? && s.child.Some? ==> u.stop == Max(e.now, 1))
      && (e.DaemonDeclares? ==> u.stopBy == Max(e.deadline, 1)) && (e.DaemonBeats? ==> u.heartbeat == e.now)
  {
    hide Pruned, GivesUp;
  }

  /** What the words say of the daemon is so: live with its pid while there is one, no pid and not live without. */
  predicate WordsOk(s: Sup) {
    if s.child.Some? then s.words.state == Live && s.words.pid == s.child.value
    else s.words.state != Live && s.words.pid == 0
  }

  lemma {:induction false} EventKeepsWords(s: Sup, e: Event)
    requires WordsOk(s)
    ensures WordsOk(ApplyTo(s, e))
    ensures Loops(s, e) ==> ApplyTo(s, e).words.state == Looping
  {
    hide Pruned, GivesUp;
  }

  /** In every state of every run. */
  lemma {:induction false} RunKeepsWords(p: Policy, es: seq<Event>)
    ensures WordsOk(ApplyAll(InitialSup(p), es))
  {
    hide ApplyTo;
    if es != [] {
      RunKeepsWords(p, es[..|es| - 1]);
      EventKeepsWords(ApplyAll(InitialSup(p), es[..|es| - 1]), es[|es| - 1]);
    }
  }

  function SpawnCount(s: Sup, es: seq<Event>): nat {
    if es == [] then 0 else
    SpawnCount(s, es[..|es| - 1]) + if Spawns(ApplyAll(s, es[..|es| - 1]), es[|es| - 1]) then 1 else 0
  }

  /** The generation counts the daemons spawned, and the restarts those after the first, up to the words' wrap. */
  lemma {:induction false} GenerationCounts(p: Policy, es: seq<Event>)
    requires SpawnCount(InitialSup(p), es) <= U64_MAX
    ensures var w, n := ApplyAll(InitialSup(p), es).words, SpawnCount(InitialSup(p), es);
      w.generation == n && w.restarts == Max(n - 1, 0)
  {
    hide ApplyTo, Spawns;
    if es != [] {
      var front := es[..|es| - 1];
      GenerationCounts(p, front);
      WordsOfEvent(ApplyAll(InitialSup(p), front), es[|es| - 1]);
    }
  }

  /** `alive`: a live daemon that has beaten, no longer than the budget ago. */
  lemma {:induction false} AliveIff(w: Words, now: U64, budget: U64)
    ensures Alive(w, now, budget) <==> w.state == Live && w.heartbeat != 0 && now <= w.heartbeat + budget
  {
  }

  // ------------------------------------------------------------------ backoff

  /** The wait of the `k`th crash loop in a row. */
  function Wait(window: nat, k: nat): nat { Min(window * Pow2(k), RETRY_CAP_NS) }

  lemma {:induction false} WaitDoubles(window: nat, k: nat)
    ensures Wait(window, k + 1) == Min(Wait(window, k) * 2, RETRY_CAP_NS)
    ensures Wait(window, 0) == Min(window, RETRY_CAP_NS)
    ensures window <= RETRY_CAP_NS ==> window <= Wait(window, k)
  {
    assert window * Pow2(k + 1) == window * Pow2(k) * 2;
    MulLe(1, Pow2(k), window);
  }

  /** The next wait is the doubled one; a wait underway ends a window or more after the last one ended. */
  ghost predicate BackoffOk(t: Trace, window: nat) {
    && window <= t.base <= RETRY_CAP_NS && window <= t.s.policy.window <= RETRY_CAP_NS
    && t.s.backoff == Wait(t.base, t.loops)
    && (forall i :: 0 <= i < |t.backs| ==> t.backs[i] <= t.last)
    && (forall i, j :: 0 <= i < j < |t.backs| ==> t.backs[j] - t.backs[i] >= window)
    && (t.s.retryAt.Some? ==> forall i :: 0 <= i < |t.backs| ==> t.s.retryAt.value - t.backs[i] >= window)
  }

  /** What each event does to the backoff. */
  lemma {:induction false} BackoffOfEvent(s: Sup, e: Event)
    ensures ApplyTo(s, e).backoff ==
      if Loops(s, e) then Min(Min(s.backoff * 2, U64_MAX), RETRY_CAP_NS)
      else if Recovers(s, e) then s.policy.window
      else if Resets(s, e) then e.policy.window else s.backoff
    ensures Loops(s, e) ==> ApplyTo(s, e).retryAt == Some(SatAdd(e.now, s.backoff)) && !Recovers(s, e) && !Resets(s, e)
    ensures !Loops(s, e) && ApplyTo(s, e).retryAt.Some? ==> ApplyTo(s, e).retryAt == s.retryAt && !EndsBackoff(s, e)
    ensures Loops(s, e) ==> !EndsBackoff(s, e)
  {
    hide Pruned, GivesUp;
  }

  lemma {:induction false} AdvanceKeepsBackoff(t: Trace, e: Event, window: nat)
    requires BackoffOk(t, window) && t.last <= e.now && e.now + RETRY_CAP_NS <= U64_MAX
    requires e.SetPolicyAt? ==> window <= e.policy.window <= RETRY_CAP_NS
    ensures BackoffOk(Advance(t, e), window)
  {
    hide ApplyTo, Loops, Recovers, FindsExit, RestartsAtOnce, Wait;
    BackoffOfEvent(t.s, e);
    PolicyOfEvent(t.s, e);
    WaitDoubles(t.base, t.loops);
    WaitDoubles(t.s.policy.window, 0);
    if e.SetPolicyAt? {
      WaitDoubles(e.policy.window, 0);
    }
  }

  lemma {:induction false} BeginBackoff(p: Policy, window: nat)
    requires window <= p.window <= RETRY_CAP_NS
    ensures BackoffOk(Begin(p), window)
  {
    WaitDoubles(p.window, 0);
  }

  lemma {:induction false} PlayKeepsBackoff(p: Policy, es: seq<Event>, window: nat)
    requires Ordered(es) && Roomy(es) && Windowed(p, es, window)
    ensures BackoffOk(Play(Begin(p), es), window)
  {
    hide BackoffOk, Advance;
    if es == [] {
      BeginBackoff(p, window);
    } else {
      var front := es[..|es| - 1];
      PlayKeepsBackoff(p, front, window);
      PlayTimes(p, front);
      AdvanceKeepsBackoff(Play(Begin(p), front), es[|es| - 1], window);
    }
  }

  /** Any two backed-off restarts of a run are the shortest window or more apart. */
  lemma {:induction false} BackedOffRestartsApart(p: Policy, es: seq<Event>, window: nat, i: nat, j: nat)
    requires Ordered(es) && Roomy(es) && Windowed(p, es, window) && i < j < |Play(Begin(p), es).backs|
    ensures Play(Begin(p), es).backs[j] - Play(Begin(p), es).backs[i] >= window
  {
    hide Advance, Play;
    PlayKeepsBackoff(p, es, window);
  }

  /** The `k`th crash loop in a row waits `min(base · 2^k, cap)`, due that long after the exit. */
  lemma {:induction false} CrashLoopWaits(p: Policy, es: seq<Event>, e: Event)
    requires Ordered(es + [e]) && Roomy(es + [e]) && Windowed(p, es, 0) && Loops(Play(Begin(p), es).s, e)
    ensures var t := Play(Begin(p), es); var wait := Wait(t.base, t.loops);
      && StepOf(t.s, e.now, e.poll, e.spawn).1 == CrashLoop(e.poll.code, wait)
      && StepOf(t.s, e.now, e.poll, e.spawn).0.retryAt == Some(e.now + wait)
      && StepOf(t.s, e.now, e.poll, e.spawn).0.child == None
    ensures OnePolicy(es) ==> Play(Begin(p), es).base == p.window
  {
    hide Advance, Play, Pruned, Wait;
    assert Ordered(es) && Roomy(es) by {
      assert forall i :: 0 <= i < |es| ==> es[i] == (es + [e])[i];
    }
    assert (es + [e])[|es|] == e;
    PlayKeepsBackoff(p, es, 0);
    WaitFits(Play(Begin(p), es).base, Play(Begin(p), es).loops);
    if OnePolicy(es) {
      OnePolicyBase(p, es);
    }
  }

  lemma {:induction false} WaitFits(window: nat, k: nat)
    ensures Wait(window, k) <= RETRY_CAP_NS
  {
  }

  lemma {:induction false} OnePolicyBase(p: Policy, es: seq<Event>)
    requires OnePolicy(es)
    ensures Play(Begin(p), es).base == p.window && Play(Begin(p), es).s.policy == p
  {
    hide ApplyTo, Recovers;
    if es != [] {
      OnePolicyBase(p, es[..|es| - 1]);
      PolicyOfEvent(Play(Begin(p), es[..|es| - 1]).s, es[|es| - 1]);
    }
  }

  // ----------------------------------------------------------- policy changes

  /** Nothing in the run touches the backoff: no crash loop, no recovery, no policy that resets it. */
  ghost predicate BackoffLeft(t: Trace, es: seq<Event>) {
    forall i :: 0 <= i < |es| ==> LeavesBackoff(Play(t, es[..i]).s, es[i])
  }

  predicate LeavesBackoff(s: Sup, e: Event) { !Loops(s, e) && !Recovers(s, e) && !Resets(s, e) }

  lemma {:induction false} BackoffStays(t: Trace, es: seq<Event>)
    requires BackoffLeft(t, es)
    ensures Play(t, es).base == t.base && Play(t, es).loops == t.loops && Play(t, es).s.backoff == t.s.backoff
  {
    hide Advance, LeavesBackoff;
    if es != [] {
      var front, e := es[..|es| - 1], es[|es| - 1];
      forall i | 0 <= i < |front| ensures LeavesBackoff(Play(t, front[..i]).s, front[i]) {
        assert front[..i] == es[..i];
      }
      BackoffStays(t, front);
      LeftAlone(Play(t, front), e);
    }
  }

  lemma {:induction false} LeftAlone(t: Trace, e: Event)
    requires LeavesBackoff(t.s, e)
    ensures Advance(t, e).base == t.base && Advance(t, e).loops == t.loops && Advance(t, e).s.backoff == t.s.backoff
  {
    hide ApplyTo, Loops, Recovers, Resets;
    BackoffOfEvent(t.s, e);
  }

  /**
   * When a replaced policy takes effect: the next crash loop waits the new window exactly when no backoff was under
   * way at the change (or the wait due happens to be that long); otherwise it waits what it would have anyway.
   */
  lemma {:induction false} PolicyTakesEffect(p: Policy, es: seq<Event>, now: U64, q: Policy, fs: seq<Event>, e: Event)
    requires Ordered(es) && Roomy(es) && Windowed(p, es, 0) && q.window <= RETRY_CAP_NS
    requires BackoffLeft(Advance(Play(Begin(p), es), SetPolicyAt(now, q)), fs)
    requires Loops(Play(Advance(Play(Begin(p), es), SetPolicyAt(now, q)), fs).s, e)
    ensures var t := Play(Begin(p), es);
      var s := Play(Advance(t, SetPolicyAt(now, q)), fs).s;
      var wait := StepOf(s, e.now, e.poll, e.spawn).1.retryIn;
      && wait == (if t.s.retryAt.None? then q.window else Wait(t.base, t.loops))
      && (wait == q.window <==> t.s.retryAt.None? || Wait(t.base, t.loops) == q.window)
  {
    hide Play, Pruned, Wait, Recovers;
    var t := Play(Begin(p), es);
    PlayKeepsBackoff(p, es, 0);
    BackoffStays(Advance(t, SetPolicyAt(now, q)), fs);
  }

  /** So a policy replaced during a backoff does not set the next one's length: it waits 20 here, not 50. */
  lemma {:induction false} PolicyDuringBackoff()
    ensures var run := [StartAt(0, Some(1)), StepAt(1, Exited(None), Some(1)), SetPolicyAt(2, Policy(50, 0)),
                        StepAt(11, StillRunning, Some(2))];
      var s := ApplyAll(InitialSup(Policy(10, 0)), run);
      s.policy.window == 50 && StepOf(s, 12, Exited(None), Some(3)).1 == CrashLoop(None, 20)
  {
    var s0 := InitialSup(Policy(10, 0));
    var e0, e1, e2, e3 := StartAt(0, Some(1)), StepAt(1, Exited(None), Some(1)), SetPolicyAt(2, Policy(50, 0)),
      StepAt(11, StillRunning, Some(2));
    ApplyFour(s0, e0, e1, e2, e3);
    assert Pruned([1], 1, 10) == [1];
    assert Pruned([1, 12], 12, 50) == [1, 12];
  }

  lemma {:induction false} ApplyFour(s: Sup, e0: Event, e1: Event, e2: Event, e3: Event)
    ensures ApplyAll(s, [e0, e1, e2, e3]) == ApplyTo(ApplyTo(ApplyTo(ApplyTo(s, e0), e1), e2), e3)
  {
    hide ApplyTo;
    assert [e0, e1, e2, e3][..3] == [e0, e1, e2];
    assert [e0, e1, e2][..2] == [e0, e1];
    assert [e0, e1][..1] == [e0];
    assert [e0][..0] == [];
    assert ApplyAll(s, [e0]) == ApplyTo(ApplyAll(s, []), e0);
    assert ApplyAll(s, [e0, e1]) == ApplyTo(ApplyAll(s, [e0]), e1);
    assert ApplyAll(s, [e0, e1, e2]) == ApplyTo(ApplyAll(s, [e0, e1]), e2);
  }

  // ------------------------------------------------------------- due and stop

  function ApplyAll(s: Sup, es: seq<Event>): Sup {
    if es == [] then s else ApplyTo(ApplyAll(s, es[..|es| - 1]), es[|es| - 1])
  }

  /** The event neither starts nor stops, and is no step at or past the due time. */
  predicate Waits(e: Event, due: U64) {
    !e.StartAt? && !e.StopNow? && !e.StopStepAt? && (e.StepAt? ==> e.now < due)
  }

  lemma {:induction false} WaitingOn(s: Sup, early: seq<Event>)
    requires s.retryAt.Some? && s.child.None? && forall i :: 0 <= i < |early| ==> Waits(early[i], s.retryAt.value)
    ensures ApplyAll(s, early).retryAt == s.retryAt && ApplyAll(s, early).child.None?
    ensures ApplyAll(s, early).restartsAt == s.restartsAt && ApplyAll(s, early).words.generation == s.words.generation
  {
    if early != [] {
      WaitingOn(s, early[..|early| - 1]);
    }
  }

  /**
   * A backoff under way keeps its due time whatever happens but a start or a stop, a new policy included: every
   * step before it waits and changes nothing, and the first step at or after it restarts.
   */
  lemma {:induction false} DueStepRestarts(s: Sup, early: seq<Event>, now: U64, poll: Poll, pid: U64)
    requires s.retryAt.Some? && s.child.None? && s.retryAt.value <= now
    requires forall i :: 0 <= i < |early| ==> Waits(early[i], s.retryAt.value)
    ensures forall i :: 0 <= i < |early| && early[i].StepAt? ==>
      StepOf(ApplyAll(s, early[..i]), early[i].now, early[i].poll, early[i].spawn) ==
        (ApplyAll(s, early[..i]), BackingOff(s.retryAt.value))
    ensures var next := StepOf(ApplyAll(s, early), now, poll, Some(pid));
      && next.1 == Restarted(None, Min(|s.restartsAt|, U32_MAX))
      && next.0.child == Some(pid) && next.0.retryAt == None && next.0.startedAt == now
  {
    hide ApplyAll;
    forall i | 0 <= i <= |early|
      ensures ApplyAll(s, early[..i]).retryAt == s.retryAt && ApplyAll(s, early[..i]).child.None?
    {
      WaitingOn(s, early[..i]);
    }
    assert early[..|early|] == early;
    WaitingOn(s, early);
  }

  predicate Settled(s: Sup) { s.child.None? && s.retryAt.None? }

  /** With nothing to supervise and nothing due, no event but a start spawns, and every step says so. */
  lemma {:induction false} SettledStays(s: Sup, es: seq<Event>)
    requires Settled(s) && forall i :: 0 <= i < |es| ==> !es[i].StartAt?
    ensures Settled(ApplyAll(s, es))
    ensures ApplyAll(s, es).words.generation == s.words.generation
    ensures forall now, poll, spawn :: StepOf(ApplyAll(s, es), now, poll, spawn) == (ApplyAll(s, es), Stopped)
  {
    if es != [] {
      SettledStays(s, es[..|es| - 1]);
    }
  }

  /** A stop is final: after `stop`, or a `stop_step` that reports the exit, only a start spawns. */
  lemma {:induction false} StopIsFinal(s: Sup, e: Event, es: seq<Event>)
    requires e.StopNow? || (e.StopStepAt? && StopStepOf(s, e.now, e.budget, e.poll, e.killed).1.Gone?)
    requires forall i :: 0 <= i < |es| ==> !es[i].StartAt?
    ensures Settled(ApplyAll(ApplyTo(s, e), es))
    ensures ApplyAll(ApplyTo(s, e), es).words.generation == s.words.generation
  {
    hide ApplyAll, GivesUp;
    SettledStays(ApplyTo(s, e), es);
  }

  /**
   * A restart whose spawn is refused also ends supervision: after it nothing runs and nothing is due, so no later
   * step retries. A restart leaves something to supervise exactly when its spawn succeeds.
   */
  lemma {:induction false} RefusedSpawnEndsSupervision(s: Sup, e: Event, es: seq<Event>)
    requires s.child.Some? ==> s.retryAt.None?
    requires EndsBackoff(s, e) || (FindsExit(s, e) && !Loops(s, e))
    requires forall i :: 0 <= i < |es| ==> !es[i].StartAt?
    ensures Settled(ApplyTo(s, e)) <==> e.spawn.None?
    ensures e.spawn.None? ==> Settled(ApplyAll(ApplyTo(s, e), es))
  {
    hide ApplyAll, Pruned;
    if e.spawn.None? {
      SettledStays(ApplyTo(s, e), es);
    }
  }

  /** A graceful stop is bounded: past its deadline and the budget, a step of it ends with the daemon gone. */
  lemma {:induction false} StopIsBounded(s: Sup, now: U64, budget: U64, poll: Poll, killed: Option<int>)
    requires s.words.stop != 0 && poll != PollFails
    requires now > SatAdd(if s.words.stopBy == 0 then s.words.stop else s.words.stopBy, budget)
    ensures StopStepOf(s, now, budget, poll, killed).1.Gone?
  {
  }

  /** Before it acknowledges, a daemon that beats is left the whole budget from the request. */
  lemma {:induction false} StopWaitsForAcknowledgement(s: Sup, now: U64, budget: U64, killed: Option<int>)
    requires s.child.Some? && Alive(s.words, now, budget) && s.words.stopBy == 0
    requires s.words.stop == 0 || now <= s.words.stop + budget
    ensures StopStepOf(s, now, budget, StillRunning, killed) == (s.(retryAt := None), Draining)
  {
  }

  /** A daemon found gone is reported with its own exit code and not as killed; without one there is none to report. */
  lemma {:induction false} StopReportsTheExit(s: Sup, now: U64, budget: U64, code: Option<int>, killed: Option<int>)
    ensures StopStepOf(s, now, budget, Exited(code), killed).1 == Gone(if s.child.Some? then code else None, false)
    ensures StopStepOf(s, now, budget, Exited(code), killed).0.words.state == NotRunning
  {
  }

  /** A daemon that has stopped beating is killed at the next step, whatever it said. */
  lemma {:induction false} StopKillsTheWedged(s: Sup, now: U64, budget: U64, killed: Option<int>)
    requires s.child.Some? && !Alive(s.words, now, budget)
    ensures StopStepOf(s, now, budget, StillRunning, killed).1 == Gone(killed, true)
  {
  }

  /** It is patient too: a daemon that acknowledged, beats and is within its deadline is never killed. */
  lemma {:induction false} StopIsPatient(s: Sup, now: U64, budget: U64, killed: Option<int>)
    requires s.child.Some? && Alive(s.words, now, budget)
    requires s.words.stopBy != 0 && now <= SatAdd(s.words.stopBy, budget)
    ensures StopStepOf(s, now, budget, StillRunning, killed) == (s.(retryAt := None), Draining)
  {
  }
}
