// The hold protocol over whole runs (crates/anchor/src/supervise_windows.rs,
// crates/anchor/src/held_windows.rs, crates/anchor/src/handles.rs): spawns, sends,
// drains and daemon deaths in any order, with a fresh channel for each daemon.

module HoldRuns {
  import opened Wire
  import opened HoldMessages
  import opened Handoff
  import opened HeldHandles
  import opened HoldChannel

  /** Something the daemon wrote, numbered among what it has sent; none is bytes that are not a message. */
  datatype Frame = Frame(n: nat, body: Option<Message>)

  /** An answer on its way, with the number of the frame it answers. */
  datatype Answer = Answer(n: nat, message: Message)

  /** A message the anchor has applied: whose, which of its frames, and how it was answered. */
  datatype Done = Done(generation: nat, n: nat, request: Message, answer: Message)

  /** The anchor, the channel of the current daemon, what that daemon has sent, and all the anchor has applied. */
  datatype System = System(
    h: Holdings, pending: Option<Answer>, generation: nat, alive: bool,
    toAnchor: seq<Frame>, toDaemon: seq<Answer>, sent: seq<Option<Message>>, log: seq<Done>)

  datatype Label =
    | DaemonSends(body: Option<Message>)
    | DaemonReads(a: Answer)
    | DaemonDies
    | AnchorReceives(dup: Duplicate)
    | AnchorReplies(w: WriteOutcome)
    | AnchorSpawns(ok: bool)

  ghost predicate Initial(s: System) {
    && s.h.entries == map[] && s.pending == None && s.generation == 0 && !s.alive
    && s.toAnchor == [] && s.toDaemon == [] && s.sent == [] && s.log == []
  }

  /** Reading a frame: bytes that are not a message are dropped; a message is applied and its answer is pending. */
  function Received(s: System, dup: Duplicate): System
    requires s.toAnchor != []
  {
    var f, rest := s.toAnchor[0], s.toAnchor[1..];
    if f.body.None? then s.(toAnchor := rest) else
    var (h, answer) := Applied(s.h, dup, f.body.value);
    s.(h := h, pending := Some(Answer(f.n, answer)), toAnchor := rest,
       log := s.log + [Done(s.generation, f.n, f.body.value, answer)])
  }

  ghost predicate Step(s: System, l: Label, t: System) {
    match l
    case DaemonSends(body) =>
      s.alive && t == s.(toAnchor := s.toAnchor + [Frame(|s.sent|, body)], sent := s.sent + [body])
    case DaemonReads(a) =>
      s.alive && s.toDaemon != [] && a == s.toDaemon[0] && t == s.(toDaemon := s.toDaemon[1..])
    case DaemonDies => t == s.(alive := false)
    case AnchorReceives(dup) =>
      && s.pending == None && s.toAnchor != []
      && (s.alive || forall k, v :: dup(k, v) == None)
      && t == Received(s, dup)
    case AnchorReplies(w) =>
      && s.pending.Some?
      && t == match w {
        case Sent => s.(pending := None, toDaemon := s.toDaemon + [s.pending.value])
        case QuotaFull => s
        case WriteFails => s.(pending := None)
      }
    case AnchorSpawns(ok) =>
      && !s.alive
      && t == s.(generation := s.generation + 1, alive := ok, pending := None, toAnchor := [], toDaemon := [],
                 sent := [])
  }

  // ---------------------------------------------------------------- invariant

  /** Whether the log leaves the id held: its last hold accepted since its last release. */
  ghost predicate HeldByLog(log: seq<Done>, id: U64) {
    if log == [] then false else
    var last := log[|log| - 1];
    if last.answer == Held(id) then true
    else if last.request == Release(id) then false
    else HeldByLog(log[..|log| - 1], id)
  }

  /** The answer is the one the log records for a frame the current daemon sent. */
  ghost predicate AnswerOk(s: System, a: Answer) {
    exists k :: 0 <= k < |s.log| && Records(s, s.log[k], a)
  }

  ghost predicate Records(s: System, d: Done, a: Answer) {
    d.generation == s.generation && d.n == a.n && d.answer == a.message
  }

  /** A log entry answers its request, and one of this generation is a frame this daemon sent. */
  ghost predicate DoneOk(s: System, d: Done) {
    && d.generation <= s.generation
    && d.answer.id == d.request.id
    && (d.answer.Held? ==> d.request.Hold?)
    && (d.generation == s.generation ==> d.n < |s.sent| && s.sent[d.n] == Some(d.request))
  }

  /** The frames not yet answered to the daemon, oldest first: answers on their way, the one pending, frames unread. */
  function Numbers(s: System): seq<nat> {
    NumbersOf(s.toDaemon, AnswerNumber) + (if s.pending.Some? then [s.pending.value.n] else []) +
    NumbersOf(s.toAnchor, FrameNumber)
  }

  function NumbersOf<T>(xs: seq<T>, number: T -> nat): (ns: seq<nat>)
    ensures |ns| == |xs| && forall i :: 0 <= i < |ns| ==> ns[i] == number(xs[i])
  {
    if xs == [] then [] else [number(xs[0])] + NumbersOf(xs[1..], number)
  }

  function AnswerNumber(a: Answer): nat { a.n }

  function FrameNumber(f: Frame): nat { f.n }

  ghost predicate Rising(ns: seq<nat>) { forall i, j :: 0 <= i < j < |ns| ==> ns[i] < ns[j] }

  ghost predicate AllLater(ns: seq<nat>, n: nat) { forall i :: 0 <= i < |ns| ==> n < ns[i] }

  ghost predicate ChannelOk(s: System) {
    && (forall i :: 0 <= i < |s.toAnchor| ==>
          s.toAnchor[i].n < |s.sent| && s.sent[s.toAnchor[i].n] == s.toAnchor[i].body)
    && (s.pending.Some? ==> AnswerOk(s, s.pending.value))
    && (forall i :: 0 <= i < |s.toDaemon| ==> AnswerOk(s, s.toDaemon[i]))
  }

  ghost predicate LogOk(s: System) {
    && (forall k :: 0 <= k < |s.log| ==> DoneOk(s, s.log[k]))
    && (forall j, k :: 0 <= j < k < |s.log| ==> s.log[j].generation <= s.log[k].generation)
    && (forall id :: id in s.h.entries <==> HeldByLog(s.log, id))
  }

  ghost predicate OrderOk(s: System) {
    Rising(Numbers(s)) && forall i :: 0 <= i < |Numbers(s)| ==> Numbers(s)[i] < |s.sent|
  }

  /** Of one daemon's frames, those applied were applied in the order sent, and before any still unread. */
  ghost predicate AppliedInOrder(s: System) {
    && (forall j, k :: 0 <= j < k < |s.log| && s.log[j].generation == s.log[k].generation ==> s.log[j].n < s.log[k].n)
    && (forall k, i :: 0 <= k < |s.log| && s.log[k].generation == s.generation && 0 <= i < |s.toAnchor| ==>
          s.log[k].n < s.toAnchor[i].n)
  }

  ghost predicate Inv(s: System) { HoldingsOk(s.h) && ChannelOk(s) && LogOk(s) && OrderOk(s) && AppliedInOrder(s) }

  lemma {:induction false} InitialInv(s: System)
    requires Initial(s)
    ensures Inv(s)
  {
  }

  lemma {:induction false} AnswerKept(s: System, t: System, a: Answer)
    requires AnswerOk(s, a) && s.log <= t.log && t.generation == s.generation
    ensures AnswerOk(t, a)
  {
    var k :| 0 <= k < |s.log| && Records(s, s.log[k], a);
    assert Records(t, t.log[k], a);
  }

  lemma {:induction false} DoneKept(s: System, t: System, d: Done)
    requires DoneOk(s, d) && t.generation == s.generation && s.sent <= t.sent
    ensures DoneOk(t, d)
  {
  }

  lemma {:induction false} LogKept(s: System, t: System)
    requires LogOk(s) && t.log == s.log && t.h.entries == s.h.entries
    requires t.generation == s.generation && s.sent <= t.sent
    ensures LogOk(t)
  {
    hide DoneOk, HeldByLog;
    forall k | 0 <= k < |t.log| ensures DoneOk(t, t.log[k]) {
      DoneKept(s, t, s.log[k]);
    }
  }

  /** Steps that move frames and answers about, apply nothing and keep the generation. */
  lemma {:induction false} MovesKeepChannel(s: System, l: Label, t: System)
    requires Inv(s) && Step(s, l, t) && !l.AnchorReceives? && !l.AnchorSpawns?
    ensures HoldingsOk(t.h) && ChannelOk(t) && LogOk(t)
  {
    hide AnswerOk, LogOk, HoldingsOk, OrderOk;
    LogKept(s, t);
    forall a | AnswerOk(s, a) ensures AnswerOk(t, a) {
      AnswerKept(s, t, a);
    }
  }

  lemma {:induction false} SpawnKeeps(s: System, ok: bool, t: System)
    requires Inv(s) && Step(s, AnchorSpawns(ok), t)
    ensures Inv(t)
  {
    hide HeldByLog, HoldingsOk, ChannelOk, OrderOk;
    forall k | 0 <= k < |t.log| ensures DoneOk(t, t.log[k]) && t.log[k].generation < t.generation {
      assert DoneOk(s, s.log[k]);
    }
    assert ChannelOk(t) && OrderOk(t) by { EmptyChannel(t); }
  }

  lemma {:induction false} EmptyChannel(t: System)
    requires t.toAnchor == [] && t.toDaemon == [] && t.pending == None
    ensures ChannelOk(t) && OrderOk(t)
  {
  }

  lemma {:induction false} RisingRest(ns: seq<nat>)
    requires Rising(ns) && ns != []
    ensures Rising(ns[1..]) && AllLater(ns[1..], ns[0])
  {
  }

  lemma {:induction false} RisingDrop(a: seq<nat>, n: nat, b: seq<nat>)
    requires Rising(a + [n] + b)
    ensures Rising(a + b)
  {
    var all, less := a + [n] + b, a + b;
    forall i, j | 0 <= i < j < |less| ensures less[i] < less[j] {
      var i', j' := if i < |a| then i else i + 1, if j < |a| then j else j + 1;
      assert less[i] == all[i'] && less[j] == all[j'];
    }
  }

  lemma {:induction false} NumbersSnoc<T>(xs: seq<T>, x: T, number: T -> nat)
    ensures NumbersOf(xs + [x], number) == NumbersOf(xs, number) + [number(x)]
  {
    assert forall i :: 0 <= i < |xs| ==> (xs + [x])[i] == xs[i];
  }

  lemma {:induction false} NumbersHead<T>(xs: seq<T>, number: T -> nat)
    requires xs != []
    ensures NumbersOf(xs, number) == [number(xs[0])] + NumbersOf(xs[1..], number)
  {
  }

  lemma {:induction false} OrderMore(s: System, t: System)
    requires OrderOk(s) && Numbers(t) == Numbers(s) + [|s.sent|] && |t.sent| == |s.sent| + 1
    ensures OrderOk(t)
  {
    hide Numbers;
  }

  lemma {:induction false} OrderLess(s: System, t: System, a: seq<nat>, n: nat, b: seq<nat>)
    requires OrderOk(s) && Numbers(s) == a + [n] + b && Numbers(t) == a + b && |t.sent| == |s.sent|
    ensures OrderOk(t)
  {
    hide Numbers;
    RisingDrop(a, n, b);
    forall i | 0 <= i < |Numbers(t)| ensures Numbers(t)[i] < |t.sent| {
      assert Numbers(t)[i] == Numbers(s)[if i < |a| then i else i + 1];
    }
  }

  lemma {:induction false} SendKeepsOrder(s: System, body: Option<Message>, t: System)
    requires OrderOk(s) && Step(s, DaemonSends(body), t)
    ensures OrderOk(t)
  {
    hide OrderOk, NumbersOf;
    NumbersSnoc(s.toAnchor, Frame(|s.sent|, body), FrameNumber);
    assert Numbers(t) == Numbers(s) + [|s.sent|];
    OrderMore(s, t);
  }

  /** Answers come in the order of their requests: whatever is still due is later than the one read. */
  lemma {:induction false} ReadKeepsOrder(s: System, a: Answer, t: System)
    requires OrderOk(s) && Step(s, DaemonReads(a), t)
    ensures OrderOk(t) && Numbers(s) == [a.n] + Numbers(t)
    ensures AllLater(Numbers(t), a.n)
  {
    hide Numbers, Rising;
    DropFirstNumber(s, t);
    assert Numbers(s) == [] + [a.n] + Numbers(t) && Numbers(t) == [] + Numbers(t);
    OrderLess(s, t, [], a.n, Numbers(t));
    assert Numbers(s)[1..] == Numbers(t);
    RisingRest(Numbers(s));
  }

  lemma {:induction false} DropFirstNumber(s: System, t: System)
    requires s.toDaemon != [] && t == s.(toDaemon := s.toDaemon[1..])
    ensures Numbers(s) == [s.toDaemon[0].n] + Numbers(t)
  {
    hide NumbersOf;
    NumbersHead(s.toDaemon, AnswerNumber);
  }

  lemma {:induction false} ReceiveKeepsOrder(s: System, dup: Duplicate, t: System)
    requires OrderOk(s) && Step(s, AnchorReceives(dup), t)
    ensures OrderOk(t)
  {
    hide OrderOk, Applied, NumbersOf;
    NumbersHead(s.toAnchor, FrameNumber);
    var answers, f, rest := NumbersOf(s.toDaemon, AnswerNumber), s.toAnchor[0], NumbersOf(s.toAnchor[1..], FrameNumber);
    assert Numbers(s) == answers + [f.n] + rest;
    if f.body.None? {
      assert Numbers(t) == answers + rest;
      OrderLess(s, t, answers, f.n, rest);
    } else {
      assert Numbers(t) == answers + [f.n] + rest;
      OrderSame(s, t);
    }
  }

  lemma {:induction false} OrderSame(s: System, t: System)
    requires OrderOk(s) && Numbers(t) == Numbers(s) && |t.sent| == |s.sent|
    ensures OrderOk(t)
  {
    hide Numbers;
  }

  lemma {:induction false} ReplyKeepsOrder(s: System, w: WriteOutcome, t: System)
    requires OrderOk(s) && Step(s, AnchorReplies(w), t)
    ensures OrderOk(t)
  {
    hide OrderOk, NumbersOf;
    var answers, frames := NumbersOf(s.toDaemon, AnswerNumber), NumbersOf(s.toAnchor, FrameNumber);
    var n := s.pending.value.n;
    assert Numbers(s) == answers + [n] + frames;
    match w {
      case Sent =>
        NumbersSnoc(s.toDaemon, s.pending.value, AnswerNumber);
        assert Numbers(t) == answers + [n] + frames;
        OrderSame(s, t);
      case QuotaFull =>
      case WriteFails =>
        assert Numbers(t) == answers + frames;
        OrderLess(s, t, answers, n, frames);
    }
  }

  /** The unread frames rise, as part of what is not yet answered. */
  lemma {:induction false} FramesRise(s: System, i: nat)
    requires OrderOk(s) && 0 < i < |s.toAnchor|
    ensures s.toAnchor[0].n < s.toAnchor[i].n
  {
    hide NumbersOf;
    var before := NumbersOf(s.toDaemon, AnswerNumber) + (if s.pending.Some? then [s.pending.value.n] else []);
    assert Numbers(s) == before + NumbersOf(s.toAnchor, FrameNumber);
    assert Numbers(s)[|before|] == s.toAnchor[0].n && Numbers(s)[|before| + i] == s.toAnchor[i].n;
  }

  lemma {:induction false} SendKeepsApplied(s: System, body: Option<Message>, t: System)
    requires Inv(s) && Step(s, DaemonSends(body), t)
    ensures AppliedInOrder(t)
  {
    hide OrderOk, ChannelOk, HoldingsOk, HeldByLog;
    forall k | 0 <= k < |s.log| && s.log[k].generation == s.generation ensures s.log[k].n < |s.sent| {
      assert DoneOk(s, s.log[k]);
    }
  }

  lemma {:induction false} ReceiveKeepsApplied(s: System, dup: Duplicate, t: System)
    requires Inv(s) && Step(s, AnchorReceives(dup), t)
    ensures AppliedInOrder(t)
  {
    hide OrderOk, ChannelOk, HoldingsOk, LogOk, Applied;
    forall i | 0 <= i < |t.toAnchor| ensures s.toAnchor[0].n < t.toAnchor[i].n {
      FramesRise(s, i + 1);
    }
  }

  // ---------------------------------------------------------------- receiving

  lemma {:induction false} HeldByLogSnoc(log: seq<Done>, d: Done, id: U64)
    ensures HeldByLog(log + [d], id) ==
      if d.answer == Held(id) then true else if d.request == Release(id) then false else HeldByLog(log, id)
  {
    assert (log + [d])[..|log|] == log;
  }

  /** Applying a message keeps the log telling which ids are held. */
  lemma {:induction false} ReceiveKeepsLog(s: System, dup: Duplicate, t: System)
    requires Inv(s) && Step(s, AnchorReceives(dup), t)
    ensures LogOk(t) && HoldingsOk(t.h)
  {
    hide HeldByLog, Applied, HoldingsOk, OrderOk, AnswerOk, DoneOk;
    var f := s.toAnchor[0];
    if f.body.None? {
      LogKept(s, t);
    } else {
      var m := f.body.value;
      AppliedKeepsBound(s.h, dup, m);
      var d := Done(s.generation, f.n, m, Applied(s.h, dup, m).1);
      forall k | 0 <= k < |t.log| ensures DoneOk(t, t.log[k]) {
        if k < |s.log| {
          DoneKept(s, t, s.log[k]);
        } else {
          AppliedDone(s, dup, t, d);
        }
      }
      forall j, k | 0 <= j < k < |t.log| ensures t.log[j].generation <= t.log[k].generation {
        GenerationOf(s, j);
      }
      forall id ensures id in t.h.entries <==> HeldByLog(t.log, id) {
        HeldByLogSnoc(s.log, d, id);
        AppliedChangesOne(s.h, dup, m, id);
      }
    }
  }

  lemma {:induction false} GenerationOf(s: System, j: nat)
    requires LogOk(s)
    ensures j < |s.log| ==> s.log[j].generation <= s.generation
  {
    if j < |s.log| {
      assert DoneOk(s, s.log[j]);
    }
  }

  lemma {:induction false} AppliedDone(s: System, dup: Duplicate, t: System, d: Done)
    requires s.toAnchor != [] && s.toAnchor[0].body == Some(d.request) && d.n == s.toAnchor[0].n < |s.sent|
    requires s.sent[d.n] == Some(d.request) && d.generation == s.generation == t.generation && t.sent == s.sent
    requires d.answer == Applied(s.h, dup, d.request).1
    ensures DoneOk(t, d)
  {
    AppliedChangesOne(s.h, dup, d.request, d.answer.id);
  }

  lemma {:induction false} ReceiveKeepsChannel(s: System, dup: Duplicate, t: System)
    requires Inv(s) && Step(s, AnchorReceives(dup), t)
    ensures ChannelOk(t)
  {
    hide Applied, LogOk, HoldingsOk, OrderOk, AnswerOk;
    assert s.log <= t.log;
    forall i | 0 <= i < |t.toDaemon| ensures AnswerOk(t, t.toDaemon[i]) {
      AnswerKept(s, t, s.toDaemon[i]);
    }
    if t.pending.Some? {
      assert Records(t, t.log[|t.log| - 1], t.pending.value);
      LastRecords(t, t.pending.value);
    }
  }

  lemma {:induction false} LastRecords(t: System, a: Answer)
    requires t.log != [] && Records(t, t.log[|t.log| - 1], a)
    ensures AnswerOk(t, a)
  {
  }

  /** Every step keeps the invariant. */
  lemma {:induction false} StepKeepsInv(s: System, l: Label, t: System)
    requires Inv(s) && Step(s, l, t)
    ensures Inv(t)
  {
    hide ChannelOk, LogOk, HoldingsOk, OrderOk, Applied;
    match l {
      case AnchorSpawns(ok) => SpawnKeeps(s, ok, t);
      case AnchorReceives(dup) =>
        ReceiveKeepsLog(s, dup, t);
        ReceiveKeepsChannel(s, dup, t);
        ReceiveKeepsOrder(s, dup, t);
        ReceiveKeepsApplied(s, dup, t);
      case DaemonSends(body) =>
        MovesKeepChannel(s, l, t);
        SendKeepsOrder(s, body, t);
        SendKeepsApplied(s, body, t);
      case DaemonReads(a) =>
        MovesKeepChannel(s, l, t);
        ReadKeepsOrder(s, a, t);
      case DaemonDies =>
        MovesKeepChannel(s, l, t);
        OrderSame(s, t);
      case AnchorReplies(w) =>
        MovesKeepChannel(s, l, t);
        ReplyKeepsOrder(s, w, t);
    }
  }

  // --------------------------------------------------------------------- runs

  ghost predicate Run(states: seq<System>, labels: seq<Label>) {
    && |states| == |labels| + 1 && Initial(states[0])
    && forall i :: 0 <= i < |labels| ==> Step(states[i], labels[i], states[i + 1])
  }

  lemma {:induction false} RunKeepsInv(states: seq<System>, labels: seq<Label>, i: nat)
    requires Run(states, labels) && i < |states|
    ensures Inv(states[i])
    decreases i
  {
    hide Step, Inv, Initial;
    if i == 0 {
      InitialInv(states[0]);
    } else {
      RunKeepsInv(states, labels, i - 1);
      StepKeepsInv(states[i - 1], labels[i - 1], states[i]);
    }
  }

  /**
   * In every run, an answer a daemon reads is to a message it sent itself: a `Held` to its own hold of that id, which
   * the anchor accepted. Later answers are to later messages.
   */
  lemma {:induction false} AnswersOwnRequest(states: seq<System>, labels: seq<Label>, i: nat)
    requires Run(states, labels) && i < |labels| && labels[i].DaemonReads?
    ensures var s, a := states[i], labels[i].a;
      && a.n < |s.sent| && s.sent[a.n].Some? && s.sent[a.n].value.id == a.message.id
      && (a.message.Held? ==> s.sent[a.n].value.Hold?)
      && (exists k :: 0 <= k < |s.log| && s.log[k] == Done(s.generation, a.n, s.sent[a.n].value, a.message))
    ensures AllLater(Numbers(states[i + 1]), labels[i].a.n)
  {
    hide LogOk, OrderOk, HoldingsOk, Numbers;
    RunKeepsInv(states, labels, i);
    assert Step(states[i], labels[i], states[i + 1]);
    ReadKeepsOrder(states[i], labels[i].a, states[i + 1]);
    ReadIsLogged(states[i], labels[i].a);
  }

  lemma {:induction false} ReadIsLogged(s: System, a: Answer)
    requires Inv(s) && AnswerOk(s, a)
    ensures a.n < |s.sent| && s.sent[a.n].Some? && s.sent[a.n].value.id == a.message.id
    ensures a.message.Held? ==> s.sent[a.n].value.Hold?
    ensures exists k :: 0 <= k < |s.log| && s.log[k] == Done(s.generation, a.n, s.sent[a.n].value, a.message)
  {
    hide OrderOk, HoldingsOk, HeldByLog;
    var k :| 0 <= k < |s.log| && Records(s, s.log[k], a);
    assert DoneOk(s, s.log[k]);
    assert s.log[k] == Done(s.generation, a.n, s.sent[a.n].value, a.message);
  }

  lemma {:induction false} HeldUnlessReleased(log: seq<Done>, k: nat, id: U64)
    requires k < |log| && log[k].answer == Held(id)
    requires forall j :: k < j < |log| ==> log[j].request != Release(id)
    ensures HeldByLog(log, id)
  {
    if k < |log| - 1 {
      HeldUnlessReleased(log[..|log| - 1], k, id);
    }
  }

  /** When a daemon that has asked for no release since its hold reads that an id is held, the anchor holds it. */
  lemma {:induction false} HeldIsHeld(states: seq<System>, labels: seq<Label>, i: nat, id: U64)
    requires Run(states, labels) && i < |labels|
    requires labels[i].DaemonReads? && labels[i].a.message == Held(id)
    requires forall k :: labels[i].a.n < k < |states[i].sent| ==> states[i].sent[k] != Some(Release(id))
    ensures id in states[i].h.entries
  {
    hide OrderOk, HoldingsOk, HeldByLog, Numbers, DoneOk, ChannelOk;
    var s := states[i];
    RunKeepsInv(states, labels, i);
    AnswersOwnRequest(states, labels, i);
    var a := labels[i].a;
    var k :| 0 <= k < |s.log| && s.log[k] == Done(s.generation, a.n, s.sent[a.n].value, a.message);
    forall j | k < j < |s.log| ensures s.log[j].request != Release(id) {
      LaterIsOwn(s, k, j);
    }
    HeldUnlessReleased(s.log, k, id);
  }

  lemma {:induction false} LaterIsOwn(s: System, k: nat, j: nat)
    requires LogOk(s) && AppliedInOrder(s) && k < j < |s.log| && s.log[k].generation == s.generation
    ensures s.log[k].n < s.log[j].n < |s.sent| && s.sent[s.log[j].n] == Some(s.log[j].request)
  {
    hide HeldByLog;
    assert DoneOk(s, s.log[j]);
  }

  /** The step applies a release of the id. */
  ghost predicate Releases(s: System, l: Label, id: U64) {
    l.AnchorReceives? && s.toAnchor != [] && s.toAnchor[0].body == Some(Release(id))
  }

  lemma {:induction false} StepKeepsEntry(s: System, l: Label, t: System, id: U64)
    requires Step(s, l, t) && id in s.h.entries && !Releases(s, l, id)
    ensures id in t.h.entries && t.h.entries[id] == s.h.entries[id]
  {
    if l.AnchorReceives? && s.toAnchor[0].body.Some? {
      AppliedChangesOne(s.h, l.dup, s.toAnchor[0].body.value, id);
    }
  }

  /** Across deaths and spawns alike, an entry is kept as it is until a release of it is applied. */
  lemma {:induction false} KeptUntilReleased(states: seq<System>, labels: seq<Label>, i: nat, j: nat, id: U64)
    requires Run(states, labels) && i <= j < |states| && id in states[i].h.entries
    requires forall k :: i <= k < j ==> !Releases(states[k], labels[k], id)
    ensures id in states[j].h.entries && states[j].h.entries[id] == states[i].h.entries[id]
    decreases j
  {
    hide Step, Initial, Releases;
    if i < j {
      KeptUntilReleased(states, labels, i, j - 1, id);
      StepKeepsEntry(states[j - 1], labels[j - 1], states[j], id);
    }
  }

  /** The step takes the hold an entry is kept for. */
  ghost predicate Takes(s: System, l: Label, id: U64, e: HeldEntry) {
    && l.AnchorReceives? && s.alive && s.toAnchor != [] && s.toAnchor[0].body.Some?
    && s.toAnchor[0].body.value.Hold? && s.toAnchor[0].body.value.id == id
    && e.what == s.toAnchor[0].body.value.what && e.record == s.toAnchor[0].body.value.record
    && TakenFrom(l.dup, s.toAnchor[0].body.value.values, e.handles)
  }

  /** That step is answered `Held`, to the frame that asked. */
  ghost predicate Answers(s: System, t: System, id: U64) {
    s.toAnchor != [] && t.pending == Some(Answer(s.toAnchor[0].n, Held(id)))
  }

  lemma {:induction false} GainedIsTaken(s: System, l: Label, t: System, id: U64)
    requires Step(s, l, t) && id !in s.h.entries && id in t.h.entries
    ensures Takes(s, l, id, t.h.entries[id]) && Answers(s, t, id)
  {
    hide Applied, TakenFrom;
    GainedFromTheLiving(s, l, t, id);
    HoldKeepsWhatItSays(s.h, l.dup, s.toAnchor[0].body.value);
  }

  /**
   * In every run, whatever is held was asked for: some daemon's hold of that id was taken and answered, with this what
   * and record and these duplicates of its handles, and no release of it has been applied since.
   */
  lemma {:induction false} HeldWasAskedFor(states: seq<System>, labels: seq<Label>, i: nat, id: U64) returns (j: nat)
    requires Run(states, labels) && i < |states| && id in states[i].h.entries
    ensures j < i && Takes(states[j], labels[j], id, states[i].h.entries[id]) && Answers(states[j], states[j + 1], id)
    ensures forall k :: j < k < i ==> !Releases(states[k], labels[k], id)
    decreases i
  {
    hide Step, Takes, Answers, Releases;
    NothingHeldAtFirst(states[0]);
    var s, l := states[i - 1], labels[i - 1];
    if id in s.h.entries {
      j := HeldWasAskedFor(states, labels, i - 1, id);
      KeptIsNotReleased(s, l, states[i], id);
      StepKeepsEntry(s, l, states[i], id);
    } else {
      j := i - 1;
      GainedIsTaken(s, l, states[i], id);
    }
  }

  lemma {:induction false} NothingHeldAtFirst(s: System)
    ensures Initial(s) ==> s.h.entries == map[]
  {
  }

  lemma {:induction false} KeptIsNotReleased(s: System, l: Label, t: System, id: U64)
    requires Step(s, l, t) && id in s.h.entries && id in t.h.entries
    ensures !Releases(s, l, id)
  {
    if Releases(s, l, id) {
      AppliedChangesOne(s.h, l.dup, Release(id), id);
    }
  }

  /** A handed value is a duplicate of what the anchor took for the daemon's own handle. */
  ghost predicate Passed(give: Give, dup: Duplicate, k: nat, asked: U64, handed: U64) {
    exists kept: U64 :: dup(k, asked) == Some(kept) && IsDuplicate(give, kept, handed)
  }

  /**
   * What a successor is handed for an id is what its predecessor was answered for: the same what and record, and for
   * each handle of that hold, in order, a duplicate of the anchor's duplicate of it.
   */
  lemma {:induction false} SuccessorGetsTheHold(
    states: seq<System>, labels: seq<Label>, i: nat, give: Give, es: seq<HandedEntry>, x: nat) returns (j: nat)
    requires Run(states, labels) && i < |states| && x < |es|
    requires NamesAllBut(states[i].h.entries, {}, es) && NamesDuplicates(give, states[i].h.entries, es)
    ensures j < i && labels[j].AnchorReceives? && states[j].toAnchor != []
    ensures Answers(states[j], states[j + 1], es[x].id)
    ensures var m := states[j].toAnchor[0].body;
      && m.Some? && m.value.Hold? && m.value.id == es[x].id
      && es[x].what == m.value.what && es[x].record == m.value.record && |es[x].values| == |m.value.values|
      && forall k :: 0 <= k < |es[x].values| ==> Passed(give, labels[j].dup, k, m.value.values[k], es[x].values[k])
    ensures forall k :: j < k < i ==> !Releases(states[k], labels[k], es[x].id)
  {
    hide Step, Initial, Answers, Releases, NamesAllBut, IsDuplicate;
    var e, kept := es[x], states[i].h.entries;
    assert NamesOne(kept, e) && DuplicatesOf(give, kept[e.id].handles, e.values);
    j := HeldWasAskedFor(states, labels, i, e.id);
    var m := states[j].toAnchor[0].body.value;
    forall k | 0 <= k < |e.values| ensures Passed(give, labels[j].dup, k, m.values[k], e.values[k]) {
      assert labels[j].dup(k, m.values[k]) == Some(kept[e.id].handles[k]);
      assert IsDuplicate(give, kept[e.id].handles[k], e.values[k]);
    }
  }

  /** And nothing held is left out: an id taken and not released since is handed over, once. */
  lemma {:induction false} HoldReachesTheSuccessor(
    states: seq<System>, labels: seq<Label>, j: nat, i: nat, id: U64, es: seq<HandedEntry>)
    requires Run(states, labels) && j < i < |states| && Answers(states[j], states[j + 1], id)
    requires labels[j].AnchorReceives? && forall k :: j < k < i ==> !Releases(states[k], labels[k], id)
    requires NamesAllBut(states[i].h.entries, {}, es)
    ensures exists x :: OnlyAt(es, id, x)
  {
    hide Releases, NamesAllBut, Initial;
    assert Step(states[j], labels[j], states[j + 1]);
    HeldIsKept(states[j], labels[j].dup, states[j + 1], id);
    KeptUntilReleased(states, labels, j + 1, i, id);
    NamedOnce(states[i].h.entries, es, id);
  }

  lemma {:induction false} HeldIsKept(s: System, dup: Duplicate, t: System, id: U64)
    requires Step(s, AnchorReceives(dup), t) && Answers(s, t, id)
    ensures id in t.h.entries
  {
    hide Applied;
    if s.toAnchor[0].body.Some? {
      AppliedChangesOne(s.h, dup, s.toAnchor[0].body.value, id);
    }
  }

  lemma {:induction false} NamedOnce(entries: map<U64, HeldEntry>, es: seq<HandedEntry>, id: U64)
    requires NamesAllBut(entries, {}, es) && id in entries
    ensures exists x :: OnlyAt(es, id, x)
  {
    hide NamesOne;
    assert HasId(es, id);
    var x :| 0 <= x < |es| && es[x].id == id;
    assert OnlyAt(es, id, x);
  }

  ghost predicate OnlyAt(es: seq<HandedEntry>, id: U64, x: int) {
    0 <= x < |es| && es[x].id == id && forall y :: 0 <= y < |es| && y != x ==> es[y].id != id
  }

  /** The bound holds in every state of every run. */
  lemma {:induction false} EntriesWithinBound(states: seq<System>, labels: seq<Label>, i: nat)
    requires Run(states, labels) && i < |states|
    ensures |states[i].h.entries| <= states[i].h.bound && states[i].h.bound == states[0].h.bound
  {
    hide ChannelOk, LogOk, OrderOk, Step, Initial;
    RunKeepsInv(states, labels, i);
    BoundFixed(states, labels, i);
  }

  lemma {:induction false} BoundFixed(states: seq<System>, labels: seq<Label>, i: nat)
    requires Run(states, labels) && i < |states|
    ensures states[i].h.bound == states[0].h.bound
    decreases i
  {
    hide Step, Initial;
    if i > 0 {
      BoundFixed(states, labels, i - 1);
      StepKeepsBound(states[i - 1], labels[i - 1], states[i]);
    }
  }

  lemma {:induction false} StepKeepsBound(s: System, l: Label, t: System)
    requires Step(s, l, t)
    ensures t.h.bound == s.h.bound
  {
  }

  /** Nothing is gained from a dead daemon: an entry appears only while the daemon that asked for it lives. */
  lemma {:induction false} GainedFromTheLiving(s: System, l: Label, t: System, id: U64)
    requires Step(s, l, t) && id !in s.h.entries && id in t.h.entries
    ensures s.alive && l.AnchorReceives? && s.toAnchor[0].body.Some?
    ensures s.toAnchor[0].body.value.Hold? && s.toAnchor[0].body.value.id == id
  {
    var m := s.toAnchor[0].body.value;
    AppliedChangesOne(s.h, l.dup, m, id);
    if !s.alive {
      FirstRefuses(l.dup, m.values);
    }
  }

  lemma {:induction false} FirstRefuses(dup: Duplicate, values: seq<U64>)
    requires forall k, v :: dup(k, v) == None
    ensures values != [] ==> Duplicated(dup, values) == None
  {
  }

  // --------------------------------------------------- the operations as steps

  function Bodies(fs: seq<Frame>): (ps: seq<Piece>)
    ensures |ps| == |fs| && forall i :: 0 <= i < |fs| ==> ps[i] == fs[i].body
  {
    if fs == [] then [] else Bodies(fs[..|fs| - 1]) + [fs[|fs| - 1].body]
  }

  function Texts(xs: seq<Answer>): (ms: seq<Message>)
    ensures |ms| == |xs| && forall i :: 0 <= i < |xs| ==> ms[i] == xs[i].message
  {
    if xs == [] then [] else Texts(xs[..|xs| - 1]) + [xs[|xs| - 1].message]
  }

  /** The anchor of the protocol, looked at, is this. */
  ghost predicate Shows(x: System, m: Moment) {
    && x.h == m.h && Bodies(x.toAnchor) == m.toAnchor && Texts(x.toDaemon) == m.toDaemon
    && m.pending == if x.pending.Some? then Some(x.pending.value.message) else None
  }

  /** The daemon's handles can be duplicated only while it lives. */
  ghost predicate Possible(x: System, dups: nat -> Duplicate) { x.alive || forall n, k, v :: dups(n)(k, v) == None }

  lemma {:induction false} RunMore(states: seq<System>, labels: seq<Label>, l: Label, t: System)
    requires Run(states, labels) && Step(states[|labels|], l, t)
    ensures Run(states + [t], labels + [l])
  {
    hide Step, Initial;
    var ss, ls := states + [t], labels + [l];
    forall i | 0 <= i < |ls| ensures Step(ss[i], ls[i], ss[i + 1]) {
      if i < |labels| {
        assert ss[i] == states[i] && ss[i + 1] == states[i + 1] && ls[i] == labels[i];
      }
    }
  }

  /** A write of the pending answer. */
  lemma {:induction false} ReplyIsStep(x: System, m: Moment, w: WriteOutcome) returns (y: System)
    requires Shows(x, m) && x.pending.Some?
    ensures Step(x, AnchorReplies(w), y) && y.alive == x.alive
    ensures Shows(y, m.(toDaemon := m.toDaemon + Delivered(FinishedBy(m.pending, w)),
                        pending := if w == QuotaFull then m.pending else None))
  {
    hide Delivered;
    y := match w {
      case Sent => x.(pending := None, toDaemon := x.toDaemon + [x.pending.value])
      case QuotaFull => x
      case WriteFails => x.(pending := None)
    };
    OneFinished(m.pending.value, w == Sent);
    NothingDelivered();
  }

  lemma {:induction false} NothingDelivered()
    ensures Delivered([]) == []
  {
  }

  /** A read of the oldest piece, with no answer left pending. */
  lemma {:induction false} ReceiveIsStep(x: System, m: Moment, dup: Duplicate) returns (y: System)
    requires Shows(x, m) && x.pending == None && m.toAnchor != [] && (x.alive || forall k, v :: dup(k, v) == None)
    ensures Step(x, AnchorReceives(dup), y) && y.alive == x.alive
    ensures m.toAnchor[0].None? ==> Shows(y, m.(toAnchor := m.toAnchor[1..]))
    ensures m.toAnchor[0].Some? ==>
      var (h, answer) := Applied(m.h, dup, m.toAnchor[0].value);
      Shows(y, m.(h := h, toAnchor := m.toAnchor[1..], pending := Some(answer)))
  {
    hide Applied;
    y := Received(x, dup);
    assert Bodies(x.toAnchor[1..]) == m.toAnchor[1..];
  }

  /** What a turn's write leaves, before its read. */
  function AfterReply(s: Moment, w: WriteOutcome): Moment {
    s.(toDaemon := s.toDaemon + Delivered(FinishedBy(s.pending, w)),
       pending := if w == QuotaFull then s.pending else None)
  }

  /** A turn is a write, then a read or nothing. */
  lemma {:induction false} TurnParts(
    s: Moment, t: Moment, w: WriteOutcome, r: ReadOutcome, dup: Duplicate, took: Option<Piece>, done: seq<Finished>)
    requires Turned(s, t, w, r, dup, took, done)
    ensures var u := AfterReply(s, w);
      && (took.None? ==> t == u.(refusals := t.refusals))
      && (took.Some? ==> u.pending == None && u.toAnchor != [] && took.value == u.toAnchor[0])
      && (took.Some? ==> t.toAnchor == u.toAnchor[1..] && t.toDaemon == u.toDaemon)
      && (took == Some(None) ==> t.h == u.h && t.pending == None)
      && (took.Some? && took.value.Some? ==>
            (t.h, t.pending) == (Applied(u.h, dup, took.value.value).0, Some(Applied(u.h, dup, took.value.value).1)))
  {
    hide Applied, Delivered, Lost, SatAdd, Counted;
    if s.pending.Some? {
      OneFinished(s.pending.value, w == Sent);
    }
    assert HoldChannel.Answers([]) == [];
    if took.None? {
      assert [] + t.toAnchor == t.toAnchor;
      assert |HoldChannel.Answers(done)| + |Waiting(t.pending)| == |Waiting(s.pending)|;
      assert HoldChannel.Answers(done) == [] ==> Waiting(t.pending) == Waiting(s.pending);
      assert t.pending == AfterReply(s, w).pending;
    }
  }

  /** One turn is at most two steps of the protocol. */
  lemma {:induction false} TurnIsSteps(
    states: seq<System>, labels: seq<Label>, s: Moment, t: Moment, dups: nat -> Duplicate)
    returns (states': seq<System>, labels': seq<Label>)
    requires Run(states, labels) && Shows(states[|labels|], s) && Possible(states[|labels|], dups) && ByTurn(s, t, dups)
    ensures Run(states', labels') && states <= states' && labels <= labels' && |labels'| <= |labels| + 2
    ensures Shows(states'[|labels'|], t) && Possible(states'[|labels'|], dups)
  {
    hide Run, Step, Applied, Turned, AfterReply, Shows;
    RunLength(states, labels);
    var w, r, n, took, done :| Turned(s, t, w, r, dups(n), took, done);
    TurnParts(s, t, w, r, dups(n), took, done);
    var u := AfterReply(s, w);
    states', labels' := ReplySteps(states, labels, s, w);
    RunLength(states', labels');
    var x := states'[|labels'|];
    if took.Some? {
      NonePending(x, u);
      var y := ReceiveIsStep(x, u, dups(n));
      RunMore(states', labels', AnchorReceives(dups(n)), y);
      states', labels' := states' + [y], labels' + [AnchorReceives(dups(n))];
      ShowsSame(y, if took.value.None? then u.(toAnchor := t.toAnchor)
                   else u.(h := t.h, toAnchor := t.toAnchor, pending := t.pending), t);
    } else {
      ShowsSame(x, u, t);
    }
  }

  lemma {:induction false} NonePending(x: System, m: Moment)
    requires Shows(x, m) && m.pending == None
    ensures x.pending == None
  {
  }

  /** The refusals counted are not part of what is shown. */
  lemma {:induction false} ShowsSame(x: System, m: Moment, t: Moment)
    requires Shows(x, m) && t == m.(refusals := t.refusals)
    ensures Shows(x, t)
  {
  }

  /** A turn's write is a step, or with nothing pending none. */
  lemma {:induction false} ReplySteps(states: seq<System>, labels: seq<Label>, s: Moment, w: WriteOutcome)
    returns (states': seq<System>, labels': seq<Label>)
    requires Run(states, labels) && Shows(states[|labels|], s)
    ensures Run(states', labels') && states <= states' && labels <= labels' && |labels'| <= |labels| + 1
    ensures Shows(states'[|labels'|], AfterReply(s, w)) && states'[|labels'|].alive == states[|labels|].alive
  {
    hide Run, Step, Delivered;
    RunLength(states, labels);
    if s.pending.Some? {
      var y := ReplyIsStep(states[|labels|], s, w);
      RunMore(states, labels, AnchorReplies(w), y);
      states', labels' := states + [y], labels + [AnchorReplies(w)];
    } else {
      NothingDelivered();
      assert AfterReply(s, w) == s;
      states', labels' := states, labels;
    }
  }

  lemma {:induction false} RunLength(states: seq<System>, labels: seq<Label>)
    requires Run(states, labels)
    ensures |states| == |labels| + 1
  {
  }

  /** A drain of the anchor is a run of the protocol's steps, so what holds of every run holds of it. */
  lemma {:induction false} DrainIsSteps(
    states: seq<System>, labels: seq<Label>, looks: seq<Moment>, dups: nat -> Duplicate)
    returns (states': seq<System>, labels': seq<Label>)
    requires Run(states, labels) && looks != [] && Shows(states[|labels|], looks[0]) && Turns(looks, dups)
    requires Possible(states[|labels|], dups)
    ensures Run(states', labels') && states <= states' && labels <= labels'
    ensures Shows(states'[|labels'|], looks[|looks| - 1]) && Possible(states'[|labels'|], dups)
    decreases |looks|
  {
    hide Run, Shows, ByTurn, Possible;
    RunLength(states, labels);
    if |looks| == 1 {
      states', labels' := states, labels;
    } else {
      var front := looks[..|looks| - 1];
      forall i | 0 < i < |front| ensures ByTurn(front[i - 1], front[i], dups) {
        assert ByTurn(looks[i - 1], looks[i], dups);
      }
      states', labels' := DrainIsSteps(states, labels, front, dups);
      RunLength(states', labels');
      states', labels' := TurnIsSteps(states', labels', front[|front| - 1], looks[|looks| - 1], dups);
    }
  }

  /** Handing over is the spawn of the protocol: the holdings stay, and nothing of the last daemon's channel does. */
  lemma {:induction false} HandOverIsSpawn(states: seq<System>, labels: seq<Label>, m: Moment, ok: bool)
    returns (y: System)
    requires Run(states, labels) && Shows(states[|labels|], m) && !states[|labels|].alive
    ensures Run(states + [y], labels + [AnchorSpawns(ok)])
    ensures Shows(y, Moment(m.h, None, [], [], m.refusals))
  {
    var x := states[|labels|];
    y := x.(generation := x.generation + 1, alive := ok, pending := None, toAnchor := [], toDaemon := [], sent := []);
    RunMore(states, labels, AnchorSpawns(ok), y);
  }
}
