// The anchor's end of the hold channel (crates/anchor/src/supervise_windows.rs,
// `Hold`): draining requests with at most one answer pending, and a fresh channel
// for each daemon. The channel is its two queues; whether a read or a write of the
// pipe goes through at a turn is a parameter.

module HoldChannel {
  import opened Wire
  import opened HoldMessages
  import opened Handoff
  import opened HandoffProofs
  import opened HeldHandles

  const MESSAGES_PER_ENTRY := 2

  /** What the daemon wrote in one piece; none is bytes that are not a message. */
  type Piece = Option<Message>

  datatype ReadOutcome = Ready | NotYet | ReadFails

  datatype WriteOutcome = Sent | QuotaFull | WriteFails

  /** An answer done with: delivered to the daemon, or lost to a failed write. */
  datatype Finished = Finished(answer: Message, delivered: bool)

  /** The messages among the pieces. */
  function Messages(ps: seq<Piece>): seq<Message> {
    if ps == [] then [] else
    var before, last := Messages(ps[..|ps| - 1]), ps[|ps| - 1];
    if last.Some? then before + [last.value] else before
  }

  /** The holdings after `ms`, and the answer to each. */
  function AppliedAll(h: Holdings, dups: nat -> Duplicate, ms: seq<Message>): (Holdings, seq<Message>) {
    if ms == [] then (h, []) else
    var before := AppliedAll(h, dups, ms[..|ms| - 1]);
    var (after, answer) := Applied(before.0, dups(|ms| - 1), ms[|ms| - 1]);
    (after, before.1 + [answer])
  }

  function Waiting(pending: Option<Message>): seq<Message> { if pending.Some? then [pending.value] else [] }

  function Answers(fs: seq<Finished>): seq<Message> {
    if fs == [] then [] else Answers(fs[..|fs| - 1]) + [fs[|fs| - 1].answer]
  }

  function Delivered(fs: seq<Finished>): seq<Message> {
    if fs == [] then [] else
    Delivered(fs[..|fs| - 1]) + if fs[|fs| - 1].delivered then [fs[|fs| - 1].answer] else []
  }

  function Lost(fs: seq<Finished>): nat {
    if fs == [] then 0 else Lost(fs[..|fs| - 1]) + if fs[|fs| - 1].delivered then 0 else 1
  }

  /** What a write of the pending answer does with it. */
  function FinishedBy(pending: Option<Message>, w: WriteOutcome): seq<Finished> {
    if pending.None? || w == QuotaFull then [] else [Finished(pending.value, w == Sent)]
  }

  /** A pair of pipe ends: what has been written to each and not read. */
  class Channel {
    var toAnchor: seq<Piece>
    var toDaemon: seq<Message>
    const daemonEnd: U64

    constructor (end: U64)
      ensures toAnchor == [] && toDaemon == [] && daemonEnd == end
    {
      toAnchor, toDaemon, daemonEnd := [], [], end;
    }
  }

  class AnchorEnd {
    const held: HeldSet
    var channel: Channel
    var pending: Option<Message>
    var channelRefusals: U64

    constructor (b: nat, end: U64)
      ensures fresh(held) && held.View() == Holdings(map[], b, 0) && pending == None && channelRefusals == 0
      ensures fresh(channel) && channel.toAnchor == [] && channel.toDaemon == []
    {
      held := new HeldSet(b);
      channel := new Channel(end);
      pending, channelRefusals := None, 0;
    }

    /** `reply`: sends the pending answer, if any; false while the peer's quota is full, with it still pending. */
    method Reply(w: WriteOutcome) returns (go: bool, ghost finished: seq<Finished>)
      modifies `pending, `channelRefusals, channel`toDaemon
      ensures go ==> pending == None
      ensures !go <==> old(pending).Some? && w == QuotaFull
      ensures finished == FinishedBy(old(pending), w)
      ensures Answers(finished) + Waiting(pending) == Waiting(old(pending))
      ensures channel.toDaemon == old(channel.toDaemon) + Delivered(finished)
      ensures channelRefusals == SatAdd(old(channelRefusals), Lost(finished))
    {
      finished := [];
      if pending.None? {
        return true, [];
      }
      match w {
        case Sent =>
          OneFinished(pending.value, true);
          finished := [Finished(pending.value, true)];
          channel.toDaemon := channel.toDaemon + [pending.value];
          pending := None;
          return true, finished;
        case QuotaFull => return false, [];
        case WriteFails =>
          OneFinished(pending.value, false);
          finished := [Finished(pending.value, false)];
          pending := None;
          channelRefusals := SatAdd(channelRefusals, 1);
          return true, finished;
      }
    }

    /** Everything a drain may change. */
    ghost function Look(): Moment
      reads this, held, channel
    {
      Moment(held.View(), pending, channel.toAnchor, channel.toDaemon, channelRefusals)
    }

    /**
     * One turn of the drain: the pending answer first; only with none left is a piece read. One that is a message is
     * applied and its answer pending, any other counted.
     */
    method Turn(w: WriteOutcome, r: ReadOutcome, dup: Duplicate)
      returns (took: Option<Piece>, ghost finished: seq<Finished>)
      modifies `pending, `channelRefusals, channel, held
      ensures Turned(old(Look()), Look(), w, r, dup, took, finished)
    {
      hide Turned, Applied, Answers, Delivered, Lost, FinishedBy, Waiting;
      ghost var s := Look();
      var go;
      go, finished := Reply(w);
      if !go {
        TurnStops(s, Look(), w, r, dup, finished);
        return None, finished;
      }
      match r {
        case NotYet =>
          TurnStops(s, Look(), w, r, dup, finished);
          return None, finished;
        case ReadFails =>
          channelRefusals := SatAdd(channelRefusals, 1);
          TurnStops(s, Look(), w, r, dup, finished);
          return None, finished;
        case Ready =>
      }
      if channel.toAnchor == [] {
        TurnStops(s, Look(), w, r, dup, finished);
        return None, finished;
      }
      NothingWaits(finished);
      took := Some(channel.toAnchor[0]);
      channel.toAnchor := channel.toAnchor[1..];
      if took.value.None? {
        channelRefusals := SatAdd(channelRefusals, 1);
        TurnDrops(s, Look(), w, dup, finished);
        return took, finished;
      }
      var answer := held.Apply(dup, took.value.value);
      pending := Some(answer);
      TurnApplies(s, Look(), w, dup, took.value.value, finished);
      return took, finished;
    }

    /**
     * `drain`. One drain takes at most a hold and a release a slot, and fewer than there are only when a read or a
     * write does not go through; what it does with them is `Drained`.
     */
    method Drain(input: nat -> ReadOutcome, output: nat -> WriteOutcome, dups: nat -> Duplicate)
      returns (applied: nat, ghost taken: nat, ghost finished: seq<Finished>, ghost failed: nat,
               ghost looks: seq<Moment>)
      modifies `pending, `channelRefusals, channel, held
      ensures Turns(looks, dups) && Spans(looks, old(Look()), Look())
      ensures Drained(old(Look()), Look(), dups, taken, applied, finished, failed)
      ensures taken <= Min(Max(held.bound + held.bound, 1), |old(channel.toAnchor)|)
      ensures taken < Min(Max(held.bound + held.bound, 1), |old(channel.toAnchor)|) ==>
        input(taken) != Ready || output(taken) == QuotaFull
      ensures pending.Some? ==> output(Max(held.bound + held.bound, 1)) == QuotaFull
      ensures failed <= 1 && (failed == 1 ==> input(taken) == ReadFails)
    {
      hide Drained, Turned, Turns, Spans, Applied, Answers, Delivered, Lost, SatAdd, Waiting;
      applied, taken, finished, failed := 0, 0, [], 0;
      var limit := Max(held.bound * MESSAGES_PER_ENTRY, 1);
      ghost var start := Look();
      NothingDrained(start, dups);
      looks := [start];
      NoTurns(start, dups);
      var more, i := true, 0;
      while more && i < limit
        invariant Drained(start, Look(), dups, taken, applied, finished, failed)
        invariant Turns(looks, dups) && Spans(looks, start, Look())
        invariant taken <= i <= limit && taken <= |start.toAnchor| && (more ==> taken == i && failed == 0)
        invariant !more && taken < |start.toAnchor| ==> input(taken) != Ready || output(taken) == QuotaFull
        invariant failed <= 1 && (failed == 1 ==> input(taken) == ReadFails)
        decreases limit - i
      {
        ghost var was := Look();
        DrainedQueue(start, was, dups, taken, applied, finished, failed);
        var took;
        ghost var done;
        took, done := Turn(output(i), input(i), dups(applied));
        DrainedTurn(start, was, Look(), dups, taken, applied, finished, output(i), input(i), took, done);
        OneMoreTurn(looks, start, was, Look(), output(i), input(i), dups, applied, took, done);
        TurnTakes(was, Look(), output(i), input(i), dups(applied), took, done);
        looks := looks + [Look()];
        finished := finished + done;
        more := took.Some?;
        if more {
          applied := if took.value.Some? then applied + 1 else applied;
          taken := taken + 1;
        } else {
          failed := Counted(was.pending.Some?, output(i), input(i), None);
        }
        i := i + 1;
      }
      ghost var was := Look();
      var _, done := Reply(output(limit));
      DrainedReply(start, was, Look(), dups, taken, applied, finished, failed, done);
      ReplyStops(was, Look(), output(limit), dups(applied), done);
      OneMoreTurn(looks, start, was, Look(), output(limit), NotYet, dups, applied, None, done);
      looks := looks + [Look()];
      finished := finished + done;
    }

    /**
     * `handoff`: a channel of its own for the next daemon, empty both ways, and no answer of the last daemon's left for
     * it, even when handing over then fails; without a channel nothing changes. The holdings stay, and what is handed
     * over names the new channel's end and every held entry.
     */
    method HandOver(crc: Checksum, made: Option<U64>, give: Give)
      returns (r: Option<Bytes>, ghost end: U64, ghost es: seq<HandedEntry>)
      requires HoldingsOk(held.View())
      modifies `channel, `pending
      ensures made.None? ==> r == None && channel == old(channel) && pending == old(pending)
      ensures made.Some? ==> fresh(channel) && channel.toAnchor == [] && channel.toDaemon == [] && pending == None
      ensures made.Some? && (forall k, handle :: give(k, handle).Some?) ==> r.Some?
      ensures r.Some? ==> made.Some? && IsDuplicate(give, made.value, end)
      ensures r.Some? ==> NamesAllBut(held.entries, {}, es) && NamesDuplicates(give, held.entries, es)
      ensures r.Some? && GivesFresh(give) && TextCap(held.bound) <= U64_MAX ==>
        Parses(crc, r.value, held.bound, end, es)
    {
      hide Parses, NamesAllBut, NamesDuplicates, GivesFresh, TextCap, HoldingsOk, IsDuplicate;
      if made.None? {
        return None, 0, [];
      }
      channel := new Channel(made.value);
      pending := None;
      r, end, es := HandOff(crc, Holdings(held.entries, held.bound, held.refused), channel.daemonEnd, give);
    }
  }

  /** What a turn adds to the channel's refusals beside a lost answer: a failed read, or a piece that is no message. */
  function Counted(pending: bool, w: WriteOutcome, r: ReadOutcome, took: Option<Piece>): nat {
    if pending && w == QuotaFull then 0
    else if r == ReadFails || took == Some(None) then 1 else 0
  }

  /** The holdings, the answer pending, the channel's two queues and the refusals counted. */
  datatype Moment = Moment(
    h: Holdings, pending: Option<Message>, toAnchor: seq<Piece>, toDaemon: seq<Message>, refusals: U64)

  /** What one turn does. */
  ghost predicate Turned(
    s: Moment, t: Moment, w: WriteOutcome, r: ReadOutcome, dup: Duplicate, took: Option<Piece>, done: seq<Finished>)
  {
    && (took.Some? <==> r == Ready && (s.pending.None? || w != QuotaFull) && s.toAnchor != [])
    && done == FinishedBy(s.pending, w)
    && s.toAnchor == (if took.Some? then [took.value] else []) + t.toAnchor
    && t.toDaemon == s.toDaemon + Delivered(done)
    && t.refusals == SatAdd(s.refusals, Lost(done) + Counted(s.pending.Some?, w, r, took))
    && if took.Some? && took.value.Some?
       then
         && t.h == Applied(s.h, dup, took.value.value).0
         && Answers(done) == Waiting(s.pending)
         && t.pending == Some(Applied(s.h, dup, took.value.value).1)
       else t.h == s.h && Answers(done) + Waiting(t.pending) == Waiting(s.pending)
  }

  /** One moment comes of another by a turn. */
  ghost predicate ByTurn(s: Moment, t: Moment, dups: nat -> Duplicate) {
    exists w, r, n, took, done :: Turned(s, t, w, r, dups(n), took, done)
  }

  /** Each moment comes of the one before by a turn. */
  ghost predicate Turns(looks: seq<Moment>, dups: nat -> Duplicate) {
    forall i :: 0 < i < |looks| ==> ByTurn(looks[i - 1], looks[i], dups)
  }

  ghost predicate Spans(looks: seq<Moment>, s: Moment, t: Moment) {
    looks != [] && looks[0] == s && looks[|looks| - 1] == t
  }

  lemma {:induction false} NoTurns(s: Moment, dups: nat -> Duplicate)
    ensures Turns([s], dups) && Spans([s], s, s)
  {
  }

  lemma {:induction false} OneMoreTurn(
    looks: seq<Moment>, s: Moment, t: Moment, u: Moment, w: WriteOutcome, r: ReadOutcome, dups: nat -> Duplicate,
    n: nat, took: Option<Piece>, done: seq<Finished>)
    requires Turns(looks, dups) && Spans(looks, s, t) && Turned(t, u, w, r, dups(n), took, done)
    ensures Turns(looks + [u], dups) && Spans(looks + [u], s, u)
  {
    hide Turned;
    var more := looks + [u];
    forall i | 0 < i < |more| ensures ByTurn(more[i - 1], more[i], dups) {
      if i < |looks| {
        assert ByTurn(looks[i - 1], looks[i], dups);
      }
    }
  }

  lemma {:induction false} TurnTakes(
    s: Moment, t: Moment, w: WriteOutcome, r: ReadOutcome, dup: Duplicate, took: Option<Piece>, done: seq<Finished>)
    requires Turned(s, t, w, r, dup, took, done)
    ensures took.Some? <==> r == Ready && (s.pending.None? || w != QuotaFull) && s.toAnchor != []
  {
  }

  lemma {:induction false} NothingWaits(done: seq<Finished>)
    ensures Answers(done) + Waiting(None) == Answers(done)
  {
  }

  /** A turn that takes nothing; a reply by itself is one. */
  lemma {:induction false} TurnStops(
    s: Moment, t: Moment, w: WriteOutcome, r: ReadOutcome, dup: Duplicate, done: seq<Finished>)
    requires !(r == Ready && (s.pending.None? || w != QuotaFull) && s.toAnchor != [])
    requires done == FinishedBy(s.pending, w) && t.h == s.h && t.toAnchor == s.toAnchor
    requires t.toDaemon == s.toDaemon + Delivered(done)
    requires t.refusals == SatAdd(SatAdd(s.refusals, Lost(done)), Counted(s.pending.Some?, w, r, None))
    requires Answers(done) + Waiting(t.pending) == Waiting(s.pending)
    ensures Turned(s, t, w, r, dup, None, done)
  {
    hide Applied, Answers, Delivered, Lost, FinishedBy, Waiting;
    assert s.toAnchor == [] + t.toAnchor;
  }

  lemma {:induction false} ReplyStops(s: Moment, t: Moment, w: WriteOutcome, dup: Duplicate, done: seq<Finished>)
    requires done == FinishedBy(s.pending, w) && t.h == s.h && t.toAnchor == s.toAnchor
    requires t.toDaemon == s.toDaemon + Delivered(done) && t.refusals == SatAdd(s.refusals, Lost(done))
    requires Answers(done) + Waiting(t.pending) == Waiting(s.pending)
    ensures Turned(s, t, w, NotYet, dup, None, done)
  {
    hide Turned, Answers, Delivered, Lost, FinishedBy, Waiting;
    TurnStops(s, t, w, NotYet, dup, done);
  }

  lemma {:induction false} TurnDrops(s: Moment, t: Moment, w: WriteOutcome, dup: Duplicate, done: seq<Finished>)
    requires (s.pending.None? || w != QuotaFull) && s.toAnchor != [] && s.toAnchor[0].None?
    requires done == FinishedBy(s.pending, w) && t.h == s.h && t.toAnchor == s.toAnchor[1..]
    requires t.toDaemon == s.toDaemon + Delivered(done)
    requires t.refusals == SatAdd(SatAdd(s.refusals, Lost(done)), 1)
    requires Answers(done) + Waiting(t.pending) == Waiting(s.pending)
    ensures Turned(s, t, w, Ready, dup, Some(s.toAnchor[0]), done)
  {
    hide Applied, Answers, Delivered, Lost, FinishedBy, Waiting;
    assert s.toAnchor == [s.toAnchor[0]] + t.toAnchor;
  }

  lemma {:induction false} TurnApplies(
    s: Moment, t: Moment, w: WriteOutcome, dup: Duplicate, m: Message, done: seq<Finished>)
    requires (s.pending.None? || w != QuotaFull) && s.toAnchor != [] && s.toAnchor[0] == Some(m)
    requires done == FinishedBy(s.pending, w) && t.toAnchor == s.toAnchor[1..]
    requires t.toDaemon == s.toDaemon + Delivered(done) && t.refusals == SatAdd(s.refusals, Lost(done))
    requires Answers(done) == Waiting(s.pending)
    requires t.h == Applied(s.h, dup, m).0 && t.pending == Some(Applied(s.h, dup, m).1)
    ensures Turned(s, t, w, Ready, dup, Some(s.toAnchor[0]), done)
  {
    hide Applied, Answers, Delivered, Lost, FinishedBy, Waiting;
    assert s.toAnchor == [s.toAnchor[0]] + t.toAnchor;
  }

  /**
   * What a drain does. The pieces taken are the oldest in the channel: every message of them is applied in order, and
   * every answer, the one pending before included, is delivered or lost in order, or still pending: none is
   * overwritten. What is lost, what is not a message and a failed read are counted.
   */
  ghost predicate Drained(
    s: Moment, t: Moment, dups: nat -> Duplicate, taken: nat, applied: nat, finished: seq<Finished>, failed: nat)
  {
    && taken <= |s.toAnchor| && t.toAnchor == s.toAnchor[taken..]
    && var ms := Messages(s.toAnchor[..taken]);
      && applied == |ms| <= taken
      && t.h == AppliedAll(s.h, dups, ms).0
      && Answers(finished) + Waiting(t.pending) == Waiting(s.pending) + AppliedAll(s.h, dups, ms).1
      && t.toDaemon == s.toDaemon + Delivered(finished)
      && t.refusals == SatAdd(s.refusals, Lost(finished) + (taken - applied) + failed)
  }

  lemma {:induction false} NothingDrained(s: Moment, dups: nat -> Duplicate)
    ensures Drained(s, s, dups, 0, 0, [], 0)
  {
    assert s.toAnchor[..0] == [] && s.toDaemon + Delivered([]) == s.toDaemon;
    assert Answers([]) + Waiting(s.pending) == Waiting(s.pending) + [];
  }

  lemma {:induction false} DrainedQueue(
    s: Moment, t: Moment, dups: nat -> Duplicate, taken: nat, applied: nat, finished: seq<Finished>, failed: nat)
    requires Drained(s, t, dups, taken, applied, finished, failed)
    ensures taken <= |s.toAnchor| && t.toAnchor == s.toAnchor[taken..]
  {
  }

  lemma {:induction false} DrainedTurn(
    s: Moment, t: Moment, u: Moment, dups: nat -> Duplicate, taken: nat, applied: nat, finished: seq<Finished>,
    w: WriteOutcome, r: ReadOutcome, took: Option<Piece>, done: seq<Finished>)
    requires Drained(s, t, dups, taken, applied, finished, 0)
    requires Turned(t, u, w, r, dups(applied), took, done)
    ensures took.None? ==>
      Drained(s, u, dups, taken, applied, finished + done, Counted(t.pending.Some?, w, r, None))
    ensures took.Some? ==>
      Drained(s, u, dups, taken + 1, if took.value.Some? then applied + 1 else applied, finished + done, 0)
  {
    hide Applied, AppliedAll, Messages, Answers, Delivered, Lost;
    FinishedMore(finished, done);
    Regroup(s.toDaemon, Delivered(finished), Delivered(done));
    Regroup(Answers(finished), Answers(done), Waiting(u.pending));
    if took.Some? {
      NextPiece(s.toAnchor, taken);
      assert s.toAnchor[taken] == took.value && u.toAnchor == s.toAnchor[taken + 1..];
      if took.value.Some? {
        AppliedOneMore(s.h, dups, Messages(s.toAnchor[..taken]), took.value.value);
        Regroup(Waiting(s.pending), AppliedAll(s.h, dups, Messages(s.toAnchor[..taken])).1, Waiting(u.pending));
      }
    }
  }

  lemma {:induction false} DrainedReply(
    s: Moment, t: Moment, u: Moment, dups: nat -> Duplicate, taken: nat, applied: nat, finished: seq<Finished>,
    failed: nat, done: seq<Finished>)
    requires Drained(s, t, dups, taken, applied, finished, failed)
    requires u.h == t.h && u.toAnchor == t.toAnchor && u.toDaemon == t.toDaemon + Delivered(done)
    requires Answers(done) + Waiting(u.pending) == Waiting(t.pending) && u.refusals == SatAdd(t.refusals, Lost(done))
    ensures Drained(s, u, dups, taken, applied, finished + done, failed)
  {
    hide AppliedAll, Messages, Answers, Delivered, Lost;
    FinishedMore(finished, done);
    Regroup(s.toDaemon, Delivered(finished), Delivered(done));
    Regroup(Answers(finished), Answers(done), Waiting(u.pending));
  }

  lemma {:induction false} OneFinished(m: Message, delivered: bool)
    ensures var fs := [Finished(m, delivered)];
      && Answers(fs) == [m] && Delivered(fs) == (if delivered then [m] else [])
      && Lost(fs) == if delivered then 0 else 1
  {
    var f := Finished(m, delivered);
    assert [f][..0] == [];
    assert Answers([]) == [] && Delivered([]) == [] && Lost([]) == 0;
  }

  lemma {:induction false} NextPiece(ps: seq<Piece>, i: nat)
    requires i < |ps|
    ensures ps[i..] == [ps[i]] + ps[i + 1..]
    ensures Messages(ps[..i + 1]) == if ps[i].Some? then Messages(ps[..i]) + [ps[i].value] else Messages(ps[..i])
  {
    assert ps[..i + 1][..i] == ps[..i];
  }

  lemma {:induction false} FinishedMore(before: seq<Finished>, done: seq<Finished>)
    ensures Answers(before + done) == Answers(before) + Answers(done)
    ensures Delivered(before + done) == Delivered(before) + Delivered(done)
    ensures Lost(before + done) == Lost(before) + Lost(done)
    decreases |done|
  {
    if done == [] {
      assert before + done == before;
    } else {
      var front, last := done[..|done| - 1], done[|done| - 1];
      FinishedMore(before, front);
      assert (before + done)[..|before + done| - 1] == before + front;
      Regroup(Answers(before), Answers(front), [last.answer]);
      Regroup(Delivered(before), Delivered(front), if last.delivered then [last.answer] else []);
    }
  }

  lemma {:induction false} Regroup(a: seq<Message>, b: seq<Message>, c: seq<Message>)
    ensures a + (b + c) == a + b + c
  {
  }

  lemma {:induction false} AppliedOneMore(h: Holdings, dups: nat -> Duplicate, ms: seq<Message>, m: Message)
    ensures var before, next := AppliedAll(h, dups, ms), Applied(AppliedAll(h, dups, ms).0, dups(|ms|), m);
      AppliedAll(h, dups, ms + [m]) == (next.0, before.1 + Waiting(Some(next.1)))
  {
    hide Applied;
    assert (ms + [m])[..|ms|] == ms;
  }
}
