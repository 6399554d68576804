// The seqlock that publishes payloads in the anchor segment
// (crates/anchor/src/segment.rs, `publish` and `read_published`): the operations
// one at a time, and a state machine of their interleavings at byte granularity,
// with one writer at a time that may die after any step and any number of readers.

module Seqlock {
  import opened Wire

  const LEN_BYTES := 8

  const HALF := 0x8000_0000_0000_0000

  /** The region's bytes after its generation word while `payload` is published: its length, then itself. */
  function Image(payload: Bytes): Bytes { Le(|payload|, LEN_BYTES) + payload }

  /** `g | 1`. */
  function Marked(g: U64): U64 { if g % 2 == 0 then g + 1 else g }

  /** `(g | 1).wrapping_add(1)`. */
  function Finished(g: U64): U64 { if Marked(g) == U64_MAX then 0 else Marked(g) + 1 }

  // ------------------------------------------------------ one operation at a time

  datatype Publication = Nothing | InProgress | LengthPastRegion | ChangedMeanwhile | Payload(bytes: Bytes)

  /** What a read that nothing interrupts sees. */
  function Reading(generation: U64, body: Bytes): Publication
    requires |body| >= LEN_BYTES
  {
    if generation == 0 then Nothing
    else if generation % 2 == 1 then InProgress
    else
      var len := FromLe(body[..LEN_BYTES]);
      if LEN_BYTES + len > |body| then LengthPastRegion else Payload(body[LEN_BYTES..LEN_BYTES + len])
  }

  /** What a read returns that saw `seen` between two loads of the generation. */
  function Returned(before: U64, seen: Bytes, after: U64): Publication
    requires |seen| >= LEN_BYTES
  {
    var r := Reading(before, seen);
    if r.Payload? && after != before then ChangedMeanwhile else r
  }

  lemma {:induction false} NothingAtZero(body: Bytes)
    requires |body| >= LEN_BYTES
    ensures Reading(0, body) == Nothing
  {
  }

  lemma {:induction false} ReadingImage(generation: U64, body: Bytes, payload: Bytes)
    requires |payload| <= U64_MAX && Image(payload) <= body && generation % 2 == 0 && generation > 0
    ensures Reading(generation, body) == Payload(payload)
  {
    var image := Image(payload);
    assert body[..LEN_BYTES] == image[..LEN_BYTES] == Le(|payload|, LEN_BYTES);
    assert body[LEN_BYTES..LEN_BYTES + |payload|] == image[LEN_BYTES..] == payload;
    Pow256Values();
    LeRoundTrip(|payload|, LEN_BYTES);
  }

  /** A payload region: its generation word, and the length and bytes after it. */
  class PayloadRegion {
    var generation: U64
    const body: array<Byte>

    ghost predicate Valid() { LEN_BYTES <= body.Length <= U64_MAX }

    constructor (b: array<Byte>)
      requires LEN_BYTES <= b.Length <= U64_MAX
      ensures Valid() && body == b && generation == 0
    {
      body, generation := b, 0;
    }

    /** Writes bytes in place, each store a step of the writer. */
    method Write(at: nat, bytes: Bytes, ghost states0: seq<State>, ghost labels0: seq<Label>)
      returns (ghost states: seq<State>, ghost labels: seq<Label>)
      requires at + |bytes| <= body.Length
      requires WriterPath(states0, labels0) && Shared(states0[|labels0|], generation, body[..])
      requires Remaining(states0[|labels0|].writer, at)
      requires at + |bytes| <= |Image(states0[|labels0|].writer.payload)| <= body.Length
      requires bytes == Image(states0[|labels0|].writer.payload)[at..at + |bytes|]
      modifies body
      ensures body[..] == old(body[..at]) + bytes + old(body[at + |bytes|..])
      ensures WriterPath(states, labels) && states[0] == states0[0]
      ensures Shared(states[|labels|], generation, body[..]) && Remaining(states[|labels|].writer, at + |bytes|)
      ensures Continues(states0[|labels0|], states[|labels|])
    {
      hide Image, WriterStep;
      states, labels := states0, labels0;
      for k := 0 to |bytes|
        invariant body[..at] == old(body[..at]) && body[at + k..] == old(body[at + k..])
        invariant body[at..at + k] == bytes[..k]
        invariant WriterPath(states, labels) && states[0] == states0[0]
        invariant Shared(states[|labels|], generation, body[..]) && Remaining(states[|labels|].writer, at + k)
        invariant Continues(states0[|labels0|], states[|labels|])
      {
        assert body[at + k + 1..] == body[at + k..][1..];
        ghost var s := states[|labels|];
        ghost var t := StoreByte(s, at + k);
        ghost var was := body[..];
        body[at + k] := bytes[k];
        assert body[..] == was[at + k := bytes[k]];
        PathStores(states, labels, at + k);
        states, labels := states + [t], labels + [WriterWrites(at + k)];
      }
      assert body[..] == body[..at] + body[at..at + |bytes|] + body[at + |bytes|..];
    }

    /** The image's two parts, the length and then the payload. */
    method WriteImage(payload: Bytes, ghost states0: seq<State>, ghost labels0: seq<Label>)
      returns (ghost states: seq<State>, ghost labels: seq<Label>)
      requires LEN_BYTES + |payload| <= body.Length <= U64_MAX
      requires WriterPath(states0, labels0) && Shared(states0[|labels0|], generation, body[..])
      requires Remaining(states0[|labels0|].writer, 0) && states0[|labels0|].writer.payload == payload
      modifies body
      ensures body[..] == Image(payload) + old(body[LEN_BYTES + |payload|..])
      ensures WriterPath(states, labels) && states[0] == states0[0]
      ensures Shared(states[|labels|], generation, body[..])
      ensures Remaining(states[|labels|].writer, |Image(payload)|) && Continues(states0[|labels0|], states[|labels|])
    {
      hide Image, WriterPath, Remaining;
      ImageLength(payload);
      ImageParts(payload);
      PathEnds(states0, labels0);
      ghost var was := body[..];
      states, labels := Write(0, Le(|payload|, LEN_BYTES), states0, labels0);
      PathEnds(states, labels);
      ghost var first := body[..];
      states, labels := Write(LEN_BYTES, payload, states, labels);
      PathEnds(states, labels);
      WrittenTwice(was, Le(|payload|, LEN_BYTES), payload, first, body[..]);
    }

    /**
     * `publish`, its every store a step of the writer from whatever was there, a torn write included: a read after it
     * returns the payload, and only the wrap of the generation word to zero hides it.
     */
    method Publish(payload: Bytes, ghost start: State)
      returns (ok: bool, ghost states: seq<State>, ghost labels: seq<Label>)
      requires Valid() && Shared(start, generation, body[..]) && start.writer == NoWriter
      modifies this, body
      ensures ok <==> LEN_BYTES + |payload| <= body.Length
      ensures !ok ==> generation == old(generation) && body[..] == old(body[..])
      ensures ok ==> generation == Finished(old(generation))
      ensures ok ==> body[..] == Image(payload) + old(body[LEN_BYTES + |payload|..])
      ensures ok ==>
        Reading(generation, body[..]) == if old(generation) >= U64_MAX - 1 then Nothing else Payload(payload)
      ensures ok ==> WriterPath(states, labels) && states[0] == start
      ensures ok ==>
        Ends(states, labels,
          start.(generation := generation, body := body[..], published := start.published + [payload]))
    {
      hide Image, WriterPath, Reading, Remaining, Marked, Finished;
      states, labels := [start], [];
      if |payload| > body.Length - LEN_BYTES {
        return false, states, labels;
      }
      ImageLength(payload);
      var before := generation;
      PathBegins(start, payload);
      states, labels := states + [Loading(start, payload)], labels + [WriterLoads(payload)];
      generation := Marked(before);
      PathMarks(states, labels);
      states, labels := states + [Marking(states[|labels|])], labels + [WriterMarks];
      states, labels := WriteImage(payload, states, labels);
      PathEnds(states, labels);
      generation := Finished(before);
      PathFinishes(states, labels);
      states, labels := states + [Finishing(states[|labels|])], labels + [WriterFinishes];
      assert Image(payload) <= body[..];
      FinishedReads(before, body[..], payload);
      return true, states, labels;
    }

    /**
     * `read_published`, given what its reads of the body return and its second load of the generation, with a writer
     * meanwhile or not: a payload only where the generation did not change.
     */
    method ReadPublished(seen: Bytes, after: U64) returns (r: Publication)
      requires Valid() && |seen| == body.Length
      ensures r == Returned(generation, seen, after)
      ensures seen == body[..] && after == generation ==> r == Reading(generation, body[..])
    {
      var before := generation;
      if before == 0 {
        return Nothing;
      }
      if before % 2 == 1 {
        return InProgress;
      }
      var len := FromLe(seen[..LEN_BYTES]);
      if LEN_BYTES + len > body.Length {
        return LengthPastRegion;
      }
      var payload := seen[LEN_BYTES..LEN_BYTES + len];
      if after != before {
        return ChangedMeanwhile;
      }
      return Payload(payload);
    }
  }

  // ------------------------------------------------------------- interleavings

  datatype Writer =
    | NoWriter
    | Loaded(start: U64, payload: Bytes)
    | Writing(start: U64, payload: Bytes, left: set<nat>)

  /** A reader's own copy so far; bytes may be read in any order. */
  datatype Reader =
    | NotReading
    | ReadingLen(before: U64, got: map<nat, Byte>)
    | ReadingBody(before: U64, len: nat, got: map<nat, Byte>)

  /** The shared words, every process's progress, and the history of completed publications. */
  datatype State = State(
    generation: U64, body: Bytes, writer: Writer, readers: map<nat, Reader>, published: seq<Bytes>)

  datatype Label =
    | WriterLoads(payload: Bytes)
    | WriterMarks
    | WriterWrites(k: nat)
    | WriterFinishes
    | WriterDies
    | ReaderLoads(r: nat)
    | ReaderReadsLen(r: nat, k: nat)
    | ReaderSizes(r: nat)
    | ReaderReadsBody(r: nat, k: nat)
    | ReaderEnds(r: nat, out: Option<Bytes>)
    | ReaderStops(r: nat)

  function ReaderOf(s: State, r: nat): Reader { if r in s.readers then s.readers[r] else NotReading }

  function WithReader(s: State, r: nat, x: Reader): State { s.(readers := s.readers[r := x]) }

  predicate Has(got: map<nat, Byte>, n: nat) { forall k :: 0 <= k < n ==> k in got }

  function Collected(got: map<nat, Byte>, n: nat): (b: Bytes)
    requires Has(got, n)
    ensures |b| == n
    ensures forall k :: 0 <= k < n ==> b[k] == got[k]
  {
    if n == 0 then [] else Collected(got, n - 1) + [got[n - 1]]
  }

  ghost predicate Initial(s: State) {
    && s.generation == 0 && LEN_BYTES <= |s.body| <= U64_MAX
    && s.writer == NoWriter && s.readers == map[] && s.published == []
  }

  ghost predicate WriterStep(s: State, l: Label, t: State) {
    match l
    case WriterLoads(payload) =>
      && s.writer == NoWriter && LEN_BYTES + |payload| <= |s.body|
      && t == s.(writer := Loaded(s.generation, payload))
    case WriterMarks =>
      && s.writer.Loaded?
      && t == s.(generation := Marked(s.writer.start),
                 writer := Writing(s.writer.start, s.writer.payload, Indices(|Image(s.writer.payload)|)))
    case WriterWrites(k) =>
      && s.writer.Writing? && k in s.writer.left && k < |Image(s.writer.payload)| <= |s.body|
      && t == s.(body := s.body[k := Image(s.writer.payload)[k]],
                 writer := Writing(s.writer.start, s.writer.payload, s.writer.left - {k}))
    case WriterFinishes =>
      && s.writer.Writing? && s.writer.left == {}
      && t == s.(generation := Finished(s.writer.start), writer := NoWriter,
                 published := s.published + [s.writer.payload])
    case WriterDies => t == s.(writer := NoWriter)
    case _ => false
  }

  // ------------------------------------------------- an operation as its steps

  /** The shared words are these. */
  ghost predicate Shared(s: State, generation: U64, body: Bytes) { s.generation == generation && s.body == body }

  /** Steps of the writer, one after the other. */
  ghost predicate WriterPath(states: seq<State>, labels: seq<Label>) {
    |states| == |labels| + 1 && forall i :: 0 <= i < |labels| ==> WriterStep(states[i], labels[i], states[i + 1])
  }

  /** The writer has stored the bytes of its image before `at`. */
  ghost predicate Remaining(w: Writer, at: nat) {
    w.Writing? && forall k: nat :: k in w.left <==> at <= k < |Image(w.payload)|
  }

  /** Nothing but the body and the writer's progress is different. */
  ghost predicate Continues(s: State, t: State) {
    && s.writer.Writing? && t.writer.Writing?
    && t.writer.start == s.writer.start && t.writer.payload == s.writer.payload
    && t == s.(body := t.body, writer := t.writer)
  }

  function Loading(s: State, payload: Bytes): State { s.(writer := Loaded(s.generation, payload)) }

  ghost function Marking(s: State): State
    requires s.writer.Loaded?
  {
    s.(generation := Marked(s.writer.start),
       writer := Writing(s.writer.start, s.writer.payload, Indices(|Image(s.writer.payload)|)))
  }

  function StoreByte(s: State, k: nat): State
    requires s.writer.Writing? && k < |Image(s.writer.payload)| && k < |s.body|
  {
    s.(body := s.body[k := Image(s.writer.payload)[k]],
       writer := Writing(s.writer.start, s.writer.payload, s.writer.left - {k}))
  }

  function Finishing(s: State): State
    requires s.writer.Writing?
  {
    s.(generation := Finished(s.writer.start), writer := NoWriter, published := s.published + [s.writer.payload])
  }

  lemma {:induction false} PathMore(states: seq<State>, labels: seq<Label>, l: Label, t: State)
    requires WriterPath(states, labels) && WriterStep(states[|labels|], l, t)
    ensures WriterPath(states + [t], labels + [l])
  {
    hide WriterStep;
    var ss, ls := states + [t], labels + [l];
    forall i | 0 <= i < |ls| ensures WriterStep(ss[i], ls[i], ss[i + 1]) {
      if i < |labels| {
        assert ss[i] == states[i] && ss[i + 1] == states[i + 1] && ls[i] == labels[i];
      }
    }
  }

  lemma {:induction false} PathBegins(s: State, payload: Bytes)
    requires s.writer == NoWriter && LEN_BYTES + |payload| <= |s.body|
    ensures WriterPath([s] + [Loading(s, payload)], [] + [WriterLoads(payload)])
  {
    PathMore([s], [], WriterLoads(payload), Loading(s, payload));
  }

  lemma {:induction false} PathMarks(states: seq<State>, labels: seq<Label>)
    requires WriterPath(states, labels) && states[|labels|].writer.Loaded?
    ensures WriterPath(states + [Marking(states[|labels|])], labels + [WriterMarks])
    ensures Remaining(Marking(states[|labels|]).writer, 0)
  {
    PathMore(states, labels, WriterMarks, Marking(states[|labels|]));
  }

  lemma {:induction false} PathStores(states: seq<State>, labels: seq<Label>, k: nat)
    requires WriterPath(states, labels) && Remaining(states[|labels|].writer, k)
    requires k < |Image(states[|labels|].writer.payload)| <= |states[|labels|].body|
    ensures WriterPath(states + [StoreByte(states[|labels|], k)], labels + [WriterWrites(k)])
    ensures Remaining(StoreByte(states[|labels|], k).writer, k + 1)
  {
    hide Image;
    PathMore(states, labels, WriterWrites(k), StoreByte(states[|labels|], k));
  }

  lemma {:induction false} PathFinishes(states: seq<State>, labels: seq<Label>)
    requires WriterPath(states, labels) && states[|labels|].writer.Writing?
    requires Remaining(states[|labels|].writer, |Image(states[|labels|].writer.payload)|)
    ensures WriterPath(states + [Finishing(states[|labels|])], labels + [WriterFinishes])
  {
    hide Image;
    assert states[|labels|].writer.left == {};
    PathMore(states, labels, WriterFinishes, Finishing(states[|labels|]));
  }

  ghost predicate Ends(states: seq<State>, labels: seq<Label>, t: State) {
    |states| == |labels| + 1 && states[|labels|] == t
  }

  lemma {:induction false} PathEnds(states: seq<State>, labels: seq<Label>)
    requires WriterPath(states, labels)
    ensures |states| == |labels| + 1
  {
  }

  /** After a publication its payload is read, unless the generation word wrapped to zero. */
  lemma {:induction false} FinishedReads(before: U64, body: Bytes, payload: Bytes)
    requires |payload| <= U64_MAX && |body| >= LEN_BYTES && Image(payload) <= body
    ensures Reading(Finished(before), body) == if before >= U64_MAX - 1 then Nothing else Payload(payload)
  {
    hide Image, Reading;
    if Finished(before) != 0 {
      ReadingImage(Finished(before), body, payload);
    } else {
      NothingAtZero(body);
    }
  }

  lemma {:induction false} WrittenTwice(was: Bytes, a: Bytes, b: Bytes, first: Bytes, second: Bytes)
    requires |a| + |b| <= |was| && first == was[..0] + a + was[0 + |a|..]
    requires second == first[..|a|] + b + first[|a| + |b|..]
    ensures second == a + b + was[|a| + |b|..]
  {
    assert first[..|a|] == a && first[|a| + |b|..] == was[|a| + |b|..];
  }

  lemma {:induction false} ImageParts(payload: Bytes)
    ensures Image(payload) == Le(|payload|, LEN_BYTES) + payload
    ensures Image(payload)[..LEN_BYTES] == Le(|payload|, LEN_BYTES) && Image(payload)[LEN_BYTES..] == payload
    ensures Image(payload)[0..LEN_BYTES] == Le(|payload|, LEN_BYTES)
    ensures Image(payload)[LEN_BYTES..LEN_BYTES + |payload|] == payload
  {
  }

  ghost function Indices(n: nat): (ks: set<nat>)
    ensures forall k: nat :: k in ks <==> k < n
  {
    if n == 0 then {} else Indices(n - 1) + {n - 1}
  }

  ghost predicate ReaderStep(s: State, l: Label, t: State) {
    match l
    case ReaderLoads(r) =>
      && ReaderOf(s, r) == NotReading && s.generation % 2 == 0 && s.generation > 0
      && t == WithReader(s, r, ReadingLen(s.generation, map[]))
    case ReaderReadsLen(r, k) =>
      && ReaderOf(s, r).ReadingLen? && k < LEN_BYTES <= |s.body|
      && t == WithReader(s, r, ReadingLen(ReaderOf(s, r).before, ReaderOf(s, r).got[k := s.body[k]]))
    case ReaderSizes(r) =>
      && ReaderOf(s, r).ReadingLen? && Has(ReaderOf(s, r).got, LEN_BYTES)
      && var len := FromLe(Collected(ReaderOf(s, r).got, LEN_BYTES));
        t == WithReader(s, r,
                        if LEN_BYTES + len > |s.body| then NotReading
                        else ReadingBody(ReaderOf(s, r).before, len, map[]))
    case ReaderReadsBody(r, k) =>
      && ReaderOf(s, r).ReadingBody? && k < ReaderOf(s, r).len && LEN_BYTES + k < |s.body|
      && t == WithReader(s, r, ReadingBody(ReaderOf(s, r).before, ReaderOf(s, r).len,
                                           ReaderOf(s, r).got[k := s.body[LEN_BYTES + k]]))
    case ReaderEnds(r, out) =>
      && ReaderOf(s, r).ReadingBody? && Has(ReaderOf(s, r).got, ReaderOf(s, r).len)
      && out == (if s.generation == ReaderOf(s, r).before then Some(Collected(ReaderOf(s, r).got, ReaderOf(s, r).len))
                 else None)
      && t == WithReader(s, r, NotReading)
    case ReaderStops(r) => t == WithReader(s, r, NotReading)
    case _ => false
  }

  ghost predicate Step(s: State, l: Label, t: State) { WriterStep(s, l, t) || ReaderStep(s, l, t) }

  // ---------------------------------------------------------------- invariant

  function Last(s: State): Bytes
    requires s.published != []
  {
    s.published[|s.published| - 1]
  }

  /** The generation is twice the publications completed, odd while one is underway or was abandoned. */
  ghost predicate GenerationOk(s: State) {
    s.generation == 2 * |s.published| || s.generation == 2 * |s.published| + 1
  }

  ghost predicate BodyOk(s: State) {
    && LEN_BYTES <= |s.body| <= U64_MAX
    && (s.generation == 2 * |s.published| && s.published != [] ==>
          LEN_BYTES + |Last(s)| <= |s.body| && Image(Last(s)) <= s.body)
  }

  ghost predicate WriterOk(s: State) {
    match s.writer
    case NoWriter => true
    case Loaded(start, payload) => start == s.generation && LEN_BYTES + |payload| <= |s.body|
    case Writing(start, payload, left) =>
      && s.generation == 2 * |s.published| + 1 == Marked(start) && LEN_BYTES + |payload| <= |s.body|
      && forall k :: 0 <= k < |Image(payload)| && k !in left ==> s.body[k] == Image(payload)[k]
  }

  /** While the generation stays what the reader loaded, its copy is of the last publication. */
  ghost predicate ReaderOk(s: State, x: Reader) {
    x.NotReading? || (
      && x.before % 2 == 0 && 0 < x.before <= 2 * |s.published|
      && (s.generation == x.before ==>
            match x
            case ReadingLen(_, got) => forall k :: k in got && k < LEN_BYTES ==> got[k] == Le(|Last(s)|, LEN_BYTES)[k]
            case ReadingBody(_, len, got) =>
              len == |Last(s)| && forall k :: k in got && k < len ==> got[k] == Last(s)[k]))
  }

  ghost predicate Inv(s: State) {
    && GenerationOk(s) && BodyOk(s) && WriterOk(s)
    && forall r :: r in s.readers ==> ReaderOk(s, s.readers[r])
  }

  lemma {:induction false} InitialInv(s: State)
    requires Initial(s)
    ensures Inv(s)
  {
  }

  /** Steps of the writer leave a reader's copy good or stale for ever. */
  lemma {:induction false} ReaderUndisturbed(s: State, t: State, x: Reader)
    requires ReaderOk(s, x) && GenerationOk(s) && s.generation <= t.generation
    requires t.generation == s.generation ==> t.published == s.published
    requires |s.published| <= |t.published|
    ensures ReaderOk(t, x)
  {
  }

  lemma {:induction false} WriterKeepsInv(s: State, l: Label, t: State)
    requires Inv(s) && WriterStep(s, l, t) && |t.published| < HALF
    ensures Inv(t)
    ensures s.published <= t.published
    ensures t.generation == s.generation ==> t.published == s.published
    ensures s.generation <= t.generation
  {
    hide ReaderOk, Image;
    ImageLength(if s.writer.NoWriter? then [] else s.writer.payload);
    match l {
      case WriterFinishes => FinishKeeps(s, t);
      case WriterMarks => MarkKeeps(s, t);
      case WriterWrites(k) => WriteKeeps(s, k, t);
      case _ =>
    }
    forall r | r in t.readers ensures ReaderOk(t, t.readers[r]) {
      ReaderUndisturbed(s, t, t.readers[r]);
    }
  }

  lemma {:induction false} ImageLength(payload: Bytes)
    ensures |Image(payload)| == LEN_BYTES + |payload|
  {
  }

  lemma {:induction false} FinishKeeps(s: State, t: State)
    requires Inv(s) && WriterStep(s, WriterFinishes, t) && |t.published| < HALF
    ensures GenerationOk(t) && BodyOk(t) && WriterOk(t) && s.generation < t.generation
  {
    hide ReaderOk;
    var image := Image(s.writer.payload);
    assert |t.published| == |s.published| + 1;
    assert forall k :: 0 <= k < |image| ==> t.body[k] == image[k];
    assert image == t.body[..|image|];
  }

  lemma {:induction false} MarkKeeps(s: State, t: State)
    requires Inv(s) && WriterStep(s, WriterMarks, t) && |t.published| < HALF
    ensures GenerationOk(t) && BodyOk(t) && WriterOk(t) && s.generation <= t.generation
  {
    hide ReaderOk, Image;
    ImageLength(s.writer.payload);
    assert forall k: nat :: k < |Image(s.writer.payload)| ==> k in t.writer.left;
  }

  lemma {:induction false} WriteKeeps(s: State, k: nat, t: State)
    requires Inv(s) && WriterStep(s, WriterWrites(k), t)
    ensures GenerationOk(t) && BodyOk(t) && WriterOk(t) && s.generation == t.generation
  {
    hide ReaderOk, Image;
    ImageLength(s.writer.payload);
  }

  lemma {:induction false} ReaderKeepsInv(s: State, l: Label, t: State)
    requires Inv(s) && ReaderStep(s, l, t) && |s.published| < HALF
    ensures Inv(t) && t.published == s.published && t.generation == s.generation
  {
    hide WriterOk, FromLe, Le, Collected;
    match l {
      case ReaderReadsLen(r, k) => LenByteKeeps(s, r, k);
      case ReaderSizes(r) => SizeKeeps(s, r);
      case ReaderReadsBody(r, k) => BodyByteKeeps(s, r, k);
      case _ =>
    }
    assert WriterOk(t) by { SameWriter(s, t); }
    forall r | r in t.readers ensures ReaderOk(t, t.readers[r]) {
    }
  }

  lemma {:induction false} SameWriter(s: State, t: State)
    requires WriterOk(s) && t == s.(readers := t.readers)
    ensures WriterOk(t)
  {
  }

  lemma {:induction false} LenByteKeeps(s: State, r: nat, k: nat)
    requires Inv(s) && |s.published| < HALF && ReaderOf(s, r).ReadingLen? && k < LEN_BYTES
    ensures ReaderOk(s, ReadingLen(ReaderOf(s, r).before, ReaderOf(s, r).got[k := s.body[k]]))
  {
    if s.generation == ReaderOf(s, r).before {
      assert s.body[k] == Image(Last(s))[k];
    }
  }

  lemma {:induction false} SizeKeeps(s: State, r: nat)
    requires Inv(s) && |s.published| < HALF && ReaderOf(s, r).ReadingLen? && Has(ReaderOf(s, r).got, LEN_BYTES)
    ensures var len := FromLe(Collected(ReaderOf(s, r).got, LEN_BYTES));
      ReaderOk(s, ReadingBody(ReaderOf(s, r).before, len, map[]))
  {
    hide WriterOk, BodyOk;
    var got := ReaderOf(s, r).got;
    if s.generation == ReaderOf(s, r).before {
      assert Collected(got, LEN_BYTES) == Le(|Last(s)|, LEN_BYTES);
      LastFits(s);
      LeRoundTrip(|Last(s)|, LEN_BYTES);
    }
  }

  lemma {:induction false} LastFits(s: State)
    requires BodyOk(s) && s.published != [] && s.generation == 2 * |s.published|
    ensures |Last(s)| < Pow256(LEN_BYTES)
  {
    Pow256Values();
  }

  lemma {:induction false} BodyByteKeeps(s: State, r: nat, k: nat)
    requires Inv(s) && |s.published| < HALF && ReaderOf(s, r).ReadingBody? && k < ReaderOf(s, r).len
    requires LEN_BYTES + k < |s.body|
    ensures var x := ReaderOf(s, r); ReaderOk(s, ReadingBody(x.before, x.len, x.got[k := s.body[LEN_BYTES + k]]))
  {
    hide WriterOk;
    if s.generation == ReaderOf(s, r).before {
      assert s.body[LEN_BYTES + k] == Image(Last(s))[LEN_BYTES + k];
    }
  }

  // --------------------------------------------------------------------- runs

  /** A run: states, and the step from each to the next. */
  ghost predicate Run(states: seq<State>, labels: seq<Label>) {
    && |states| == |labels| + 1 && Initial(states[0])
    && forall i :: 0 <= i < |labels| ==> Step(states[i], labels[i], states[i + 1])
  }

  /** Publications are only added; the generation never falls, and moves whenever one is. */
  ghost predicate Later(s: State, t: State) {
    && s.published <= t.published && s.generation <= t.generation
    && (t.generation == s.generation ==> t.published == s.published)
  }

  lemma {:induction false} StepKeepsInv(s: State, l: Label, t: State)
    requires Inv(s) && Step(s, l, t) && |t.published| < HALF
    ensures Inv(t) && Later(s, t)
  {
    hide Inv, WriterStep, ReaderStep;
    if WriterStep(s, l, t) {
      WriterKeepsInv(s, l, t);
    } else {
      ReaderPublishesNothing(s, l, t);
      ReaderKeepsInv(s, l, t);
    }
  }

  lemma {:induction false} ReaderPublishesNothing(s: State, l: Label, t: State)
    requires ReaderStep(s, l, t)
    ensures t.published == s.published
  {
  }

  lemma {:induction false} StepGrows(s: State, l: Label, t: State)
    requires Step(s, l, t)
    ensures |s.published| <= |t.published|
  {
  }

  lemma {:induction false} RunGrows(states: seq<State>, labels: seq<Label>, i: nat, j: nat)
    requires Run(states, labels) && i <= j < |states|
    ensures |states[i].published| <= |states[j].published|
    decreases j - i
  {
    hide Step;
    if i < j {
      RunGrows(states, labels, i, j - 1);
      StepGrows(states[j - 1], labels[j - 1], states[j]);
    }
  }

  /** Every state of a run keeps the invariant, and each is later than those before it. */
  lemma {:induction false} RunKeepsInv(states: seq<State>, labels: seq<Label>, i: nat)
    requires Run(states, labels) && i < |states| && |states[i].published| < HALF
    ensures Inv(states[i])
    decreases i
  {
    hide Step, Inv, Initial;
    if i == 0 {
      InitialInv(states[0]);
    } else {
      RunGrows(states, labels, i - 1, i);
      RunKeepsInv(states, labels, i - 1);
      StepKeepsInv(states[i - 1], labels[i - 1], states[i]);
    }
  }

  lemma {:induction false} RunLater(states: seq<State>, labels: seq<Label>, i: nat, j: nat)
    requires Run(states, labels) && i <= j < |states| && |states[j].published| < HALF
    ensures Later(states[i], states[j])
    decreases j - i
  {
    hide Step, Inv, Initial;
    if i < j {
      RunGrows(states, labels, j - 1, j);
      RunLater(states, labels, i, j - 1);
      RunKeepsInv(states, labels, j - 1);
      StepKeepsInv(states[j - 1], labels[j - 1], states[j]);
    }
  }

  /** A read ends with bytes only when they are the last completed publication, all of it. */
  lemma {:induction false} ReadIsLast(s: State, r: nat, out: Bytes, t: State)
    requires Inv(s) && Step(s, ReaderEnds(r, Some(out)), t)
    ensures s.generation == ReaderOf(s, r).before == 2 * |s.published|
    ensures s.published != [] && out == Last(s)
  {
    hide WriterOk, BodyOk;
    var x := ReaderOf(s, r);
    assert x == s.readers[r] && ReaderOk(s, x);
  }

  ghost predicate Keeps(labels: seq<Label>, r: nat, j: nat, i: nat)
    requires i <= |labels|
  {
    forall k :: j < k < i ==> labels[k] != ReaderLoads(r)
  }

  /** Between its load and its end a reader remembers the generation it loaded. */
  lemma {:induction false} BeforeKept(states: seq<State>, labels: seq<Label>, r: nat, j: nat, i: nat)
    requires Run(states, labels) && j < i <= |labels| && labels[j] == ReaderLoads(r) && Keeps(labels, r, j, i)
    ensures ReaderOf(states[i], r).NotReading? || ReaderOf(states[i], r).before == states[j].generation
    decreases i
  {
    hide Step, Initial;
    if i == j + 1 {
      LoadRemembers(states[j], r, states[i]);
    } else {
      BeforeKept(states, labels, r, j, i - 1);
      StepRemembers(states[i - 1], labels[i - 1], states[i], r);
    }
  }

  lemma {:induction false} LoadRemembers(s: State, r: nat, t: State)
    requires Step(s, ReaderLoads(r), t)
    ensures ReaderOf(t, r).before == s.generation
  {
  }

  lemma {:induction false} StepRemembers(s: State, l: Label, t: State, r: nat)
    requires Step(s, l, t) && l != ReaderLoads(r)
    ensures ReaderOf(t, r).NotReading? ||
      (!ReaderOf(s, r).NotReading? && ReaderOf(t, r).before == ReaderOf(s, r).before)
  {
  }

  /**
   * Over every interleaving of fewer than 2^63 publications: a read that returns bytes returns exactly the
   * payload of one completed publication, and that one was the last from the read's start to its end.
   */
  lemma {:induction false} ReadsAreNeverTorn(states: seq<State>, labels: seq<Label>, r: nat, j: nat, i: nat, out: Bytes)
    requires Run(states, labels) && j < i < |labels| && |states[i].published| < HALF
    requires labels[j] == ReaderLoads(r) && labels[i] == ReaderEnds(r, Some(out)) && Keeps(labels, r, j, i)
    ensures forall k :: j <= k <= i ==> states[k].published == states[i].published
    ensures states[i].published != [] && out == Last(states[i])
  {
    hide Step, Inv, Initial;
    RunKeepsInv(states, labels, i);
    assert Step(states[i], labels[i], states[i + 1]);
    ReadIsLast(states[i], r, out, states[i + 1]);
    BeforeKept(states, labels, r, j, i);
    EndsReading(states[i], r, out, states[i + 1]);
    forall k | j <= k <= i ensures states[k].published == states[i].published {
      RunGrows(states, labels, k, i);
      RunLater(states, labels, j, k);
      RunLater(states, labels, k, i);
    }
  }

  lemma {:induction false} EndsReading(s: State, r: nat, out: Bytes, t: State)
    requires Step(s, ReaderEnds(r, Some(out)), t)
    ensures !ReaderOf(s, r).NotReading?
  {
  }

  // -------------------------------------------- what the operation's read returns

  /** In every reachable state an undisturbed read returns the last publication, unless one is unfinished. */
  lemma {:induction false} UndisturbedReadIsLast(s: State)
    requires Inv(s) && |s.published| < HALF
    ensures Reading(s.generation, s.body) ==
      if s.generation % 2 == 1 then InProgress else if s.published == [] then Nothing else Payload(Last(s))
  {
    hide WriterOk, ReaderOk, Image;
    if s.generation % 2 == 0 && s.published != [] {
      ReadingImage(s.generation, s.body, Last(s));
    }
  }

  lemma {:induction false} StepKeepsLength(s: State, l: Label, t: State)
    requires Step(s, l, t)
    ensures |t.body| == |s.body|
  {
  }

  lemma {:induction false} RunKeepsLength(states: seq<State>, labels: seq<Label>, i: nat)
    requires Run(states, labels) && i < |states|
    ensures |states[i].body| == |states[0].body|
  {
    hide Step, Initial;
    if i > 0 {
      RunKeepsLength(states, labels, i - 1);
      StepKeepsLength(states[i - 1], labels[i - 1], states[i]);
    }
  }

  /** Each byte is one the body had in some state between the `j`th and the `i`th. */
  ghost predicate SeenBetween(states: seq<State>, j: nat, i: nat, seen: Bytes, at: nat -> nat)
    requires i < |states|
  {
    forall k :: 0 <= k < |seen| ==>
      j <= at(k) <= i && k < |states[at(k)].body| && seen[k] == states[at(k)].body[k]
  }

  /**
   * Over every interleaving of fewer than 2^63 publications: whatever order and moments `read_published` reads the
   * bytes in between its two loads, a payload it returns is exactly the last completed publication, the same from the
   * first load to the second.
   */
  lemma {:induction false} ReturnedIsLast(
    states: seq<State>, labels: seq<Label>, j: nat, i: nat, seen: Bytes, at: nat -> nat)
    requires Run(states, labels) && j <= i < |states| && |states[i].published| < HALF
    requires |seen| == |states[0].body| >= LEN_BYTES && SeenBetween(states, j, i, seen, at)
    requires Returned(states[j].generation, seen, states[i].generation).Payload?
    ensures forall k :: j <= k <= i ==> states[k].published == states[i].published
    ensures states[i].published != []
    ensures Returned(states[j].generation, seen, states[i].generation) == Payload(Last(states[i]))
  {
    hide Step, Inv, Initial, Reading, Image;
    PayloadIsEven(states[j].generation, seen, states[i].generation);
    forall k | j <= k <= i
      ensures states[k].generation == states[i].generation && states[k].published == states[i].published
    {
      RunGrows(states, labels, k, i);
      RunLater(states, labels, j, k);
      RunLater(states, labels, k, i);
    }
    RunKeepsInv(states, labels, i);
    ImageThere(states[i]);
    var image := Image(Last(states[i]));
    RunKeepsLength(states, labels, i);
    forall k | 0 <= k < |image| ensures seen[k] == image[k] {
      RunGrows(states, labels, at(k), i);
      RunKeepsInv(states, labels, at(k));
      ImageThere(states[at(k)]);
    }
    assert image == seen[..|image|];
    ReadingImage(states[i].generation, seen, Last(states[i]));
  }

  lemma {:induction false} PayloadIsEven(before: U64, seen: Bytes, after: U64)
    requires |seen| >= LEN_BYTES && Returned(before, seen, after).Payload?
    ensures before % 2 == 0 && before > 0 && after == before && Returned(before, seen, after) == Reading(before, seen)
  {
  }

  lemma {:induction false} ImageThere(s: State)
    requires Inv(s) && s.generation % 2 == 0 && s.generation > 0
    ensures s.published != [] && Image(Last(s)) <= s.body && |Last(s)| <= U64_MAX
  {
    hide ReaderOk, WriterOk;
    ImageLength(Last(s));
  }

  // ------------------------------------------------------ reads that do return

  lemma {:induction false} RunMore(states: seq<State>, labels: seq<Label>, l: Label, t: State)
    requires Run(states, labels) && Step(states[|labels|], l, t)
    ensures Run(states + [t], labels + [l])
  {
    hide Step, Initial;
    var ss, ls := states + [t], labels + [l];
    forall i | 0 <= i < |ls| ensures Step(ss[i], ls[i], ss[i + 1]) {
      if i < |labels| {
        assert ss[i] == states[i] && ss[i + 1] == states[i + 1] && ls[i] == labels[i];
      }
    }
  }

  /** Any run goes on with the steps of a publication, so the operation's own stores are part of the runs above. */
  lemma {:induction false} PublicationContinues(
    states: seq<State>, labels: seq<Label>, more: seq<State>, steps: seq<Label>)
    requires Run(states, labels) && WriterPath(more, steps) && more[0] == states[|labels|]
    ensures Run(states + more[1..], labels + steps)
  {
    hide WriterStep, ReaderStep, Initial;
    var ss, ls := states + more[1..], labels + steps;
    forall i | 0 <= i < |ls| ensures Step(ss[i], ls[i], ss[i + 1]) {
      if i < |labels| {
        assert Step(states[i], labels[i], states[i + 1]);
      } else {
        var k := i - |labels|;
        assert ss[i] == more[k] && ss[i + 1] == more[k + 1] && ls[i] == steps[k];
      }
    }
  }

  /** A reader that has the first `n` bytes it needs, of a region from `from`. */
  ghost predicate HasRead(body: Bytes, got: map<nat, Byte>, from: nat, n: nat) {
    from + n <= |body| && forall k: nat :: k < n ==> k in got && got[k] == body[from + k]
  }

  /** The same words and history, seen by one reader. */
  ghost predicate Quiet(s: State, t: State) {
    t.generation == s.generation && t.body == s.body && t.published == s.published
  }

  lemma {:induction false} ReadLen(states: seq<State>, labels: seq<Label>, r: nat)
    returns (states': seq<State>, labels': seq<Label>)
    requires Run(states, labels) && ReaderOf(states[|labels|], r) == ReadingLen(states[|labels|].generation, map[])
    requires LEN_BYTES <= |states[|labels|].body|
    ensures Run(states', labels') && states <= states' && labels <= labels'
    ensures Quiet(states[|labels|], states'[|labels'|])
    ensures var x := ReaderOf(states'[|labels'|], r);
      x.ReadingLen? && x.before == states[|labels|].generation && HasRead(states[|labels|].body, x.got, 0, LEN_BYTES)
  {
    hide Run;
    states', labels' := states, labels;
    RunLength(states, labels);
    ghost var s, k := states[|labels|], 0;
    while k < LEN_BYTES
      invariant k <= LEN_BYTES && Run(states', labels') && states <= states' && labels <= labels'
      invariant |states'| == |labels'| + 1 && Quiet(s, states'[|labels'|])
      invariant var x := ReaderOf(states'[|labels'|], r);
        x.ReadingLen? && x.before == s.generation && HasRead(s.body, x.got, 0, k)
    {
      var now := states'[|labels'|];
      var x := ReaderOf(now, r);
      var t := WithReader(now, r, ReadingLen(x.before, x.got[k := now.body[k]]));
      RunMore(states', labels', ReaderReadsLen(r, k), t);
      states', labels' := states' + [t], labels' + [ReaderReadsLen(r, k)];
      k := k + 1;
    }
  }

  lemma {:induction false} ReadBody(states: seq<State>, labels: seq<Label>, r: nat, len: nat)
    returns (states': seq<State>, labels': seq<Label>)
    requires Run(states, labels)
    requires ReaderOf(states[|labels|], r) == ReadingBody(states[|labels|].generation, len, map[])
    requires LEN_BYTES + len <= |states[|labels|].body|
    ensures Run(states', labels') && states <= states' && labels <= labels'
    ensures Quiet(states[|labels|], states'[|labels'|])
    ensures var x := ReaderOf(states'[|labels'|], r);
      && x.ReadingBody? && x.before == states[|labels|].generation && x.len == len
      && HasRead(states[|labels|].body, x.got, LEN_BYTES, len)
  {
    hide Run;
    states', labels' := states, labels;
    RunLength(states, labels);
    ghost var s, k := states[|labels|], 0;
    while k < len
      invariant k <= len && Run(states', labels') && states <= states' && labels <= labels'
      invariant |states'| == |labels'| + 1 && Quiet(s, states'[|labels'|])
      invariant var x := ReaderOf(states'[|labels'|], r);
        x.ReadingBody? && x.before == s.generation && x.len == len && HasRead(s.body, x.got, LEN_BYTES, k)
    {
      var now := states'[|labels'|];
      var x := ReaderOf(now, r);
      var t := WithReader(now, r, ReadingBody(x.before, x.len, x.got[k := now.body[LEN_BYTES + k]]));
      RunMore(states', labels', ReaderReadsBody(r, k), t);
      states', labels' := states' + [t], labels' + [ReaderReadsBody(r, k)];
      k := k + 1;
    }
  }

  lemma {:induction false} RunLength(states: seq<State>, labels: seq<Label>)
    requires Run(states, labels)
    ensures |states| == |labels| + 1
  {
  }

  /** What a reader has collected is what the region holds there. */
  lemma {:induction false} CollectedThere(body: Bytes, got: map<nat, Byte>, from: nat, n: nat)
    requires HasRead(body, got, from, n)
    ensures Has(got, n) && Collected(got, n) == body[from..from + n]
  {
    hide Collected;
  }

  /** A read is never refused without cause: left alone between publications, it ends with the last of them. */
  lemma {:induction false} QuietReadReturns(states: seq<State>, labels: seq<Label>, r: nat)
    returns (states': seq<State>, labels': seq<Label>)
    requires Run(states, labels) && |states[|labels|].published| < HALF
    requires ReaderOf(states[|labels|], r) == NotReading
    requires states[|labels|].generation % 2 == 0 && states[|labels|].published != []
    ensures Run(states', labels') && states <= states' && labels < labels'
    ensures labels'[|labels'| - 1] == ReaderEnds(r, Some(Last(states[|labels|])))
  {
    hide Run, Inv, HasRead, Has, Collected;
    RunLength(states, labels);
    var s := states[|labels|];
    RunKeepsInv(states, labels, |labels|);
    UndisturbedReadIsLast(s);
    PublishedInside(s);
    var t := WithReader(s, r, ReadingLen(s.generation, map[]));
    RunMore(states, labels, ReaderLoads(r), t);
    states', labels' := ReadLen(states + [t], labels + [ReaderLoads(r)], r);
    RunLength(states', labels');
    t := states'[|labels'|];
    CollectedThere(t.body, ReaderOf(t, r).got, 0, LEN_BYTES);
    var len := |Last(s)|;
    t := WithReader(t, r, ReadingBody(s.generation, len, map[]));
    RunMore(states', labels', ReaderSizes(r), t);
    states', labels' := ReadBody(states' + [t], labels' + [ReaderSizes(r)], r, len);
    RunLength(states', labels');
    t := states'[|labels'|];
    CollectedThere(t.body, ReaderOf(t, r).got, LEN_BYTES, len);
    var last := ReaderEnds(r, Some(Last(s)));
    RunMore(states', labels', last, WithReader(t, r, NotReading));
    states', labels' := states' + [WithReader(t, r, NotReading)], labels' + [last];
  }

  lemma {:induction false} PublishedInside(s: State)
    requires Inv(s) && s.published != [] && s.generation % 2 == 0 && |s.published| < HALF
    ensures s.generation > 0 && LEN_BYTES + |Last(s)| <= |s.body|
    ensures FromLe(s.body[..LEN_BYTES]) == |Last(s)| && s.body[LEN_BYTES..LEN_BYTES + |Last(s)|] == Last(s)
  {
    hide ReaderOk, WriterOk, Image;
    UndisturbedReadIsLast(s);
    ReadingInside(s.generation, s.body, Last(s));
  }

  lemma {:induction false} ReadingInside(generation: U64, body: Bytes, payload: Bytes)
    requires |body| >= LEN_BYTES && Reading(generation, body) == Payload(payload)
    ensures generation > 0 && LEN_BYTES + |payload| <= |body|
    ensures FromLe(body[..LEN_BYTES]) == |payload| && body[LEN_BYTES..LEN_BYTES + |payload|] == payload
  {
  }
}
