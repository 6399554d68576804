// Restoring an archive (crates/archive/src/restore.rs): the bytes a restore needs,
// admission against a budget, one decode per chunk, and the restored bodies.
// Whether an allocation succeeds is a parameter.

module Restore {
  import opened Wire
  import opened Manifest
  import opened ManifestReader
  import opened Container
  import opened ContainerProofs
  import opened RestorePlan
  import opened RestorePaths
  import opened RestoreExtents
  import opened Sparse

  // -------------------------------------------------------------- chunk index

  /** The chunks by identity, the first of equal ones. */
  function Index(cs: seq<Chunk>): map<Hash, Chunk> {
    if cs == [] then map[] else Index(cs[1..])[cs[0].identity := cs[0]]
  }

  method ChunkIndex(cs: seq<Chunk>) returns (m: map<Hash, Chunk>)
    ensures m == Index(cs)
  {
    m := map[];
    var k := |cs|;
    while k > 0
      invariant 0 <= k <= |cs|
      invariant m == Index(cs[k..])
    {
      k := k - 1;
      assert cs[k..][1..] == cs[k + 1..];
      m := m[cs[k].identity := cs[k]];
    }
    assert cs[0..] == cs;
  }

  /** The index finds what a scan from the start finds. */
  lemma {:induction false} IndexIsScan(cs: seq<Chunk>, id: Hash)
    ensures ScanFor(cs, id) == if id in Index(cs) then Some(Index(cs)[id]) else None
  {
    if cs != [] {
      IndexIsScan(cs[1..], id);
    }
  }

  lemma {:induction false} IndexedIsChunk(cs: seq<Chunk>, id: Hash)
    requires id in Index(cs)
    ensures Index(cs)[id] in cs && Index(cs)[id].identity == id
  {
    if cs[0].identity != id {
      IndexedIsChunk(cs[1..], id);
    }
  }

  /** The content of every chunk that has one. */
  function Contents(C: Codecs, chunks: map<Hash, Chunk>): Store {
    map id | id in chunks && Content(C, chunks[id]).Ok? :: Content(C, chunks[id]).value
  }

  // ------------------------------------------------------------- bytes needed

  predicate IsSparse(b: Body) { b.target.FileTarget? }

  function BodyBytes(b: Body): nat {
    if IsSparse(b) then ExtentData(b.extents) else b.len
  }

  function BytesTotal(bodies: seq<Body>): nat {
    if bodies == [] then 0 else BytesTotal(bodies[..|bodies| - 1]) + BodyBytes(bodies[|bodies| - 1])
  }

  /** The largest indexed chunk the extents name. */
  function Largest(es: seq<Extent>, chunks: map<Hash, Chunk>): nat {
    if es == [] then 0 else
    var e := es[|es| - 1];
    var before := Largest(es[..|es| - 1], chunks);
    if e.chunk != HOLE && e.chunk in chunks then Max(before, chunks[e.chunk].rawLen) else before
  }

  function LargestOf(bodies: seq<Body>, chunks: map<Hash, Chunk>): nat {
    if bodies == [] then 0 else
    Max(LargestOf(bodies[..|bodies| - 1], chunks), Largest(bodies[|bodies| - 1].extents, chunks))
  }

  /** The bytes restoring the bodies takes: theirs, and the largest chunk decoded. */
  function Needed(bodies: seq<Body>, chunks: map<Hash, Chunk>): nat {
    BytesTotal(bodies) + LargestOf(bodies, chunks)
  }

  lemma {:induction false} ExtentDataMonotone(es: seq<Extent>, i: nat)
    requires i <= |es|
    ensures ExtentData(es[..i]) <= ExtentData(es)
    decreases |es|
  {
    if i == |es| {
      assert es[..i] == es;
    } else {
      ExtentDataMonotone(es[..|es| - 1], i);
      assert es[..|es| - 1][..i] == es[..i];
    }
  }

  lemma {:induction false} BytesTotalMonotone(bodies: seq<Body>, i: nat)
    requires i <= |bodies|
    ensures BytesTotal(bodies[..i]) <= BytesTotal(bodies)
    decreases |bodies|
  {
    if i == |bodies| {
      assert bodies[..i] == bodies;
    } else {
      BytesTotalMonotone(bodies[..|bodies| - 1], i);
      assert bodies[..|bodies| - 1][..i] == bodies[..i];
    }
  }

  method BodyBytesChecked(b: Body) returns (r: Option<nat>)
    requires b.len <= U64_MAX
    ensures r == if BodyBytes(b) <= U64_MAX then Some(BodyBytes(b)) else None
  {
    if !IsSparse(b) {
      return Some(b.len);
    }
    var total := 0;
    for i := 0 to |b.extents|
      invariant total == ExtentData(b.extents[..i]) <= U64_MAX
    {
      assert b.extents[..i + 1][..i] == b.extents[..i];
      if b.extents[i].chunk != HOLE {
        if total + b.extents[i].len > U64_MAX {
          ExtentDataMonotone(b.extents, i + 1);
          return None;
        }
        total := total + b.extents[i].len;
      }
    }
    assert b.extents[..|b.extents|] == b.extents;
    return Some(total);
  }

  method LargestChunk(es: seq<Extent>, chunks: map<Hash, Chunk>, from: nat) returns (r: nat)
    ensures r == Max(from, Largest(es, chunks))
  {
    r := from;
    for i := 0 to |es|
      invariant r == Max(from, Largest(es[..i], chunks))
    {
      assert es[..i + 1][..i] == es[..i];
      if es[i].chunk != HOLE && es[i].chunk in chunks {
        r := Max(r, chunks[es[i].chunk].rawLen);
      }
    }
    assert es[..|es|] == es;
  }

  /** `needed_bytes`: the exact need, or nothing when it passes 64 bits. */
  method NeededBytes(bodies: seq<Body>, chunks: map<Hash, Chunk>) returns (r: Option<nat>)
    requires forall i :: 0 <= i < |bodies| ==> bodies[i].len <= U64_MAX
    ensures r == if Needed(bodies, chunks) <= U64_MAX then Some(Needed(bodies, chunks)) else None
  {
    hide BodyBytes, Largest;
    var largest, total := 0, 0;
    for i := 0 to |bodies|
      invariant total == BytesTotal(bodies[..i]) <= U64_MAX
      invariant largest == LargestOf(bodies[..i], chunks)
    {
      assert bodies[..i + 1][..i] == bodies[..i];
      BytesTotalMonotone(bodies, i + 1);
      var own := BodyBytesChecked(bodies[i]);
      if own.None? || total + own.value > U64_MAX {
        return None;
      }
      total := total + own.value;
      largest := LargestChunk(bodies[i].extents, chunks, largest);
    }
    assert bodies[..|bodies|] == bodies;
    return if total + largest <= U64_MAX then Some(total + largest) else None;
  }

  lemma {:induction false} NeedWithout(bodies: seq<Body>, j: nat, chunks: map<Hash, Chunk>)
    requires j < |bodies|
    ensures var rest := bodies[..j] + bodies[j + 1..];
      && BytesTotal(bodies) == BytesTotal(rest) + BodyBytes(bodies[j])
      && LargestOf(bodies, chunks) == Max(LargestOf(rest, chunks), Largest(bodies[j].extents, chunks))
    decreases |bodies|
  {
    hide BodyBytes, Largest;
    var rest, front := bodies[..j] + bodies[j + 1..], bodies[..|bodies| - 1];
    if j == |bodies| - 1 {
      assert rest == front;
    } else {
      NeedWithout(front, j, chunks);
      assert rest[..|rest| - 1] == front[..j] + front[j + 1..];
      assert rest[|rest| - 1] == bodies[|bodies| - 1];
    }
  }

  lemma {:induction false} TakeOut(a: seq<Body>, b: seq<Body>) returns (j: nat)
    requires a != [] && multiset(a) == multiset(b)
    ensures j < |b| && b[j] == a[|a| - 1]
    ensures multiset(a[..|a| - 1]) == multiset(b[..j] + b[j + 1..])
  {
    var front, last := a[..|a| - 1], a[|a| - 1];
    assert a == front + [last];
    assert last in multiset(a);
    assert last in b;
    j :| 0 <= j < |b| && b[j] == last;
    assert b == b[..j] + [last] + b[j + 1..];
    calc {
      multiset(front);
      multiset(front + [last]) - multiset{last};
      multiset(b[..j]) + multiset{last} + multiset(b[j + 1..]) - multiset{last};
      multiset(b[..j] + b[j + 1..]);
    }
  }

  /** The need depends on which bodies there are, not on their order. */
  lemma {:induction false} NeedOfSameBodies(a: seq<Body>, b: seq<Body>, chunks: map<Hash, Chunk>)
    requires multiset(a) == multiset(b)
    ensures Needed(a, chunks) == Needed(b, chunks)
    ensures BytesTotal(a) == BytesTotal(b)
    decreases |a|
  {
    hide BodyBytes, Largest;
    if a == [] {
      assert |multiset(b)| == 0;
    } else {
      var front := a[..|a| - 1];
      var j := TakeOut(a, b);
      NeedOfSameBodies(front, b[..j] + b[j + 1..], chunks);
      NeedWithout(b, j, chunks);
    }
  }

  lemma {:induction false} PlansHoldSameBodies(p: Plan, q: Plan, facts: multiset<Fact>)
    requires Planned(p, facts) && Planned(q, facts)
    ensures multiset(p.bodies) == multiset(q.bodies)
  {
    forall b ensures multiset(p.bodies)[b] == multiset(q.bodies)[b] {
    }
  }

  ghost predicate BodiesOk(bodies: seq<Body>) {
    forall i :: 0 <= i < |bodies| ==> Tiles(bodies[i].extents) && bodies[i].len == End(bodies[i].extents)
  }

  lemma {:induction false} PlannedBodiesOk(rootMeta: NodeMeta, root: Node, plan: Plan)
    requires Plans(rootMeta, root) && Planned(plan, AllFacts(rootMeta, root))
    ensures BodiesOk(plan.bodies)
  {
    hide AllFacts, Tiles, Plans;
    PlannedBodiesTile(rootMeta, root);
    forall i | 0 <= i < |plan.bodies|
      ensures Tiles(plan.bodies[i].extents) && plan.bodies[i].len == End(plan.bodies[i].extents)
    {
      assert plan.bodies[i] in multiset(plan.bodies);
      assert BodyFact(plan.bodies[i]) in AllFacts(rootMeta, root);
    }
  }

  /**
   * `restore_needed`: for every tree that plans, the need of any plan of it, capped at 64 bits;
   * a tree that does not plan is refused as a restore of it would be.
   */
  method RestoreNeeded(a: Archive) returns (r: Result<nat>)
    ensures r.Ok? <==> Plans(a.rootMeta, a.manifest)
    ensures r.Err? ==> TreeWalk(a.rootMeta, a.manifest) == Err(r.error)
    ensures r.Ok? ==> forall p :: Planned(p, AllFacts(a.rootMeta, a.manifest)) ==>
      r.value == Min(Needed(p.bodies, Index(a.chunks)), U64_MAX)
  {
    hide Planned, Plans, AllFacts, Needed, Index, TreeWalk;
    var plan := PlanTree(a.rootMeta, a.manifest);
    if plan.Err? {
      return Err(plan.error);
    }
    var chunks := ChunkIndex(a.chunks);
    PlannedBodiesOk(a.rootMeta, a.manifest, plan.value);
    BodiesFit(plan.value.bodies);
    var needed := NeededBytes(plan.value.bodies, chunks);
    forall p | Planned(p, AllFacts(a.rootMeta, a.manifest))
      ensures Needed(p.bodies, chunks) == Needed(plan.value.bodies, chunks)
    {
      PlansHoldSameBodies(p, plan.value, AllFacts(a.rootMeta, a.manifest));
      NeedOfSameBodies(p.bodies, plan.value.bodies, chunks);
    }
    return Ok(if needed.Some? then needed.value else U64_MAX);
  }

  lemma {:induction false} BodiesFit(bodies: seq<Body>)
    requires BodiesOk(bodies)
    ensures forall i :: 0 <= i < |bodies| ==> bodies[i].len <= U64_MAX
  {
  }

  // ------------------------------------------------------------------ buffers

  /** The buffers of the non-hole extents. */
  function DataPieces(es: seq<Extent>, ps: seq<Bytes>): seq<Bytes>
    requires |es| == |ps|
  {
    if es == [] then [] else
    var front := DataPieces(es[..|es| - 1], ps[..|ps| - 1]);
    if es[|es| - 1].chunk == HOLE then front else front + [ps[|ps| - 1]]
  }

  /** How many of the extents hold data. */
  function Rank(es: seq<Extent>): nat {
    if es == [] then 0 else Rank(es[..|es| - 1]) + if es[|es| - 1].chunk == HOLE then 0 else 1
  }

  /** A body's buffers when its extents read `ps`: a file's pieces, or one value. */
  function Buffers(b: Body, ps: seq<Bytes>): seq<Bytes>
    requires |ps| == |b.extents|
  {
    if IsSparse(b) then DataPieces(b.extents, ps) else [Concat(ps)]
  }

  /** Every extent reading zeros. */
  function Blank(es: seq<Extent>): seq<Bytes> { PiecesOf(map[], es) }

  lemma {:induction false} BlankConcat(es: seq<Extent>)
    ensures Concat(Blank(es)) == Zeros(End(es))
  {
    if es != [] {
      var front := es[..|es| - 1];
      BlankConcat(front);
      assert Blank(es)[..|es| - 1] == Blank(front);
    }
  }

  lemma {:induction false} BlankLength(es: seq<Extent>)
    ensures |Blank(es)| == |es| && DataPieces(es[..0], Blank(es)[..0]) == []
  {
  }

  lemma {:induction false} BlankPiece(es: seq<Extent>, i: nat)
    requires i < |es|
    ensures |Blank(es)| == |es|
    ensures DataPieces(es[..i + 1], Blank(es)[..i + 1]) ==
      DataPieces(es[..i], Blank(es)[..i]) + if es[i].chunk == HOLE then [] else [Zeros(es[i].len)]
  {
    hide Zeros;
    assert es[..i + 1][..i] == es[..i] && Blank(es)[..i + 1][..i] == Blank(es)[..i];
  }

  /** One body's buffers, each reserved fallibly. */
  method AllocateBody(b: Body, alloc: nat -> bool, refusal: Refusal) returns (r: Result<seq<Bytes>>)
    requires b.len == End(b.extents)
    ensures r.Ok? ==> r.value == Buffers(b, Blank(b.extents))
    ensures r.Err? ==> r.error == refusal
    ensures (forall k :: alloc(k)) ==> r.Ok?
  {
    hide Zeros, DataPieces, Concat, Blank;
    if !IsSparse(b) {
      BlankConcat(b.extents);
      if !alloc(0) {
        return Err(refusal);
      }
      return Ok([Zeros(b.len)]);
    }
    var out: seq<Bytes> := [];
    var es := b.extents;
    BlankLength(es);
    for i := 0 to |es|
      invariant out == DataPieces(es[..i], Blank(es)[..i])
    {
      BlankPiece(es, i);
      if es[i].chunk != HOLE {
        if !alloc(|out|) {
          return Err(refusal);
        }
        out := out + [Zeros(es[i].len)];
      }
    }
    assert es[..|es|] == es && Blank(es)[..|es|] == Blank(es);
    return Ok(out);
  }

  ghost predicate HoldingSizes(bodies: seq<Body>, pieces: seq<seq<Bytes>>) {
    |pieces| == |bodies| && forall i :: 0 <= i < |bodies| ==> |pieces[i]| == |bodies[i].extents|
  }

  /** The buffers hold what the extents of each body read. */
  ghost predicate Holding(bodies: seq<Body>, outputs: seq<seq<Bytes>>, pieces: seq<seq<Bytes>>) {
    && |outputs| == |pieces| == |bodies|
    && forall i :: 0 <= i < |bodies| ==>
      && |pieces[i]| == |bodies[i].extents|
      && Sized(bodies[i].extents, pieces[i])
      && outputs[i] == Buffers(bodies[i], pieces[i])
  }

  predicate DueIn(done: set<Hash>, e: Extent) { e.chunk == HOLE || e.chunk in done }

  /** Holes read zeros, and every extent naming a chunk of `done` lies inside it with its slice in its buffer. */
  ghost predicate Settled(store: Store, bodies: seq<Body>, pieces: seq<seq<Bytes>>, done: set<Hash>)
    requires HoldingSizes(bodies, pieces)
  {
    forall i, x :: 0 <= i < |bodies| && 0 <= x < |bodies[i].extents| && DueIn(done, bodies[i].extents[x]) ==>
      Reads(store, bodies[i].extents[x]) && pieces[i][x] == PieceOf(store, bodies[i].extents[x])
  }

  method Allocate(bodies: seq<Body>, alloc: (nat, nat) -> bool, refusal: Refusal, ghost store: Store)
    returns (r: Result<seq<seq<Bytes>>>, ghost pieces: seq<seq<Bytes>>)
    requires BodiesOk(bodies)
    ensures r.Ok? ==> Holding(bodies, r.value, pieces) && Settled(store, bodies, pieces, {})
    ensures r.Err? ==> r.error == refusal
    ensures (forall i, k :: alloc(i, k)) ==> r.Ok?
  {
    hide Tiles, Buffers, PiecesOf;
    var outputs: seq<seq<Bytes>> := [];
    pieces := [];
    for i := 0 to |bodies|
      invariant |outputs| == |pieces| == i
      invariant forall j :: 0 <= j < i ==> pieces[j] == Blank(bodies[j].extents)
      invariant forall j :: 0 <= j < i ==> outputs[j] == Buffers(bodies[j], pieces[j])
    {
      var own := AllocateBody(bodies[i], (k: nat) => alloc(i, k), refusal);
      if own.Err? {
        return Err(own.error), [];
      }
      outputs := outputs + [own.value];
      pieces := pieces + [Blank(bodies[i].extents)];
    }
    return Ok(outputs), pieces;
  }

  // --------------------------------------------------------------- references

  /** Where one extent's data lands: its body, its buffer there, and which extent it is. */
  datatype Ref = Ref(body: nat, buffer: nat, index: nat)

  type References = map<Hash, seq<Ref>>

  predicate Named(bodies: seq<Body>, i: int, x: int) {
    0 <= i < |bodies| && 0 <= x < |bodies[i].extents| && bodies[i].extents[x].chunk != HOLE
  }

  function RefFor(bodies: seq<Body>, i: nat, x: nat): Ref
    requires Named(bodies, i, x)
  {
    Ref(i, if IsSparse(bodies[i]) then Rank(bodies[i].extents[..x]) else 0, x)
  }

  predicate Recorded(bodies: seq<Body>, refs: References, i: nat, x: nat)
    requires Named(bodies, i, x)
  {
    var c := bodies[i].extents[x].chunk;
    c in refs && RefFor(bodies, i, x) in refs[c]
  }

  ghost predicate AllRecorded(bodies: seq<Body>, refs: References) {
    forall i, x :: Named(bodies, i, x) ==> Recorded(bodies, refs, i, x)
  }

  /** Every recorded reference is some extent's. */
  ghost predicate OnlyNamed(bodies: seq<Body>, refs: References) {
    && (forall id :: id in refs ==> refs[id] != [])
    && forall id, k :: id in refs && 0 <= k < |refs[id]| ==>
      var ref := refs[id][k];
      && Named(bodies, ref.body, ref.index)
      && ref == RefFor(bodies, ref.body, ref.index)
      && bodies[ref.body].extents[ref.index].chunk == id
  }

  method ReferenceBody(bodies: seq<Body>, i: nat, refs0: References) returns (refs: References)
    requires i < |bodies| && OnlyNamed(bodies, refs0)
    ensures OnlyNamed(bodies, refs)
    ensures forall j, x :: Named(bodies, j, x) && Recorded(bodies, refs0, j, x) ==> Recorded(bodies, refs, j, x)
    ensures forall x :: Named(bodies, i, x) ==> Recorded(bodies, refs, i, x)
  {
    hide Rank, OnlyNamed, Recorded;
    refs := refs0;
    var es := bodies[i].extents;
    var piece := 0;
    assert es[..0] == [];
    RankSnoc(es);
    for x := 0 to |es|
      invariant piece == Rank(es[..x])
      invariant OnlyNamed(bodies, refs)
      invariant forall j, y :: Named(bodies, j, y) && Recorded(bodies, refs0, j, y) ==> Recorded(bodies, refs, j, y)
      invariant forall y :: 0 <= y < x && Named(bodies, i, y) ==> Recorded(bodies, refs, i, y)
    {
      var c := es[x].chunk;
      if c != HOLE {
        var ref := Ref(i, if IsSparse(bodies[i]) then piece else 0, x);
        assert Named(bodies, i, x) && ref == RefFor(bodies, i, x);
        OneMoreReference(bodies, refs, i, x);
        refs := refs[c := (if c in refs then refs[c] else []) + [ref]];
        piece := piece + 1;
      }
    }
  }

  lemma {:induction false} OneMoreReference(bodies: seq<Body>, refs: References, i: nat, x: nat)
    requires OnlyNamed(bodies, refs) && Named(bodies, i, x)
    ensures var c := bodies[i].extents[x].chunk;
      var more := refs[c := (if c in refs then refs[c] else []) + [RefFor(bodies, i, x)]];
      && OnlyNamed(bodies, more) && Recorded(bodies, more, i, x)
      && forall j, y :: Named(bodies, j, y) && Recorded(bodies, refs, j, y) ==> Recorded(bodies, more, j, y)
  {
    hide Rank;
  }

  lemma {:induction false} RankSnoc(es: seq<Extent>)
    ensures Rank([]) == 0
    ensures forall x :: 0 <= x < |es| ==> Rank(es[..x + 1]) == Rank(es[..x]) + if es[x].chunk == HOLE then 0 else 1
  {
    forall x | 0 <= x < |es| ensures Rank(es[..x + 1]) == Rank(es[..x]) + if es[x].chunk == HOLE then 0 else 1 {
      assert es[..x + 1][..x] == es[..x];
    }
  }

  method BuildReferences(bodies: seq<Body>) returns (refs: References)
    ensures OnlyNamed(bodies, refs)
    ensures AllRecorded(bodies, refs)
  {
    hide OnlyNamed, Recorded;
    refs := map[];
    assert OnlyNamed(bodies, refs) by { NoReferences(bodies); }
    for i := 0 to |bodies|
      invariant OnlyNamed(bodies, refs)
      invariant forall j, x :: 0 <= j < i && Named(bodies, j, x) ==> Recorded(bodies, refs, j, x)
    {
      refs := ReferenceBody(bodies, i, refs);
    }
  }

  lemma {:induction false} NoReferences(bodies: seq<Body>)
    ensures OnlyNamed(bodies, map[])
  {
  }

  // --------------------------------------------------------------------- fill

  /** `fill_extent`: the extent's slice of the chunk copied at `at`; refused when either range is not there. */
  function FillExtent(out: Bytes, e: Extent, content: Bytes, at: nat): Result<Bytes> {
    if e.chunkOffset + e.len > |content| || at + e.len > |out| then Err(BadLength)
    else Ok(out[..at] + content[e.chunkOffset..e.chunkOffset + e.len] + out[at + e.len..])
  }

  lemma {:induction false} DataPiecesAt(es: seq<Extent>, ps: seq<Bytes>, x: nat, q: Bytes)
    requires |es| == |ps| && x < |es| && es[x].chunk != HOLE
    ensures Rank(es[..x]) < |DataPieces(es, ps)| && DataPieces(es, ps)[Rank(es[..x])] == ps[x]
    ensures DataPieces(es, ps[x := q]) == DataPieces(es, ps)[Rank(es[..x]) := q]
    decreases |es|
  {
    var n := |es| - 1;
    DataPiecesLength(es[..n], ps[..n]);
    if x == n {
      assert ps[x := q][..n] == ps[..n];
    } else {
      DataPiecesAt(es[..n], ps[..n], x, q);
      assert es[..n][..x] == es[..x];
      assert ps[x := q][..n] == ps[..n][x := q];
    }
  }

  lemma {:induction false} DataPiecesLength(es: seq<Extent>, ps: seq<Bytes>)
    requires |es| == |ps|
    ensures |DataPieces(es, ps)| == Rank(es)
  {
    if es != [] {
      DataPiecesLength(es[..|es| - 1], ps[..|ps| - 1]);
    }
  }

  /** Filling one reference settles its extent, exactly when the extent lies inside its chunk. */
  method FillRef(b: Body, buffers: seq<Bytes>, ghost ps: seq<Bytes>, ref: Ref, content: Bytes, ghost store: Store)
    returns (r: Result<seq<Bytes>>)
    requires Tiles(b.extents) && Sized(b.extents, ps) && buffers == Buffers(b, ps)
    requires ref.index < |b.extents| && b.extents[ref.index].chunk != HOLE
    requires ref.buffer == if IsSparse(b) then Rank(b.extents[..ref.index]) else 0
    requires b.extents[ref.index].chunk in store && store[b.extents[ref.index].chunk] == content
    ensures r.Ok? <==> Reads(store, b.extents[ref.index])
    ensures r.Ok? ==> r.value == Buffers(b, ps[ref.index := PieceOf(store, b.extents[ref.index])])
    ensures r.Err? ==> r.error == BadLength
  {
    hide DataPieces, Rank, Concat;
    var e := b.extents[ref.index];
    ghost var q := PieceOf(store, e);
    assert ExtentTiles(b.extents, ref.index);
    if IsSparse(b) {
      DataPiecesAt(b.extents, ps, ref.index, q);
    } else {
      assert Sized(b.extents[..ref.index], ps[..ref.index]);
      ConcatLength(b.extents[..ref.index], ps[..ref.index]);
      ConcatUpdate(ps, ref.index, q);
    }
    var filled := FillExtent(buffers[ref.buffer], e, content, if IsSparse(b) then 0 else e.offset);
    if filled.Err? {
      return Err(filled.error);
    }
    assert IsSparse(b) ==> filled.value == q;
    assert !IsSparse(b) ==> filled.value == Concat(ps[ref.index := q]);
    return Ok(buffers[ref.buffer := filled.value]);
  }

  ghost predicate Outside(store: Store, bodies: seq<Body>, id: Hash) {
    exists i, x :: Named(bodies, i, x) && bodies[i].extents[x].chunk == id && !Reads(store, bodies[i].extents[x])
  }

  lemma {:induction false} SettleOne(
    store: Store, bodies: seq<Body>, pieces: seq<seq<Bytes>>, done: set<Hash>, ref: Ref)
    requires HoldingSizes(bodies, pieces)
    requires Settled(store, bodies, pieces, done) && Named(bodies, ref.body, ref.index)
    ensures Settled(store, bodies,
                    pieces[ref.body :=
                             pieces[ref.body][ref.index := PieceOf(store, bodies[ref.body].extents[ref.index])]],
                    done)
  {
  }

  /** One decoded chunk copied to every extent that names it. */
  method FillChunk(bodies: seq<Body>, refs: References, id: Hash, content: Bytes, outputs0: seq<seq<Bytes>>,
                   ghost pieces0: seq<seq<Bytes>>, ghost store: Store, ghost done: set<Hash>)
    returns (r: Result<seq<seq<Bytes>>>, ghost pieces: seq<seq<Bytes>>)
    requires BodiesOk(bodies) && Holding(bodies, outputs0, pieces0) && Settled(store, bodies, pieces0, done)
    requires OnlyNamed(bodies, refs) && AllRecorded(bodies, refs)
    requires id in refs && id in store && store[id] == content
    ensures r.Ok? <==> !Outside(store, bodies, id)
    ensures r.Ok? ==> Holding(bodies, r.value, pieces) && Settled(store, bodies, pieces, done + {id})
    ensures r.Err? ==> r.error == BadLength
  {
    hide Tiles, Buffers, PieceOf, Reads, Sized, Rank, Settled;
    var outputs := outputs0;
    pieces := pieces0;
    var list := refs[id];
    for k := 0 to |list|
      invariant Holding(bodies, outputs, pieces)
      invariant Settled(store, bodies, pieces, done)
      invariant forall j :: 0 <= j < k ==> RefSettled(store, bodies, pieces, list[j])
    {
      var ref := list[k];
      var b := bodies[ref.body];
      ghost var e := b.extents[ref.index];
      var filled := FillRef(b, outputs[ref.body], pieces[ref.body], ref, content, store);
      if filled.Err? {
        assert Named(bodies, ref.body, ref.index) && !Reads(store, bodies[ref.body].extents[ref.index]);
        return Err(filled.error), pieces;
      }
      SettleOne(store, bodies, pieces, done, ref);
      SizedUpdate(b.extents, pieces[ref.body], ref.index, PieceOf(store, e));
      SettledKept(store, bodies, pieces, list[..k], ref);
      pieces := pieces[ref.body := pieces[ref.body][ref.index := PieceOf(store, e)]];
      outputs := outputs[ref.body := filled.value];
    }
    AllSettled(store, bodies, pieces, done, refs, id);
    return Ok(outputs), pieces;
  }

  ghost predicate RefSettled(store: Store, bodies: seq<Body>, pieces: seq<seq<Bytes>>, ref: Ref) {
    && |pieces| == |bodies| && Named(bodies, ref.body, ref.index)
    && ref.index < |pieces[ref.body]|
    && Reads(store, bodies[ref.body].extents[ref.index])
    && pieces[ref.body][ref.index] == PieceOf(store, bodies[ref.body].extents[ref.index])
  }

  lemma {:induction false} SizedUpdate(es: seq<Extent>, ps: seq<Bytes>, x: nat, q: Bytes)
    requires Sized(es, ps) && x < |es| && |q| == es[x].len
    ensures Sized(es, ps[x := q])
  {
  }

  lemma {:induction false} SettledKept(
    store: Store, bodies: seq<Body>, pieces: seq<seq<Bytes>>, list: seq<Ref>, ref: Ref)
    requires |pieces| == |bodies| && Named(bodies, ref.body, ref.index)
    requires forall i :: 0 <= i < |bodies| ==> |pieces[i]| == |bodies[i].extents|
    requires forall j :: 0 <= j < |list| ==> RefSettled(store, bodies, pieces, list[j])
    ensures var piece := PieceOf(store, bodies[ref.body].extents[ref.index]);
      var after := pieces[ref.body := pieces[ref.body][ref.index := piece]];
      forall j :: 0 <= j < |list| ==> RefSettled(store, bodies, after, list[j])
  {
  }

  lemma {:induction false} AllSettled(
    store: Store, bodies: seq<Body>, pieces: seq<seq<Bytes>>, done: set<Hash>, refs: References, id: Hash)
    requires HoldingSizes(bodies, pieces)
    requires Settled(store, bodies, pieces, done) && id in refs
    requires AllRecorded(bodies, refs)
    requires forall j :: 0 <= j < |refs[id]| ==> RefSettled(store, bodies, pieces, refs[id][j])
    requires OnlyNamed(bodies, refs)
    ensures Settled(store, bodies, pieces, done + {id}) && !Outside(store, bodies, id)
  {
    hide Rank;
    forall i, x | Named(bodies, i, x) && bodies[i].extents[x].chunk == id
      ensures Reads(store, bodies[i].extents[x]) && pieces[i][x] == PieceOf(store, bodies[i].extents[x])
    {
      assert Recorded(bodies, refs, i, x);
      var j :| 0 <= j < |refs[id]| && refs[id][j] == RefFor(bodies, i, x);
    }
    var ref := refs[id][0];
    assert id != HOLE;
  }

  /** The distinct chunks the bodies name. */
  ghost predicate NamedChunks(bodies: seq<Body>, ids: set<Hash>) {
    && (forall id :: id in ids ==> exists i, x :: Named(bodies, i, x) && bodies[i].extents[x].chunk == id)
    && (forall i, x :: Named(bodies, i, x) ==> bodies[i].extents[x].chunk in ids)
  }

  lemma {:induction false} ReferencesAreNamed(bodies: seq<Body>, refs: References)
    requires OnlyNamed(bodies, refs) && AllRecorded(bodies, refs)
    ensures NamedChunks(bodies, refs.Keys)
  {
    hide Rank, RefFor;
    forall id | id in refs ensures exists i, x :: Named(bodies, i, x) && bodies[i].extents[x].chunk == id {
      var ref := refs[id][0];
      assert Named(bodies, ref.body, ref.index) && bodies[ref.body].extents[ref.index].chunk == id;
    }
    forall i, x | Named(bodies, i, x) ensures bodies[i].extents[x].chunk in refs {
      assert Recorded(bodies, refs, i, x);
    }
  }

  /** What keeps a restore from filling its buffers. */
  ghost predicate Unfillable(C: Codecs, chunks: map<Hash, Chunk>, bodies: seq<Body>, error: Refusal) {
    exists i, x :: Named(bodies, i, x) &&
      var e := bodies[i].extents[x];
      if e.chunk !in chunks then error == MissingChunk
      else if Content(C, chunks[e.chunk]).Err? then error == Content(C, chunks[e.chunk]).error
      else !Reads(Contents(C, chunks), e) && error == BadLength
  }

  ghost predicate NamesChunk(bodies: seq<Body>, id: Hash) {
    exists i, x :: Named(bodies, i, x) && bodies[i].extents[x].chunk == id
  }

  /** Why a chunk stops a restore, if it does: missing, not decoded, or shorter than an extent of it. */
  ghost function Blocked(C: Codecs, chunks: map<Hash, Chunk>, bodies: seq<Body>, id: Hash): Option<Refusal> {
    if id !in chunks then Some(MissingChunk)
    else if Content(C, chunks[id]).Err? then Some(Content(C, chunks[id]).error)
    else if Outside(Contents(C, chunks), bodies, id) then Some(BadLength) else None
  }

  /** The refusal is that of the first chunk, by identity, that stops the restore. */
  ghost predicate FirstUnfillable(C: Codecs, chunks: map<Hash, Chunk>, bodies: seq<Body>, error: Refusal) {
    exists id: Hash ::
      NamesChunk(bodies, id) && Blocked(C, chunks, bodies, id) == Some(error) && NoneBefore(C, chunks, bodies, id)
  }

  ghost predicate NoneBefore(C: Codecs, chunks: map<Hash, Chunk>, bodies: seq<Body>, id: Hash) {
    forall other: Hash :: NamesChunk(bodies, other) && Less(other, id) ==> Blocked(C, chunks, bodies, other).None?
  }

  /** So it is one refusal. */
  lemma {:induction false} FirstUnfillableOnce(
    C: Codecs, chunks: map<Hash, Chunk>, bodies: seq<Body>, a: Refusal, b: Refusal)
    requires FirstUnfillable(C, chunks, bodies, a) && FirstUnfillable(C, chunks, bodies, b)
    ensures a == b
  {
    hide Blocked, NamesChunk, Less;
    var i: Hash :|
      NamesChunk(bodies, i) && Blocked(C, chunks, bodies, i) == Some(a) && NoneBefore(C, chunks, bodies, i);
    var j: Hash :|
      NamesChunk(bodies, j) && Blocked(C, chunks, bodies, j) == Some(b) && NoneBefore(C, chunks, bodies, j);
    LessTotal(i, j);
  }

  lemma {:induction false} FirstIsUnfillable(C: Codecs, chunks: map<Hash, Chunk>, bodies: seq<Body>, error: Refusal)
    requires FirstUnfillable(C, chunks, bodies, error)
    ensures Unfillable(C, chunks, bodies, error) && !Readable(Contents(C, chunks), bodies)
  {
    hide Unfillable, Readable, Content, Outside, NoneBefore, Contents;
    var id: Hash :|
      NamesChunk(bodies, id) && Blocked(C, chunks, bodies, id) == Some(error) && NoneBefore(C, chunks, bodies, id);
    Blocks(C, chunks, bodies, id, error);
  }

  lemma {:induction false} UnfillableWithinBudget(
    C: Codecs, chunks: map<Hash, Chunk>, bodies: seq<Body>, error: Refusal)
    requires Unfillable(C, chunks, bodies, error)
    ensures !error.OverBudget?
  {
  }

  ghost predicate Readable(store: Store, bodies: seq<Body>) {
    forall i, x :: Named(bodies, i, x) ==> Reads(store, bodies[i].extents[x])
  }

  /** A chunk that is missing, does not decode or is shorter than some extent of it stops the restore. */
  lemma {:induction false} Blocks(
    C: Codecs, chunks: map<Hash, Chunk>, bodies: seq<Body>, id: Hash, error: Refusal)
    requires NamesChunk(bodies, id) && Blocked(C, chunks, bodies, id) == Some(error)
    ensures Unfillable(C, chunks, bodies, error) && !Readable(Contents(C, chunks), bodies)
  {
    hide Content;
    var i, x :| Named(bodies, i, x) && bodies[i].extents[x].chunk == id;
    if id in chunks && Content(C, chunks[id]).Ok? {
      i, x :| Named(bodies, i, x) && bodies[i].extents[x].chunk == id
        && !Reads(Contents(C, chunks), bodies[i].extents[x]);
    }
    assert !Reads(Contents(C, chunks), bodies[i].extents[x]);
  }

  /** One named chunk looked up, decoded and copied to every extent that names it. */
  method FillOne(C: Codecs, chunks: map<Hash, Chunk>, bodies: seq<Body>, refs: References, id: Hash,
                 outputs: seq<seq<Bytes>>, ghost pieces0: seq<seq<Bytes>>, ghost done: set<Hash>)
    returns (r: Result<seq<seq<Bytes>>>, ghost pieces: seq<seq<Bytes>>)
    requires BodiesOk(bodies) && Holding(bodies, outputs, pieces0) && HoldingSizes(bodies, pieces0)
    requires Settled(Contents(C, chunks), bodies, pieces0, done)
    requires OnlyNamed(bodies, refs) && AllRecorded(bodies, refs) && NamedChunks(bodies, refs.Keys) && id in refs
    ensures r.Ok? ==> Holding(bodies, r.value, pieces) && HoldingSizes(bodies, pieces)
    ensures r.Ok? ==> Settled(Contents(C, chunks), bodies, pieces, done + {id})
    ensures Blocked(C, chunks, bodies, id) == if r.Ok? then None else Some(r.error)
  {
    hide Content, Settled, OnlyNamed, Holding, Outside, HoldingSizes, AllRecorded, NamedChunks, BodiesOk;
    ghost var store := Contents(C, chunks);
    pieces := pieces0;
    if id !in chunks {
      return Err(MissingChunk), pieces;
    }
    var content := Content(C, chunks[id]);
    if content.Err? {
      return Err(content.error), pieces;
    }
    r, pieces := FillChunk(bodies, refs, id, content.value, outputs, pieces, store, done);
    if r.Ok? {
      HoldingIsSized(bodies, r.value, pieces);
    }
  }

  method LeastIdentity(ids: set<Hash>) returns (m: Hash)
    requires ids != {}
    ensures m in ids && forall x :: x in ids ==> x == m || Less(m, x)
  {
    hide Less;
    m :| m in ids;
    var rest := ids - {m};
    while rest != {}
      invariant m in ids && rest <= ids && forall x :: x in ids && x !in rest ==> x == m || Less(m, x)
      decreases rest
    {
      var x :| x in rest;
      if Less(x, m) {
        forall y | y in ids && y !in rest && y != m ensures Less(x, y) {
          LessTransitive(x, m, y);
        }
        m := x;
      } else {
        LessTotal(m, x);
      }
      rest := rest - {x};
    }
  }

  /** What is done and what is to do are the named chunks, and nothing done stopped the restore. */
  ghost predicate InTurn(
    C: Codecs, chunks: map<Hash, Chunk>, bodies: seq<Body>, done: set<Hash>, todo: set<Hash>)
  {
    && NamedChunks(bodies, done + todo)
    && forall d :: d in done ==> Blocked(C, chunks, bodies, d).None?
  }

  lemma {:induction false} FirstInTurn(
    C: Codecs, chunks: map<Hash, Chunk>, bodies: seq<Body>, done: set<Hash>, todo: set<Hash>, id: Hash)
    requires InTurn(C, chunks, bodies, done, todo) && id in todo && forall x :: x in todo ==> x == id || Less(id, x)
    ensures NamesChunk(bodies, id) && NoneBefore(C, chunks, bodies, id)
    ensures Blocked(C, chunks, bodies, id).None? ==> InTurn(C, chunks, bodies, done + {id}, todo - {id})
  {
    hide Blocked, Less;
    forall other: Hash | NamesChunk(bodies, other) && Less(other, id) ensures other in done {
      assert other in done + todo;
      if other in todo {
        LessStrict(other, id);
      }
    }
    assert done + {id} + (todo - {id}) == done + todo;
  }

  lemma {:induction false} LessStrict(a: Bytes, b: Bytes)
    requires Less(a, b)
    ensures a != b && !Less(b, a)
  {
    hide Less;
    LessIrreflexive(a);
    if Less(b, a) {
      LessTransitive(a, b, a);
    }
  }

  /** Each named chunk decoded once, by ascending identity, to the first that stops the restore. */
  method FillAll(C: Codecs, chunks: map<Hash, Chunk>, bodies: seq<Body>, outputs0: seq<seq<Bytes>>,
                 ghost pieces0: seq<seq<Bytes>>)
    returns (r: Result<seq<seq<Bytes>>>, decoded: nat, ghost pieces: seq<seq<Bytes>>)
    requires BodiesOk(bodies) && Holding(bodies, outputs0, pieces0)
    requires Settled(Contents(C, chunks), bodies, pieces0, {})
    ensures r.Ok? <==> Readable(Contents(C, chunks), bodies)
    ensures r.Ok? ==> Holding(bodies, r.value, pieces)
    ensures r.Ok? ==> forall i :: 0 <= i < |bodies| ==> pieces[i] == PiecesOf(Contents(C, chunks), bodies[i].extents)
    ensures r.Ok? ==> exists ids :: NamedChunks(bodies, ids) && decoded == Min(|ids|, U64_MAX)
    ensures r.Err? ==> FirstUnfillable(C, chunks, bodies, r.error)
  {
    hide PieceOf, Contents, Settled, OnlyNamed, Holding, Readable, PiecesOf, HoldingSizes, AllRecorded, NamedChunks,
      BodiesOk, Blocked, NamesChunk, NoneBefore, InTurn, Less;
    ghost var store := Contents(C, chunks);
    var refs := BuildReferences(bodies);
    ReferencesAreNamed(bodies, refs);
    var outputs := outputs0;
    pieces := pieces0;
    decoded := 0;
    var todo := refs.Keys;
    ghost var done: set<Hash> := {};
    HoldingIsSized(bodies, outputs, pieces);
    AllToDo(C, chunks, bodies, todo);
    while todo != {}
      invariant InTurn(C, chunks, bodies, done, todo)
      invariant Holding(bodies, outputs, pieces)
      invariant HoldingSizes(bodies, pieces) && Settled(store, bodies, pieces, done)
      invariant todo <= refs.Keys && done == refs.Keys - todo
      invariant decoded == Min(|refs.Keys| - |todo|, U64_MAX)
      decreases todo
    {
      var id := LeastIdentity(todo);
      FirstInTurn(C, chunks, bodies, done, todo, id);
      var filled;
      filled, pieces := FillOne(C, chunks, bodies, refs, id, outputs, pieces, done);
      if filled.Err? {
        FirstIsUnfillable(C, chunks, bodies, filled.error);
        return Err(filled.error), decoded, pieces;
      }
      decoded := Min(decoded + 1, U64_MAX);
      outputs := filled.value;
      todo := todo - {id};
      done := done + {id};
    }
    assert done == refs.Keys;
    SettledAll(store, bodies, pieces, done);
    HoldingIsSized(bodies, outputs, pieces);
    assert NamedChunks(bodies, refs.Keys) && decoded == Min(|refs.Keys|, U64_MAX);
    return Ok(outputs), decoded, pieces;
  }

  lemma {:induction false} AllToDo(C: Codecs, chunks: map<Hash, Chunk>, bodies: seq<Body>, todo: set<Hash>)
    requires NamedChunks(bodies, todo)
    ensures InTurn(C, chunks, bodies, {}, todo)
  {
    assert {} + todo == todo;
  }

  lemma {:induction false} HoldingIsSized(bodies: seq<Body>, outputs: seq<seq<Bytes>>, pieces: seq<seq<Bytes>>)
    requires Holding(bodies, outputs, pieces)
    ensures HoldingSizes(bodies, pieces) && |pieces| == |bodies|
  {
  }

  lemma {:induction false} SettledAll(store: Store, bodies: seq<Body>, pieces: seq<seq<Bytes>>, done: set<Hash>)
    requires HoldingSizes(bodies, pieces) && Settled(store, bodies, pieces, done)
    requires NamedChunks(bodies, done)
    ensures Readable(store, bodies)
    ensures forall i :: 0 <= i < |bodies| ==> pieces[i] == PiecesOf(store, bodies[i].extents)
  {
    hide PieceOf;
    forall i, x | 0 <= i < |bodies| && 0 <= x < |bodies[i].extents|
      ensures bodies[i].extents[x].chunk == HOLE || bodies[i].extents[x].chunk in done
    {
      assert bodies[i].extents[x].chunk != HOLE ==> Named(bodies, i, x);
    }
  }

  // ----------------------------------------------------------------- assembly

  datatype Restored = Restored(
    files: map<Bytes, RestoredFile>, directories: set<Bytes>, metadata: map<Bytes, NodeMeta>, root: NodeMeta,
    xattrs: map<Bytes, map<Bytes, Bytes>>, chunksDecoded: nat)

  type Files = map<Bytes, RestoredFile>

  type Values = map<Bytes, map<Bytes, Bytes>>

  /** The file stands for the simple reading of the body, in as many bytes as were admitted for it. */
  ghost predicate FileDelivers(store: Store, b: Body, f: RestoredFile) {
    && f.len == b.len
    && Represents(f.pieces, Materialized(store, b.extents))
    && DataBytes(f.pieces) == ExtentData(b.extents)
  }

  ghost predicate Delivers(store: Store, b: Body, files: Files, values: Values) {
    match b.target
    case FileTarget(path) => path in files && FileDelivers(store, b, files[path])
    case XattrTarget(path, name) =>
      path in values && name in values[path] && values[path][name] == Materialized(store, b.extents)
  }

  /** Expanded, a delivered file is the simple reading of its extents, byte for byte. */
  lemma {:induction false} DenseIsMaterialized(store: Store, b: Body, f: RestoredFile, dense: Bytes)
    requires b.len == End(b.extents) && FileDelivers(store, b, f)
    requires Represents(f.pieces, dense) && |dense| == f.len
    ensures dense == Materialized(store, b.extents)
  {
    hide Represents, DataBytes, ExtentData, Concat, PiecesOf;
    SizedPieces(store, b.extents);
    ConcatLength(b.extents, PiecesOf(store, b.extents));
    RepresentsUnique(f.pieces, dense, Materialized(store, b.extents));
  }

  /** The data pieces zipped with their offsets. */
  method ZipPieces(es: seq<Extent>, buffers: seq<Bytes>, ghost ps: seq<Bytes>) returns (out: seq<Placed>)
    requires |es| == |ps| && buffers == DataPieces(es, ps)
    ensures out == RawPieces(es, ps)
  {
    out := [];
    var piece := 0;
    for x := 0 to |es|
      invariant piece == Rank(es[..x])
      invariant out == RawPieces(es[..x], ps[..x])
    {
      assert es[..x + 1][..x] == es[..x] && ps[..x + 1][..x] == ps[..x];
      if es[x].chunk != HOLE {
        DataPiecesAt(es, ps, x, ps[x]);
        out := out + [Placed(es[x].offset, buffers[piece])];
        piece := piece + 1;
      }
    }
    assert es[..|es|] == es && ps[..|ps|] == ps;
  }

  method AssembleFile(b: Body, buffers: seq<Bytes>, grow: nat -> bool, ghost store: Store) returns (f: RestoredFile)
    requires Tiles(b.extents) && IsSparse(b) && buffers == Buffers(b, PiecesOf(store, b.extents))
    ensures FileDelivers(store, b, f)
    ensures (forall k :: grow(k)) ==> Gapped(f.pieces)
  {
    hide Represents, RawPieces, PiecesOf, Tiles, DataPieces;
    ghost var ps := PiecesOf(store, b.extents);
    var raw := ZipPieces(b.extents, buffers, ps);
    RawPiecesRepresent(store, b.extents);
    RawPiecesTotal(b.extents, ps);
    var pieces := Merged(raw, grow, Materialized(store, b.extents));
    return RestoredFile(b.len, pieces);
  }

  /** No later body before `k` restores to the same place. */
  ghost predicate LastFor(bodies: seq<Body>, i: nat, k: nat)
    requires i < k <= |bodies|
  {
    forall j :: i < j < k ==> bodies[j].target != bodies[i].target
  }

  ghost predicate Merges(files: Files, bodies: seq<Body>, grow: (nat, nat) -> bool) {
    && (forall p :: p in files ==> exists i :: 0 <= i < |bodies| && bodies[i].target == FileTarget(p))
    && ((forall i, k :: grow(i, k)) ==> forall p :: p in files ==> Gapped(files[p].pieces))
  }

  ghost predicate OnlyValues(values: Values, bodies: seq<Body>) {
    forall p, name :: p in values && name in values[p] ==>
      exists i :: 0 <= i < |bodies| && bodies[i].target == XattrTarget(p, name)
  }

  ghost predicate Delivered(store: Store, bodies: seq<Body>, k: nat, files: Files, values: Values)
    requires k <= |bodies|
  {
    forall i :: 0 <= i < k && LastFor(bodies, i, k) ==> Delivers(store, bodies[i], files, values)
  }

  lemma {:induction false} LastForEarlier(bodies: seq<Body>, k: nat)
    requires k < |bodies|
    ensures forall i :: 0 <= i < k && LastFor(bodies, i, k + 1) ==>
      LastFor(bodies, i, k) && bodies[k].target != bodies[i].target
  {
  }

  lemma {:induction false} DeliverFile(
    store: Store, bodies: seq<Body>, k: nat, files: Files, values: Values, f: RestoredFile)
    requires k < |bodies| && Delivered(store, bodies, k, files, values)
    requires bodies[k].target.FileTarget? && FileDelivers(store, bodies[k], f)
    ensures Delivered(store, bodies, k + 1, files[bodies[k].target.path := f], values)
  {
    hide FileDelivers, Materialized, LastFor;
    LastForEarlier(bodies, k);
  }

  lemma {:induction false} DeliverValue(
    store: Store, bodies: seq<Body>, k: nat, files: Files, values: Values, value: Bytes)
    requires k < |bodies| && Delivered(store, bodies, k, files, values)
    requires bodies[k].target.XattrTarget? && value == Materialized(store, bodies[k].extents)
    ensures Delivered(store, bodies, k + 1, files,
                      WithValue(values, bodies[k].target.path, bodies[k].target.name, value))
  {
    hide FileDelivers, Materialized, LastFor;
    LastForEarlier(bodies, k);
  }

  function WithValue(values: Values, path: Bytes, name: Bytes, value: Bytes): Values {
    values[path := (if path in values then values[path] else map[])[name := value]]
  }

  method Assemble(bodies: seq<Body>, outputs: seq<seq<Bytes>>, grow: (nat, nat) -> bool, ghost store: Store)
    returns (files: Files, values: Values)
    requires BodiesOk(bodies) && |outputs| == |bodies|
    requires forall i :: 0 <= i < |bodies| ==> outputs[i] == Buffers(bodies[i], PiecesOf(store, bodies[i].extents))
    ensures Delivered(store, bodies, |bodies|, files, values)
    ensures Merges(files, bodies, grow) && OnlyValues(values, bodies)
  {
    hide Tiles, Gapped, Concat, PiecesOf, DataPieces, FileDelivers, Delivered;
    files, values := map[], map[];
    assert Delivered(store, bodies, 0, files, values) by { NothingDelivered(store, bodies); }
    for k := 0 to |bodies|
      invariant Delivered(store, bodies, k, files, values)
      invariant Merges(files, bodies, grow) && OnlyValues(values, bodies)
    {
      match bodies[k].target {
        case FileTarget(path) =>
          var f := AssembleFile(bodies[k], outputs[k], (j: nat) => grow(k, j), store);
          DeliverFile(store, bodies, k, files, values, f);
          files := files[path := f];
        case XattrTarget(path, name) =>
          DeliverValue(store, bodies, k, files, values, outputs[k][0]);
          values := WithValue(values, path, name, outputs[k][0]);
      }
    }
  }

  lemma {:induction false} NothingDelivered(store: Store, bodies: seq<Body>)
    ensures Delivered(store, bodies, 0, map[], map[])
  {
  }

  // ------------------------------------------------------------------ restore

  ghost predicate OnlyBody(bodies: seq<Body>, i: nat)
    requires i < |bodies|
  {
    forall j :: 0 <= j < |bodies| && j != i ==> bodies[j].target != bodies[i].target
  }

  /** Everything the archive describes is there, and nothing else. */
  ghost predicate IsRestored(C: Codecs, a: Archive, plan: Plan, v: Restored) {
    var store := Contents(C, Index(a.chunks));
    && v.directories == plan.directories && v.metadata == plan.metadata && v.root == a.rootMeta
    && (forall i :: 0 <= i < |plan.bodies| && OnlyBody(plan.bodies, i) ==>
          Delivers(store, plan.bodies[i], v.files, v.xattrs))
    && (forall p :: p in v.files ==> exists i :: 0 <= i < |plan.bodies| && plan.bodies[i].target == FileTarget(p))
    && OnlyValues(v.xattrs, plan.bodies)
    && v.chunksDecoded == Min(|Distinct(AllExtents(a.rootMeta, a.manifest))|, U64_MAX)
  }

  /**
   * `restore`. When every allocation succeeds it restores exactly the archives that plan, fit the budget and
   * whose every extent lies inside a chunk that is present and decodes.
   */
  method RestoreArchive(C: Codecs, a: Archive, budget: U64, alloc: (nat, nat) -> bool, grow: (nat, nat) -> bool)
    returns (r: Result<Restored>, ghost plan: Plan)
    ensures Plans(a.rootMeta, a.manifest) ==> Planned(plan, AllFacts(a.rootMeta, a.manifest))
    ensures r.Ok? ==> IsRestored(C, a, plan, r.value)
    ensures r.Ok? && (forall i, k :: grow(i, k)) ==> forall p :: p in r.value.files ==> Gapped(r.value.files[p].pieces)
    ensures r.Ok? ==> Admitted(C, a, plan, budget)
    ensures (forall i, k :: alloc(i, k)) && Admitted(C, a, plan, budget) ==> r.Ok?
    ensures !Plans(a.rootMeta, a.manifest) ==> r.Err? && TreeWalk(a.rootMeta, a.manifest) == Err(r.error)
    ensures Plans(a.rootMeta, a.manifest) && Min(Needed(plan.bodies, Index(a.chunks)), U64_MAX) > budget ==>
      r == Err(OverBudget(Min(Needed(plan.bodies, Index(a.chunks)), U64_MAX), budget))
    ensures r.Err? && Plans(a.rootMeta, a.manifest) ==>
      || r.error == OverBudget(Min(Needed(plan.bodies, Index(a.chunks)), U64_MAX), budget)
      || FirstUnfillable(C, Index(a.chunks), plan.bodies, r.error)
    ensures (forall i, k :: alloc(i, k)) && Plans(a.rootMeta, a.manifest) && r.Err? && r.error.OverBudget? ==>
      Min(Needed(plan.bodies, Index(a.chunks)), U64_MAX) > budget
  {
    hide Planned, Plans, AllFacts, Needed, Index, Contents, Holding, Settled, Readable, Unfillable,
      FirstUnfillable, NamedChunks, BodiesOk, Distinct, AllExtents, Delivers, LastFor, OnlyBody, Buffers, PiecesOf,
      Gapped, OnlyValues, TreeWalk;
    var planned := PlanTree(a.rootMeta, a.manifest);
    if planned.Err? {
      return Err(planned.error), Plan([], {}, map[]);
    }
    var plan' := planned.value;
    plan := plan';
    var bodies := plan'.bodies;
    var chunks := ChunkIndex(a.chunks);
    ghost var store := Contents(C, chunks);
    PlannedBodiesOk(a.rootMeta, a.manifest, plan);
    BodiesFit(bodies);
    var total := NeededBytes(bodies, chunks);
    var needed := if total.Some? then total.value else U64_MAX;
    var over := OverBudget(needed, budget);
    if needed > budget {
      return Err(over), plan;
    }
    var blank, pieces := Allocate(bodies, alloc, over, store);
    if blank.Err? {
      return Err(blank.error), plan;
    }
    var filled, decoded, pieces' := FillAll(C, chunks, bodies, blank.value, pieces);
    ReadableByPlan(store, a.rootMeta, a.manifest, plan);
    if filled.Err? {
      FirstIsUnfillable(C, chunks, bodies, filled.error);
      UnfillableWithinBudget(C, chunks, bodies, filled.error);
      return Err(filled.error), plan;
    }
    HeldBuffers(store, bodies, filled.value, pieces');
    var files, values := Assemble(bodies, filled.value, grow, store);
    OnlyIsLast(bodies);
    ghost var ids :| NamedChunks(bodies, ids) && decoded == Min(|ids|, U64_MAX);
    DecodedAreReferenced(a.rootMeta, a.manifest, plan, ids);
    return Ok(Restored(files, plan'.directories, plan'.metadata, a.rootMeta, values, decoded)), plan;
  }

  /** What a restore demands of an archive and a budget. */
  ghost predicate Admitted(C: Codecs, a: Archive, plan: Plan, budget: U64) {
    && Plans(a.rootMeta, a.manifest)
    && Min(Needed(plan.bodies, Index(a.chunks)), U64_MAX) <= budget
    && AllRead(Contents(C, Index(a.chunks)), AllExtents(a.rootMeta, a.manifest))
  }

  ghost predicate AllRead(store: Store, es: seq<Extent>) {
    forall e :: e in es ==> Reads(store, e)
  }

  lemma {:induction false} HeldBuffers(
    store: Store, bodies: seq<Body>, outputs: seq<seq<Bytes>>, pieces: seq<seq<Bytes>>)
    requires Holding(bodies, outputs, pieces)
    requires forall i :: 0 <= i < |bodies| ==> pieces[i] == PiecesOf(store, bodies[i].extents)
    ensures |outputs| == |bodies|
    ensures forall i :: 0 <= i < |bodies| ==> outputs[i] == Buffers(bodies[i], PiecesOf(store, bodies[i].extents))
  {
  }

  lemma {:induction false} OnlyIsLast(bodies: seq<Body>)
    ensures forall i :: 0 <= i < |bodies| && OnlyBody(bodies, i) ==> LastFor(bodies, i, |bodies|)
  {
  }

  lemma {:induction false} PlanHasExtent(rootMeta: NodeMeta, root: Node, plan: Plan, e: Extent)
    requires Planned(plan, AllFacts(rootMeta, root))
    ensures e in AllExtents(rootMeta, root) <==> exists i, x ::
      0 <= i < |plan.bodies| && 0 <= x < |plan.bodies[i].extents| && plan.bodies[i].extents[x] == e
  {
    hide AllFacts, AllExtents;
    PlanMentions(rootMeta, root, e);
    var facts := AllFacts(rootMeta, root);
    if Mentions(facts, e) {
      var b :| BodyFact(b) in facts && e in b.extents;
      assert b in multiset(plan.bodies);
      var i :| 0 <= i < |plan.bodies| && plan.bodies[i] == b;
      var x :| 0 <= x < |b.extents| && b.extents[x] == e;
      assert plan.bodies[i].extents[x] == e;
    }
    forall i, x | 0 <= i < |plan.bodies| && 0 <= x < |plan.bodies[i].extents| && plan.bodies[i].extents[x] == e
      ensures Mentions(facts, e)
    {
      assert plan.bodies[i] in multiset(plan.bodies);
      assert BodyFact(plan.bodies[i]) in facts;
    }
  }

  lemma {:induction false} ReadableByPlan(store: Store, rootMeta: NodeMeta, root: Node, plan: Plan)
    requires Planned(plan, AllFacts(rootMeta, root))
    ensures Readable(store, plan.bodies) <==> AllRead(store, AllExtents(rootMeta, root))
  {
    hide Planned, AllFacts, AllExtents;
    forall e | Readable(store, plan.bodies) && e in AllExtents(rootMeta, root) ensures Reads(store, e) {
      PlanHasExtent(rootMeta, root, plan, e);
      var i, x :| 0 <= i < |plan.bodies| && 0 <= x < |plan.bodies[i].extents| && plan.bodies[i].extents[x] == e;
      assert e.chunk != HOLE ==> Named(plan.bodies, i, x);
    }
    forall i, x | Named(plan.bodies, i, x) && AllRead(store, AllExtents(rootMeta, root))
      ensures Reads(store, plan.bodies[i].extents[x])
    {
      PlanHasExtent(rootMeta, root, plan, plan.bodies[i].extents[x]);
    }
  }

  /** The chunks decoded are the manifest's referenced chunks, each once. */
  lemma {:induction false} DecodedAreReferenced(rootMeta: NodeMeta, root: Node, plan: Plan, ids: set<Hash>)
    requires Planned(plan, AllFacts(rootMeta, root)) && NamedChunks(plan.bodies, ids)
    ensures |ids| == |Distinct(AllExtents(rootMeta, root))|
  {
    hide Planned, AllFacts, AllExtents, Distinct;
    var es := AllExtents(rootMeta, root);
    DistinctListsEachOnce(es);
    forall id ensures id in ids <==> id in Distinct(es) {
      if id in ids {
        var i, x :| Named(plan.bodies, i, x) && plan.bodies[i].extents[x].chunk == id;
        PlanHasExtent(rootMeta, root, plan, plan.bodies[i].extents[x]);
        assert Names(es, id);
      }
      if id in Distinct(es) {
        var k :| 0 <= k < |es| && es[k].chunk == id;
        PlanHasExtent(rootMeta, root, plan, es[k]);
        var i, x :| 0 <= i < |plan.bodies| && 0 <= x < |plan.bodies[i].extents| && plan.bodies[i].extents[x] == es[k];
        assert Named(plan.bodies, i, x);
      }
    }
    DistinctSize(Distinct(es), ids);
  }

  lemma {:induction false} DistinctSize(list: seq<Hash>, ids: set<Hash>)
    requires forall id :: id in ids <==> id in list
    requires forall i, j :: 0 <= i < j < |list| ==> list[i] != list[j]
    ensures |ids| == |list|
  {
    if list == [] {
      assert ids == {};
    } else {
      DistinctSize(list[1..], ids - {list[0]});
    }
  }

  /**
   * Of an accepted archive every body has a place of its own and every present chunk decodes, so a restore is
   * refused only for the budget, an allocation, a missing chunk or an extent past its chunk.
   */
  lemma {:induction false} AcceptedArchiveRestores(C: Codecs, a: Archive, plan: Plan)
    requires Verified(C, a) && Planned(plan, AllFacts(a.rootMeta, a.manifest))
    ensures Plans(a.rootMeta, a.manifest)
    ensures forall i :: 0 <= i < |plan.bodies| ==> OnlyBody(plan.bodies, i)
    ensures forall id :: id in Index(a.chunks) ==> id in Contents(C, Index(a.chunks))
    ensures forall e :: Unfillable(C, Index(a.chunks), plan.bodies, e) ==> e in {MissingChunk, BadLength}
  {
    hide AllFacts, Plans, Content, Canonical, MetaCanonical, Index;
    CanonicalPlans(a.rootMeta, a.manifest);
    forall i, j | 0 <= i < |plan.bodies| && 0 <= j < |plan.bodies| && j != i
      ensures plan.bodies[j].target != plan.bodies[i].target
    {
      OneBodyPerKey(plan, AllFacts(a.rootMeta, a.manifest), i, j);
    }
    forall id | id in Index(a.chunks) ensures Content(C, Index(a.chunks)[id]).Ok? {
      IndexedIsChunk(a.chunks, id);
    }
  }

  /** Byte `n` of what `es` tile: a hole's zero, or the verified content of the chunk its extent names. */
  ghost predicate ReadsByte(store: Store, es: seq<Extent>, x: nat, n: nat, byte: Byte) {
    && x < |es| && es[x].offset <= n < es[x].offset + es[x].len && Reads(store, es[x])
    && byte == if es[x].chunk == HOLE then 0 else store[es[x].chunk][es[x].chunkOffset + (n - es[x].offset)]
  }

  ghost predicate ReadsSome(store: Store, es: seq<Extent>, n: nat, byte: Byte) {
    exists x :: ReadsByte(store, es, x, n, byte)
  }

  ghost predicate ReadsBytes(store: Store, es: seq<Extent>, d: Bytes) {
    |d| == End(es) && forall n :: 0 <= n < |d| ==> ReadsSome(store, es, n, d[n])
  }

  lemma {:induction false} MaterializedReads(store: Store, es: seq<Extent>)
    requires Tiles(es) && forall x :: 0 <= x < |es| ==> Reads(store, es[x])
    ensures |Materialized(store, es)| == End(es) && ReadsBytes(store, es, Materialized(store, es))
  {
    hide Tiles, Concat, PiecesOf, End, ReadsSome, ReadsByte;
    SizedPieces(store, es);
    ConcatLength(es, PiecesOf(store, es));
    var d := Materialized(store, es);
    forall n | 0 <= n < |d| ensures ReadsSome(store, es, n, d[n]) {
      var x := ExtentAt(es, n);
      MaterializedByte(store, es, x, n - es[x].offset);
      ByteReads(store, es, x, n, d[n]);
    }
  }

  lemma {:induction false} ByteReads(store: Store, es: seq<Extent>, x: nat, n: nat, byte: Byte)
    requires x < |es| && es[x].offset <= n < es[x].offset + es[x].len && Reads(store, es[x])
    requires byte == if es[x].chunk == HOLE then 0 else store[es[x].chunk][es[x].chunkOffset + (n - es[x].offset)]
    ensures ReadsSome(store, es, n, byte)
  {
    assert ReadsByte(store, es, x, n, byte);
  }

  /** Extents that tile leave no byte out. */
  lemma {:induction false} ExtentAt(es: seq<Extent>, n: nat) returns (x: nat)
    requires Tiles(es) && n < End(es)
    ensures x < |es| && es[x].offset <= n < es[x].offset + es[x].len
    decreases |es|
  {
    var front, last := es[..|es| - 1], |es| - 1;
    assert ExtentTiles(es, last);
    if n >= es[last].offset {
      x := last;
    } else {
      forall i | 0 <= i < |front| ensures ExtentTiles(front, i) {
        assert ExtentTiles(es, i) && front[..i] == es[..i];
      }
      x := ExtentAt(front, n);
    }
  }

  /**
   * Of a restored accepted archive, every file the tree describes is there, and every byte of its dense form is
   * a hole's zero or the byte its extent names in a chunk whose content hashes to the identity named.
   */
  lemma {:induction false} RestoredBytes(C: Codecs, a: Archive, plan: Plan, v: Restored, b: Body, d: Bytes)
    requires Verified(C, a) && Planned(plan, AllFacts(a.rootMeta, a.manifest)) && IsRestored(C, a, plan, v)
    requires AllRead(Contents(C, Index(a.chunks)), AllExtents(a.rootMeta, a.manifest))
    requires BodyFact(b) in AllFacts(a.rootMeta, a.manifest) && b.target.FileTarget?
    ensures b.target.path in v.files && v.files[b.target.path].len == b.len
    ensures InOrder(v.files[b.target.path].pieces, b.len) && Fits(v.files[b.target.path].pieces, b.len)
    ensures Represents(v.files[b.target.path].pieces, d) && |d| == b.len ==>
      ReadsBytes(Contents(C, Index(a.chunks)), b.extents, d)
  {
    hide AllFacts, Plans, Verified, Index, Contents, AllExtents, OnlyBody, Unfillable, OnlyValues, Distinct, BodiesOk,
      Reads, Represents, ReadsBytes, AllRead, Tiles;
    var store := Contents(C, Index(a.chunks));
    AcceptedArchiveRestores(C, a, plan);
    PlannedBodiesOk(a.rootMeta, a.manifest, plan);
    ReadableByPlan(store, a.rootMeta, a.manifest, plan);
    BodyIsPlanned(plan, AllFacts(a.rootMeta, a.manifest), b);
    var i :| 0 <= i < |plan.bodies| && plan.bodies[i] == b;
    assert Delivers(store, b, v.files, v.xattrs);
    BodyReads(store, plan.bodies, i);
    MaterializedReads(store, b.extents);
    RepresentsInOrder(v.files[b.target.path].pieces, Materialized(store, b.extents));
    if Represents(v.files[b.target.path].pieces, d) && |d| == b.len {
      DenseIsMaterialized(store, b, v.files[b.target.path], d);
    }
  }

  lemma {:induction false} BodyIsPlanned(plan: Plan, facts: multiset<Fact>, b: Body)
    requires Planned(plan, facts) && BodyFact(b) in facts
    ensures exists i :: 0 <= i < |plan.bodies| && plan.bodies[i] == b
  {
    assert b in multiset(plan.bodies);
  }

  lemma {:induction false} BodyReads(store: Store, bodies: seq<Body>, i: nat)
    requires BodiesOk(bodies) && Readable(store, bodies) && i < |bodies|
    ensures Tiles(bodies[i].extents) && bodies[i].len == End(bodies[i].extents)
    ensures forall x :: 0 <= x < |bodies[i].extents| ==> Reads(store, bodies[i].extents[x])
  {
    hide Tiles;
    forall x | 0 <= x < |bodies[i].extents| ensures Reads(store, bodies[i].extents[x]) {
      assert bodies[i].extents[x].chunk != HOLE ==> Named(bodies, i, x);
    }
  }

  lemma {:induction false} RepresentsInOrder(ps: seq<Placed>, d: Bytes)
    requires Represents(ps, d)
    ensures InOrder(ps, |d|) && Fits(ps, |d|)
  {
  }

  /** The bytes a restored body holds. */
  ghost function HeldBytes(b: Body, files: Files, values: Values): nat {
    match b.target
    case FileTarget(path) => if path in files then DataBytes(files[path].pieces) else 0
    case XattrTarget(path, name) => if path in values && name in values[path] then |values[path][name]| else 0
  }

  ghost function HeldTotal(bodies: seq<Body>, files: Files, values: Values): nat {
    if bodies == [] then 0
    else HeldTotal(bodies[..|bodies| - 1], files, values) + HeldBytes(bodies[|bodies| - 1], files, values)
  }

  lemma {:induction false} DeliveredBytes(store: Store, bodies: seq<Body>, files: Files, values: Values)
    requires BodiesOk(bodies)
    requires forall i :: 0 <= i < |bodies| ==> Delivers(store, bodies[i], files, values)
    ensures HeldTotal(bodies, files, values) == BytesTotal(bodies)
  {
    hide Tiles, Represents, DataBytes, ExtentData, Concat, PiecesOf;
    if bodies != [] {
      DeliveredBytes(store, bodies[..|bodies| - 1], files, values);
      var es := bodies[|bodies| - 1].extents;
      SizedPieces(store, es);
      ConcatLength(es, PiecesOf(store, es));
    }
  }

  lemma {:induction false} SizedPieces(store: Store, es: seq<Extent>)
    ensures Sized(es, PiecesOf(store, es))
  {
  }

  /**
   * Restoring an accepted archive, what is held and the largest chunk decoded are exactly what was needed, and so
   * what was admitted: the need capped at 64 bits, exactly where the need is no more than that.
   */
  lemma {:induction false} AdmittedIsHeld(C: Codecs, a: Archive, plan: Plan, v: Restored)
    requires Verified(C, a) && Planned(plan, AllFacts(a.rootMeta, a.manifest)) && IsRestored(C, a, plan, v)
    ensures HeldTotal(plan.bodies, v.files, v.xattrs) + LargestOf(plan.bodies, Index(a.chunks)) ==
      Needed(plan.bodies, Index(a.chunks))
    ensures
      HeldTotal(plan.bodies, v.files, v.xattrs) + LargestOf(plan.bodies, Index(a.chunks)) ==
        Min(Needed(plan.bodies, Index(a.chunks)), U64_MAX)
      <==> Needed(plan.bodies, Index(a.chunks)) <= U64_MAX
  {
    hide Planned, Plans, AllFacts, Verified, BytesTotal, LargestOf, Delivers, OnlyBody, Unfillable, BodiesOk, Index;
    AcceptedArchiveRestores(C, a, plan);
    PlannedBodiesOk(a.rootMeta, a.manifest, plan);
    DeliveredBytes(Contents(C, Index(a.chunks)), plan.bodies, v.files, v.xattrs);
  }

  /** The chunk counted is the greatest declared length of any chunk an extent names, or nothing without one. */
  ghost predicate IsLargestNamed(bodies: seq<Body>, chunks: map<Hash, Chunk>, n: nat) {
    && (forall id :: id in chunks && NamesChunk(bodies, id) ==> chunks[id].rawLen <= n)
    && (n > 0 ==> exists id :: id in chunks && NamesChunk(bodies, id) && chunks[id].rawLen == n)
  }

  predicate DataIn(es: seq<Extent>, chunks: map<Hash, Chunk>, x: int) {
    0 <= x < |es| && es[x].chunk != HOLE && es[x].chunk in chunks
  }

  lemma {:induction false} LargestBounds(es: seq<Extent>, chunks: map<Hash, Chunk>)
    ensures forall x :: DataIn(es, chunks, x) ==> chunks[es[x].chunk].rawLen <= Largest(es, chunks)
    ensures Largest(es, chunks) > 0 ==>
      exists x :: DataIn(es, chunks, x) && chunks[es[x].chunk].rawLen == Largest(es, chunks)
  {
    if es != [] {
      var front := es[..|es| - 1];
      LargestBounds(front, chunks);
      forall x ensures DataIn(front, chunks, x) <==> x < |front| && DataIn(es, chunks, x) {
      }
      if Largest(es, chunks) == Largest(front, chunks) > 0 {
        var x :| DataIn(front, chunks, x) && chunks[front[x].chunk].rawLen == Largest(front, chunks);
        assert DataIn(es, chunks, x);
      } else if Largest(es, chunks) > 0 {
        assert DataIn(es, chunks, |es| - 1);
      }
    }
  }

  lemma {:induction false} LargestIsLargest(bodies: seq<Body>, chunks: map<Hash, Chunk>)
    ensures IsLargestNamed(bodies, chunks, LargestOf(bodies, chunks))
  {
    hide Largest;
    if bodies != [] {
      var front, last := bodies[..|bodies| - 1], bodies[|bodies| - 1];
      LargestIsLargest(front, chunks);
      LargestBounds(last.extents, chunks);
      forall id | id in chunks && NamesChunk(bodies, id) ensures chunks[id].rawLen <= LargestOf(bodies, chunks) {
        var i, x :| Named(bodies, i, x) && bodies[i].extents[x].chunk == id;
        if i < |front| {
          assert Named(front, i, x) && front[i].extents[x].chunk == id;
        } else {
          assert DataIn(last.extents, chunks, x);
        }
      }
      if LargestOf(bodies, chunks) == LargestOf(front, chunks) > 0 {
        var id :| id in chunks && NamesChunk(front, id) && chunks[id].rawLen == LargestOf(front, chunks);
        var i, x :| Named(front, i, x) && front[i].extents[x].chunk == id;
        assert Named(bodies, i, x) && bodies[i].extents[x].chunk == id;
      } else if LargestOf(bodies, chunks) > 0 {
        var x :|
          DataIn(last.extents, chunks, x) && chunks[last.extents[x].chunk].rawLen == Largest(last.extents, chunks);
        assert Named(bodies, |bodies| - 1, x) && bodies[|bodies| - 1].extents[x].chunk == last.extents[x].chunk;
        assert NamesChunk(bodies, last.extents[x].chunk);
      }
    }
  }

  /**
   * What a caller makes room for is enough: of an accepted archive, all a restore holds and any one chunk decoded
   * beside it stay within the need, and within what was admitted where the need fits in 64 bits. It is no more than
   * enough: some named chunk declares all of the rest, or there is no rest.
   */
  lemma {:induction false} AdmittedIsEnough(C: Codecs, a: Archive, plan: Plan, v: Restored, id: Hash)
    requires Lawful(C) && Verified(C, a) && Planned(plan, AllFacts(a.rootMeta, a.manifest))
    requires IsRestored(C, a, plan, v) && NamesChunk(plan.bodies, id) && id in Index(a.chunks)
    ensures Content(C, Index(a.chunks)[id]).Ok?
    ensures HeldTotal(plan.bodies, v.files, v.xattrs) + |Content(C, Index(a.chunks)[id]).value| <=
      Needed(plan.bodies, Index(a.chunks))
    ensures Needed(plan.bodies, Index(a.chunks)) <= U64_MAX ==>
      HeldTotal(plan.bodies, v.files, v.xattrs) + |Content(C, Index(a.chunks)[id]).value| <=
        Min(Needed(plan.bodies, Index(a.chunks)), U64_MAX)
    ensures IsLargestNamed(plan.bodies, Index(a.chunks),
                           Needed(plan.bodies, Index(a.chunks)) - HeldTotal(plan.bodies, v.files, v.xattrs))
  {
    hide AllFacts, Verified, IsRestored, Planned, HeldTotal, Needed, LargestOf, Plans, Unfillable, OnlyBody, Content,
      Lawful, Index;
    AcceptedArchiveRestores(C, a, plan);
    AdmittedIsHeld(C, a, plan, v);
    LargestIsLargest(plan.bodies, Index(a.chunks));
    ContentLength(C, Index(a.chunks)[id]);
  }

  lemma {:induction false} OneBodyPerKey(plan: Plan, facts: multiset<Fact>, i: nat, j: nat)
    requires Planned(plan, facts) && Keyed(facts) && i < |plan.bodies| && j < |plan.bodies| && i != j
    ensures plan.bodies[i].target != plan.bodies[j].target
  {
    var b, c := plan.bodies[i], plan.bodies[j];
    assert b in multiset(plan.bodies) && c in multiset(plan.bodies);
    assert BodyFact(b) in facts && BodyFact(c) in facts;
    if b.target == c.target {
      assert KeyOf(BodyFact(b)) == KeyOf(BodyFact(c));
      TwiceIn(plan.bodies, i, j);
    }
  }

  lemma {:induction false} TwiceIn(s: seq<Body>, i: nat, j: nat)
    requires i < |s| && j < |s| && i != j && s[i] == s[j]
    ensures multiset(s)[s[i]] >= 2
  {
    var lo, hi := if i < j then i else j, if i < j then j else i;
    assert s == s[..lo] + [s[lo]] + s[lo + 1..hi] + [s[hi]] + s[hi + 1..];
  }
}
