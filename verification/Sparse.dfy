// Sparse restored files (crates/archive/src/restore.rs): the simple reading of a
// body's extents, the data pieces that stand for it, merging neighbouring pieces
// and expanding them to a dense buffer.

module Sparse {
  import opened Wire
  import opened Manifest

  /** The decoded chunks an extent may name. */
  type Store = map<Hash, Bytes>

  predicate Reads(store: Store, e: Extent) {
    e.chunk == HOLE || (e.chunk in store && e.chunkOffset + e.len <= |store[e.chunk]|)
  }

  /** What one extent reads as: its slice of its chunk, or zeros. */
  function PieceOf(store: Store, e: Extent): (p: Bytes)
    ensures |p| == e.len
  {
    if e.chunk == HOLE || !Reads(store, e) then Zeros(e.len)
    else store[e.chunk][e.chunkOffset..e.chunkOffset + e.len]
  }

  function PiecesOf(store: Store, es: seq<Extent>): (ps: seq<Bytes>)
    ensures |ps| == |es|
    ensures forall i :: 0 <= i < |es| ==> ps[i] == PieceOf(store, es[i])
  {
    if es == [] then [] else PiecesOf(store, es[..|es| - 1]) + [PieceOf(store, es[|es| - 1])]
  }

  function Concat(ps: seq<Bytes>): Bytes {
    if ps == [] then [] else Concat(ps[..|ps| - 1]) + ps[|ps| - 1]
  }

  /** The simple reading of a body: each extent's bytes after those before it. */
  function Materialized(store: Store, es: seq<Extent>): Bytes { Concat(PiecesOf(store, es)) }

  predicate Sized(es: seq<Extent>, ps: seq<Bytes>) {
    |ps| == |es| && forall i :: 0 <= i < |es| ==> |ps[i]| == es[i].len
  }

  lemma {:induction false} ConcatLength(es: seq<Extent>, ps: seq<Bytes>)
    requires Sized(es, ps)
    ensures |Concat(ps)| == End(es)
  {
    if es != [] {
      ConcatLength(es[..|es| - 1], ps[..|ps| - 1]);
    }
  }

  lemma {:induction false} ConcatPrefix(ps: seq<Bytes>, i: nat)
    requires i <= |ps|
    ensures |Concat(ps[..i])| <= |Concat(ps)|
    ensures Concat(ps)[..|Concat(ps[..i])|] == Concat(ps[..i])
    decreases |ps|
  {
    if i == |ps| {
      assert ps[..i] == ps;
    } else {
      var front := ps[..|ps| - 1];
      ConcatPrefix(front, i);
      assert front[..i] == ps[..i];
      assert Concat(ps)[..|Concat(front)|] == Concat(front);
    }
  }

  /** The place of piece `i` in the whole. */
  lemma {:induction false} ConcatAt(ps: seq<Bytes>, i: nat)
    requires i < |ps|
    ensures var at := |Concat(ps[..i])|;
      at + |ps[i]| <= |Concat(ps)| && Concat(ps)[at..at + |ps[i]|] == ps[i]
  {
    ConcatPrefix(ps, i + 1);
    assert ps[..i + 1][..i] == ps[..i];
    var at := |Concat(ps[..i])|;
    var next := at + |ps[i]|;
    assert Concat(ps[..i + 1])[at..next] == ps[i];
    assert Concat(ps)[at..next] == Concat(ps)[..next][at..next];
  }

  /** Overwriting piece `i` in place is replacing it among the pieces. */
  lemma {:induction false} ConcatUpdate(ps: seq<Bytes>, i: nat, q: Bytes)
    requires i < |ps| && |q| == |ps[i]|
    ensures var at := |Concat(ps[..i])|;
      && at + |q| <= |Concat(ps)|
      && Concat(ps[i := q]) == Concat(ps)[..at] + q + Concat(ps)[at + |q|..]
    decreases |ps|
  {
    ConcatAt(ps, i);
    ConcatPrefix(ps, i);
    var at := |Concat(ps[..i])|;
    var front := ps[..|ps| - 1];
    if i == |ps| - 1 {
      assert ps[i := q][..|ps| - 1] == front;
    } else {
      assert ps[i := q][..|ps| - 1] == front[i := q] && front[..i] == ps[..i];
      ConcatUpdate(front, i, q);
      assert Concat(ps)[at + |q|..] == Concat(front)[at + |q|..] + ps[|ps| - 1];
    }
  }

  /** Each byte of the simple reading is its extent's chunk byte, or zero in a hole. */
  lemma {:induction false} MaterializedByte(store: Store, es: seq<Extent>, x: nat, t: nat)
    requires Tiles(es) && x < |es| && t < es[x].len && Reads(store, es[x])
    ensures es[x].offset + t < |Materialized(store, es)|
    ensures Materialized(store, es)[es[x].offset + t] ==
      if es[x].chunk == HOLE then 0 else store[es[x].chunk][es[x].chunkOffset + t]
  {
    hide Concat, PiecesOf, End;
    var ps := PiecesOf(store, es);
    assert Sized(es[..x], ps[..x]);
    ConcatLength(es[..x], ps[..x]);
    ConcatAt(ps, x);
    assert ExtentTiles(es, x);
    var at := |Concat(ps[..x])|;
    assert Concat(ps)[at..at + |ps[x]|][t] == ps[x][t];
  }

  // ------------------------------------------------------------------- pieces

  /** Data at an offset. */
  datatype Placed = Placed(offset: nat, bytes: Bytes)

  function After(p: Placed): nat { p.offset + |p.bytes| }

  /** Ascending, disjoint, non-empty pieces inside `n` bytes. */
  predicate InOrder(ps: seq<Placed>, n: nat) {
    && (forall k :: 0 <= k < |ps| ==> |ps[k].bytes| > 0 && After(ps[k]) <= n)
    && (forall k, l :: 0 <= k < l < |ps| ==> After(ps[k]) <= ps[l].offset)
  }

  predicate Holds(p: Placed, pos: int) { p.offset <= pos < After(p) }

  predicate Covered(ps: seq<Placed>, pos: int) {
    exists k :: 0 <= k < |ps| && Holds(ps[k], pos)
  }

  /** The pieces stand for `d`: its bytes where they are, zeros everywhere else. */
  ghost predicate Represents(ps: seq<Placed>, d: Bytes) {
    && InOrder(ps, |d|)
    && (forall k, pos :: 0 <= k < |ps| && Holds(ps[k], pos) ==> d[pos] == ps[k].bytes[pos - ps[k].offset])
    && (forall pos :: 0 <= pos < |d| && !Covered(ps, pos) ==> d[pos] == 0)
  }

  /** The pieces determine what they stand for. */
  lemma {:induction false} RepresentsUnique(ps: seq<Placed>, a: Bytes, b: Bytes)
    requires Represents(ps, a) && Represents(ps, b) && |a| == |b|
    ensures a == b
  {
    forall pos | 0 <= pos < |a| ensures a[pos] == b[pos] {
      if Covered(ps, pos) {
        var k :| 0 <= k < |ps| && Holds(ps[k], pos);
      }
    }
  }

  function DataBytes(ps: seq<Placed>): nat {
    if ps == [] then 0 else DataBytes(ps[..|ps| - 1]) + |ps[|ps| - 1].bytes|
  }

  /** A body's non-hole extents as pieces. */
  function RawPieces(es: seq<Extent>, ps: seq<Bytes>): seq<Placed>
    requires |es| == |ps|
  {
    if es == [] then [] else
    var front := RawPieces(es[..|es| - 1], ps[..|ps| - 1]);
    if es[|es| - 1].chunk == HOLE then front else front + [Placed(es[|es| - 1].offset, ps[|ps| - 1])]
  }

  /** The bytes of a body's non-hole extents. */
  function ExtentData(es: seq<Extent>): nat {
    if es == [] then 0 else
    ExtentData(es[..|es| - 1]) + if es[|es| - 1].chunk == HOLE then 0 else es[|es| - 1].len
  }

  lemma {:induction false} RawPiecesTotal(es: seq<Extent>, ps: seq<Bytes>)
    requires Sized(es, ps)
    ensures DataBytes(RawPieces(es, ps)) == ExtentData(es)
  {
    if es != [] {
      RawPiecesTotal(es[..|es| - 1], ps[..|ps| - 1]);
      var front := RawPieces(es[..|es| - 1], ps[..|ps| - 1]);
      var last := Placed(es[|es| - 1].offset, ps[|ps| - 1]);
      assert (front + [last])[..|front|] == front;
    }
  }

  lemma {:induction false} ExtendPieces(ps: seq<Placed>, d: Bytes, more: Bytes)
    requires Represents(ps, d) && |more| > 0
    ensures Represents(ps + [Placed(|d|, more)], d + more)
  {
    var qs, e := ps + [Placed(|d|, more)], d + more;
    CoveredPrefix(ps, qs);
    forall pos | 0 <= pos < |e| && !Covered(qs, pos) ensures e[pos] == 0 {
      assert !Holds(qs[|ps|], pos);
    }
  }

  lemma {:induction false} CoveredPrefix(ps: seq<Placed>, qs: seq<Placed>)
    requires ps <= qs
    ensures forall pos :: Covered(ps, pos) ==> Covered(qs, pos)
  {
    forall pos | Covered(ps, pos) ensures Covered(qs, pos) {
      var k :| 0 <= k < |ps| && Holds(ps[k], pos);
      assert Holds(qs[k], pos);
    }
  }

  lemma {:induction false} ExtendHole(ps: seq<Placed>, d: Bytes, n: nat)
    requires Represents(ps, d)
    ensures Represents(ps, d + Zeros(n))
  {
    var e := d + Zeros(n);
    forall pos | 0 <= pos < |e| && !Covered(ps, pos) ensures e[pos] == 0 {
    }
  }

  /** The unmerged pieces stand for the simple reading. */
  lemma {:induction false} RawPiecesRepresent(store: Store, es: seq<Extent>)
    requires Tiles(es)
    ensures Represents(RawPieces(es, PiecesOf(store, es)), Materialized(store, es))
    decreases |es|
  {
    hide Represents, Zeros;
    if es == [] {
      NothingRepresents();
    } else {
      var front, e := es[..|es| - 1], es[|es| - 1];
      TilesFront(es);
      RawPiecesRepresent(store, front);
      var ps := PiecesOf(store, es);
      assert ps[..|ps| - 1] == PiecesOf(store, front);
      ConcatLength(front, PiecesOf(store, front));
      assert ExtentTiles(es, |es| - 1);
      var d := Materialized(store, front);
      assert Materialized(store, es) == d + ps[|ps| - 1];
      if e.chunk == HOLE {
        ExtendHole(RawPieces(front, PiecesOf(store, front)), d, e.len);
      } else {
        ExtendPieces(RawPieces(front, PiecesOf(store, front)), d, ps[|ps| - 1]);
      }
    }
  }

  lemma {:induction false} NothingRepresents()
    ensures Represents([], [])
  {
  }

  lemma {:induction false} TilesFront(es: seq<Extent>)
    requires Tiles(es) && es != []
    ensures Tiles(es[..|es| - 1])
  {
    var front := es[..|es| - 1];
    forall i | 0 <= i < |front| ensures ExtentTiles(front, i) {
      assert ExtentTiles(es, i);
      assert front[..i] == es[..i];
    }
  }

  // ------------------------------------------------------------------ merging

  /** Two contiguous pieces stand for what their join stands for. */
  lemma {:induction false} JoinPieces(before: seq<Placed>, a: Placed, b: Placed, rest: seq<Placed>, d: Bytes)
    requires Represents(before + [a, b] + rest, d) && After(a) == b.offset
    ensures Represents(before + [Placed(a.offset, a.bytes + b.bytes)] + rest, d)
  {
    hide InOrder, Covered;
    var ps := before + [a, b] + rest;
    var qs := before + [Placed(a.offset, a.bytes + b.bytes)] + rest;
    JoinInOrder(before, a, b, rest, |d|);
    JoinCovers(before, a, b, rest);
    forall k, pos | 0 <= k < |qs| && Holds(qs[k], pos) ensures d[pos] == qs[k].bytes[pos - qs[k].offset] {
      JoinHolds(before, a, b, rest, k, pos);
    }
  }

  predicate SameByte(p: Placed, q: Placed, pos: int) {
    Holds(p, pos) && Holds(q, pos) && p.bytes[pos - p.offset] == q.bytes[pos - q.offset]
  }

  predicate HoldsAs(ps: seq<Placed>, q: Placed, pos: int) {
    exists l :: 0 <= l < |ps| && SameByte(ps[l], q, pos)
  }

  /** A byte the joined pieces hold is held, with the same value, by the pieces apart. */
  lemma {:induction false} JoinHolds(before: seq<Placed>, a: Placed, b: Placed, rest: seq<Placed>, k: nat, pos: int)
    requires After(a) == b.offset
    requires k < |before| + 1 + |rest| && Holds((before + [Placed(a.offset, a.bytes + b.bytes)] + rest)[k], pos)
    ensures HoldsAs(before + [a, b] + rest, (before + [Placed(a.offset, a.bytes + b.bytes)] + rest)[k], pos)
  {
    var ps := before + [a, b] + rest;
    var l := if k < |before| || (k == |before| && pos < After(a)) then k else k + 1;
    assert SameByte(ps[l], (before + [Placed(a.offset, a.bytes + b.bytes)] + rest)[k], pos);
  }

  lemma {:induction false} JoinCovers(before: seq<Placed>, a: Placed, b: Placed, rest: seq<Placed>)
    requires After(a) == b.offset
    ensures forall pos :: Covered(before + [a, b] + rest, pos) ==>
      Covered(before + [Placed(a.offset, a.bytes + b.bytes)] + rest, pos)
  {
    var ps := before + [a, b] + rest;
    var qs := before + [Placed(a.offset, a.bytes + b.bytes)] + rest;
    forall pos | Covered(ps, pos) ensures Covered(qs, pos) {
      var k :| 0 <= k < |ps| && Holds(ps[k], pos);
      assert Holds(qs[if k <= |before| then k else k - 1], pos);
    }
  }

  lemma {:induction false} JoinInOrder(before: seq<Placed>, a: Placed, b: Placed, rest: seq<Placed>, n: nat)
    requires InOrder(before + [a, b] + rest, n) && After(a) == b.offset
    ensures InOrder(before + [Placed(a.offset, a.bytes + b.bytes)] + rest, n)
  {
    var ps := before + [a, b] + rest;
    var qs := before + [Placed(a.offset, a.bytes + b.bytes)] + rest;
    var m := |before|;
    assert ps[m] == a && ps[m + 1] == b;
    assert forall k :: 0 <= k < m ==> qs[k] == ps[k];
    assert forall k :: m < k < |qs| ==> qs[k] == ps[k + 1];
  }

  lemma {:induction false} DataBytesJoin(before: seq<Placed>, a: Placed, b: Placed)
    ensures DataBytes(before + [Placed(a.offset, a.bytes + b.bytes)]) == DataBytes(before + [a]) + |b.bytes|
  {
    assert (before + [a])[..|before|] == before;
    var j := Placed(a.offset, a.bytes + b.bytes);
    assert (before + [j])[..|before|] == before;
  }

  /** No two neighbouring pieces touch. */
  predicate Gapped(ps: seq<Placed>) {
    forall k :: 0 <= k < |ps| - 1 ==> After(ps[k]) < ps[k + 1].offset
  }

  /**
   * `merged`: contiguous pieces become one, unless the growth of the earlier cannot be reserved
   * (`grow` answers for each piece). What the pieces stand for, and how many bytes they hold, stays.
   */
  method Merged(pieces: seq<Placed>, grow: nat -> bool, ghost d: Bytes) returns (out: seq<Placed>)
    requires Represents(pieces, d)
    ensures Represents(out, d)
    ensures DataBytes(out) == DataBytes(pieces)
    ensures (forall k :: grow(k)) ==> Gapped(out)
  {
    hide Represents, DataBytes, Gapped;
    out := [];
    assert [] + pieces[0..] == pieces && pieces[..0] == [];
    assert Gapped(out) by { NothingGapped(); }
    for i := 0 to |pieces|
      invariant Represents(out + pieces[i..], d)
      invariant DataBytes(out) == DataBytes(pieces[..i])
      invariant (forall k :: grow(k)) ==> Gapped(out)
    {
      var p := pieces[i];
      assert pieces[i..] == [p] + pieces[i + 1..];
      if out != [] && After(out[|out| - 1]) == p.offset && grow(i) {
        var last, before := out[|out| - 1], out[..|out| - 1];
        assert out == before + [last];
        assert out + pieces[i..] == before + [last, p] + pieces[i + 1..];
        JoinPieces(before, last, p, pieces[i + 1..], d);
        DataBytesJoin(before, last, p);
        DataBytesNext(pieces, i);
        if Gapped(out) {
          GappedJoin(before, last, p);
        }
        out := before + [Placed(last.offset, last.bytes + p.bytes)];
      } else {
        assert out + pieces[i..] == out + [p] + pieces[i + 1..];
        NeighboursInOrder(out, p, pieces[i + 1..], d);
        DataBytesNext(pieces, i);
        DataBytesNext(out + [p], |out|);
        assert (out + [p])[..|out|] == out && (out + [p])[..|out| + 1] == out + [p];
        if forall k :: grow(k) {
          GappedMore(out, p);
        }
        out := out + [p];
      }
    }
    assert out + [] == out && pieces[|pieces|..] == [] && pieces[..|pieces|] == pieces;
  }

  lemma {:induction false} NothingGapped()
    ensures Gapped([])
  {
  }

  lemma {:induction false} GappedJoin(before: seq<Placed>, a: Placed, b: Placed)
    requires Gapped(before + [a])
    ensures Gapped(before + [Placed(a.offset, a.bytes + b.bytes)])
  {
    var ps, qs := before + [a], before + [Placed(a.offset, a.bytes + b.bytes)];
    forall k | 0 <= k < |qs| - 1 ensures After(qs[k]) < qs[k + 1].offset {
      assert After(ps[k]) < ps[k + 1].offset;
    }
  }

  lemma {:induction false} GappedMore(ps: seq<Placed>, p: Placed)
    requires Gapped(ps) && (ps != [] ==> After(ps[|ps| - 1]) < p.offset)
    ensures Gapped(ps + [p])
  {
  }

  lemma {:induction false} DataBytesNext(ps: seq<Placed>, i: nat)
    requires i < |ps|
    ensures DataBytes(ps[..i + 1]) == DataBytes(ps[..i]) + |ps[i].bytes|
  {
    assert ps[..i + 1][..i] == ps[..i];
  }

  lemma {:induction false} NeighboursInOrder(out: seq<Placed>, p: Placed, rest: seq<Placed>, d: Bytes)
    requires Represents(out + [p] + rest, d)
    ensures out != [] ==> After(out[|out| - 1]) <= p.offset
  {
    var ps := out + [p] + rest;
    assert ps[|out|] == p;
    if out != [] {
      assert ps[|out| - 1] == out[|out| - 1];
    }
  }

  // ---------------------------------------------------------------- expansion

  datatype RestoredFile = RestoredFile(len: nat, pieces: seq<Placed>)

  predicate Fits(ps: seq<Placed>, n: nat) {
    forall k :: 0 <= k < |ps| ==> After(ps[k]) <= n
  }

  /** `RestoredFile::dense`: zeros, then each piece written over them. */
  method Dense(f: RestoredFile) returns (r: Option<Bytes>)
    ensures r.Some? <==> Fits(f.pieces, f.len)
    ensures r.Some? ==> |r.value| == f.len
    ensures r.Some? && InOrder(f.pieces, f.len) ==> Represents(f.pieces, r.value)
  {
    hide Zeros;
    var out := Zeros(f.len);
    assert f.pieces[..0] == [];
    for i := 0 to |f.pieces|
      invariant |out| == f.len && Fits(f.pieces[..i], f.len)
      invariant InOrder(f.pieces, f.len) ==> Represents(f.pieces[..i], out)
    {
      var p := f.pieces[i];
      if After(p) > f.len {
        assert !Fits(f.pieces, f.len);
        return None;
      }
      ghost var was := out;
      out := out[..p.offset] + p.bytes + out[After(p)..];
      assert f.pieces[..i + 1] == f.pieces[..i] + [p];
      if InOrder(f.pieces, f.len) {
        WriteRepresents(f.pieces, i, was, out);
      }
    }
    assert f.pieces[..|f.pieces|] == f.pieces;
    return Some(out);
  }

  lemma {:induction false} WriteRepresents(ps: seq<Placed>, i: nat, was: Bytes, out: Bytes)
    requires i < |ps| && InOrder(ps, |was|) && Represents(ps[..i], was)
    requires out == was[..ps[i].offset] + ps[i].bytes + was[After(ps[i])..]
    ensures Represents(ps[..i + 1], out)
  {
    var qs := ps[..i + 1];
    forall k, pos | 0 <= k < |qs| && Holds(qs[k], pos) ensures out[pos] == qs[k].bytes[pos - qs[k].offset] {
      if k < i {
        assert Holds(ps[..i][k], pos);
      }
    }
    CoveredPrefix(ps[..i], qs);
    forall pos | 0 <= pos < |out| && !Covered(qs, pos) ensures out[pos] == 0 {
      assert !Holds(qs[i], pos);
    }
  }
}
