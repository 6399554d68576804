// The words and racy spans the anchor segment declares
// (crates/anchor/src/segment.rs, `segment_words`) over the laid-out regions.

module SegmentWords {
  import opened Wire
  import opened Layout

  const AT_GENERATION := 40
  const WORD := 8
  const SUP_PID := 0
  const SUPERVISION_WORDS := 8
  const SUP_ISSUER := 64
  const ISSUER_SECRET_BYTES := 32
  const SUP_SEAL_PRESENT := 128
  const SUP_SEAL_ROOT := 136
  const SEAL_ROOT_BYTES := 16 + 32
  const SUP_HOLD_REFUSALS := 192
  const SUP_LOG_REFUSALS := 200
  const RING_HEAD := 0
  const RING_WORDS := 4
  const PAYLOAD_GENERATION := 0
  const PAYLOAD_LEN := 8

  /** The end of the last word of the supervision block. */
  const SUPERVISION_END := SUP_LOG_REFUSALS + WORD

  /** `count` words of `width` bytes, each `stride` after the one before. */
  datatype WordRun = WordRun(first: nat, stride: nat, count: nat, width: nat)

  function One(at: nat): WordRun { WordRun(at, WORD, 1, WORD) }

  function Strided(at: nat, count: nat): WordRun { WordRun(at, WORD, count, WORD) }

  function Racy(at: nat, len: nat): WordRun { WordRun(at, 1, len, 1) }

  /** A byte of some word of the run. */
  predicate HoldsByte(w: WordRun, pos: int) {
    exists k :: 0 <= k < w.count && InWord(w, k, pos)
  }

  predicate InWord(w: WordRun, k: int, pos: int) {
    w.first + k * w.stride <= pos < w.first + k * w.stride + w.width
  }

  /** What one region declares. */
  function RunsOf(g: Geometry, r: RegionSpec): seq<WordRun> {
    var at := r.offset;
    match r.kind
    case Supervision =>
      [Strided(SatAdd(at, SUP_PID), SUPERVISION_WORDS), Racy(SatAdd(at, SUP_ISSUER), ISSUER_SECRET_BYTES),
       One(SatAdd(at, SUP_SEAL_PRESENT)), Racy(SatAdd(at, SUP_SEAL_ROOT), SEAL_ROOT_BYTES),
       One(SatAdd(at, SUP_HOLD_REFUSALS)), One(SatAdd(at, SUP_LOG_REFUSALS))]
    case Pool => [Strided(at, g.partitions * POOL_EXTENTS_PER_PARTITION)]
    case Log(_) => [Strided(SatAdd(at, RING_HEAD), RING_WORDS)]
    case Audit => [Strided(SatAdd(at, RING_HEAD), RING_WORDS)]
    case _ => [One(SatAdd(at, PAYLOAD_GENERATION)), Racy(SatAdd(at, PAYLOAD_LEN), Max(r.len - PAYLOAD_LEN, 0))]
  }

  /** The header's generation word, then every region's runs in layout order. */
  function Declared(g: Geometry, rs: seq<RegionSpec>): seq<WordRun> {
    if rs == [] then [One(AT_GENERATION)] else Declared(g, rs[..|rs| - 1]) + RunsOf(g, rs[|rs| - 1])
  }

  ghost predicate Apart(v: WordRun, w: WordRun) {
    forall pos :: !(HoldsByte(v, pos) && HoldsByte(w, pos))
  }

  ghost predicate AllApart(ws: seq<WordRun>) {
    forall i, j :: 0 <= i < j < |ws| ==> Apart(ws[i], ws[j])
  }

  ghost predicate Within(w: WordRun, from: int, to: int) {
    forall pos :: HoldsByte(w, pos) ==> from <= pos < to
  }

  ghost predicate AllWithin(ws: seq<WordRun>, from: int, to: int) {
    forall i :: 0 <= i < |ws| ==> Within(ws[i], from, to)
  }

  lemma {:induction false} WordInSpan(w: WordRun, k: nat, pos: int)
    requires w.stride == w.width > 0 && k < w.count && InWord(w, k, pos)
    ensures w.first <= pos < w.first + w.count * w.width
  {
    MulLe(k + 1, w.count, w.width);
    assert (k + 1) * w.width == k * w.width + w.width;
  }

  lemma {:induction false} SpanHasWord(w: WordRun, pos: int)
    requires w.stride == w.width > 0 && w.first <= pos < w.first + w.count * w.width
    ensures HoldsByte(w, pos)
  {
    var k := (pos - w.first) / w.width;
    Quotient(pos - w.first, w.width);
    assert (k + 1) * w.width == k * w.width + w.width;
    MulLe(w.count, k, w.width);
    assert InWord(w, k, pos);
  }

  /** Words with no gap between them hold one span. */
  lemma {:induction false} SolidSpan(w: WordRun, pos: int)
    requires w.stride == w.width > 0
    ensures HoldsByte(w, pos) <==> w.first <= pos < w.first + w.count * w.width
  {
    hide InWord;
    if HoldsByte(w, pos) {
      var k :| 0 <= k < w.count && InWord(w, k, pos);
      WordInSpan(w, k, pos);
    } else if w.first <= pos < w.first + w.count * w.width {
      SpanHasWord(w, pos);
    }
  }

  lemma {:induction false} SolidWithin(w: WordRun, from: int, to: int)
    requires w.stride == w.width > 0 && from <= w.first && w.first + w.count * w.width <= to
    ensures Within(w, from, to)
  {
    forall pos | HoldsByte(w, pos) ensures from <= pos < to {
      SolidSpan(w, pos);
    }
  }

  lemma {:induction false} SolidApart(v: WordRun, w: WordRun)
    requires v.stride == v.width > 0 && w.stride == w.width > 0 && v.first + v.count * v.width <= w.first
    ensures Apart(v, w)
  {
    forall pos ensures !(HoldsByte(v, pos) && HoldsByte(w, pos)) {
      SolidSpan(v, pos);
      SolidSpan(w, pos);
    }
  }

  /** The runs of one region stay in it, apart from each other, once it is long enough for the longest block. */
  lemma {:induction false} RegionRunsSeparate(g: Geometry, r: RegionSpec)
    requires r.len >= SUPERVISION_END && r.offset + r.len <= U64_MAX
    requires r.kind == Pool ==> r.len >= PoolBytes(g)
    ensures AllWithin(RunsOf(g, r), r.offset, r.offset + r.len)
    ensures AllApart(RunsOf(g, r))
  {
    hide HoldsByte, Within, Apart;
    var ws := RunsOf(g, r);
    forall i | 0 <= i < |ws| ensures Within(ws[i], r.offset, r.offset + r.len) {
      SolidWithin(ws[i], r.offset, r.offset + r.len);
    }
    forall i, j | 0 <= i < j < |ws| ensures Apart(ws[i], ws[j]) {
      SolidApart(ws[i], ws[j]);
    }
  }

  /** The bytes of a region that two processes share: as documented of its kind, by their offset in it. */
  predicate SharedAt(g: Geometry, r: RegionSpec, x: int) {
    match r.kind
    case Supervision => 0 <= x < 96 || 128 <= x < 184 || 192 <= x < 208
    case Pool => 0 <= x < 512 * g.partitions
    case Log(_) => 0 <= x < 32
    case Audit => 0 <= x < 32
    case _ => 0 <= x < Max(r.len, 8)
  }

  ghost predicate DeclaredAt(ws: seq<WordRun>, pos: int) { exists i :: 0 <= i < |ws| && HoldsByte(ws[i], pos) }

  /** What a region declares is exactly what of it is shared. */
  lemma {:induction false} RegionDeclaresShared(g: Geometry, r: RegionSpec, pos: int)
    requires r.len >= SUPERVISION_END && r.offset + r.len <= U64_MAX
    ensures DeclaredAt(RunsOf(g, r), pos) <==> SharedAt(g, r, pos - r.offset)
  {
    hide HoldsByte;
    var ws := RunsOf(g, r);
    forall i | 0 <= i < |ws|
      ensures HoldsByte(ws[i], pos) <==> ws[i].first <= pos < ws[i].first + ws[i].count * ws[i].width
    {
      SolidSpan(ws[i], pos);
    }
    if r.kind == Supervision {
      SixRuns(ws, pos);
    } else if |ws| == 2 {
      TwoRuns(ws, pos);
    } else {
      OneRun(ws, pos);
    }
  }

  lemma {:induction false} OneRun(ws: seq<WordRun>, pos: int)
    requires |ws| == 1
    ensures DeclaredAt(ws, pos) <==> HoldsByte(ws[0], pos)
  {
    hide HoldsByte;
  }

  lemma {:induction false} TwoRuns(ws: seq<WordRun>, pos: int)
    requires |ws| == 2
    ensures DeclaredAt(ws, pos) <==> HoldsByte(ws[0], pos) || HoldsByte(ws[1], pos)
  {
    hide HoldsByte;
  }

  lemma {:induction false} SixRuns(ws: seq<WordRun>, pos: int)
    requires |ws| == 6
    ensures DeclaredAt(ws, pos) <==>
      || HoldsByte(ws[0], pos) || HoldsByte(ws[1], pos) || HoldsByte(ws[2], pos)
      || HoldsByte(ws[3], pos) || HoldsByte(ws[4], pos) || HoldsByte(ws[5], pos)
  {
    hide HoldsByte;
  }

  lemma {:induction false} WithinApart(v: WordRun, w: WordRun, mid: int, to: int)
    requires Within(v, 0, mid) && Within(w, mid, to)
    ensures Apart(v, w)
  {
  }

  lemma {:induction false} AppendApart(vs: seq<WordRun>, ws: seq<WordRun>, mid: int, to: int)
    requires AllApart(vs) && AllApart(ws) && AllWithin(vs, 0, mid) && AllWithin(ws, mid, to) && 0 <= mid <= to
    ensures AllApart(vs + ws) && AllWithin(vs + ws, 0, to)
  {
    hide HoldsByte, Apart;
    var all := vs + ws;
    forall i, j | 0 <= i < j < |all| ensures Apart(all[i], all[j]) {
      if i < |vs| <= j {
        WithinApart(vs[i], ws[j - |vs|], mid, to);
      }
    }
  }

  /** Regions long enough, end to end. */
  ghost predicate Roomy(g: Geometry, rs: seq<RegionSpec>) {
    && (forall i :: 0 <= i < |rs| ==> rs[i].offset == EndBefore(g, rs, i))
    && (forall i :: 0 <= i < |rs| ==> rs[i].len >= SUPERVISION_END && rs[i].offset + rs[i].len <= U64_MAX)
    && (forall i :: 0 <= i < |rs| && rs[i].kind == Pool ==> rs[i].len >= PoolBytes(g))
  }

  lemma {:induction false} DeclaredSeparate(g: Geometry, rs: seq<RegionSpec>)
    requires Roomy(g, rs)
    ensures AllApart(Declared(g, rs)) && AllWithin(Declared(g, rs), 0, EndBefore(g, rs, |rs|))
  {
    hide RunsOf, AllApart, AllWithin, Aligned, Roomy, EndBefore, PoolBytes;
    if rs == [] {
      NoRegionsEnd(g);
      HeaderWord(g);
    } else {
      var front, r := rs[..|rs| - 1], rs[|rs| - 1];
      RoomyFront(g, rs);
      RoomyLast(g, rs);
      DeclaredSeparate(g, front);
      RegionRunsSeparate(g, r);
      AppendApart(Declared(g, front), RunsOf(g, r), r.offset, r.offset + r.len);
    }
  }

  lemma {:induction false} NoRegionsEnd(g: Geometry)
    ensures EndBefore(g, [], 0) == Aligned(g, HEADER_BYTES)
  {
  }

  lemma {:induction false} RoomyLast(g: Geometry, rs: seq<RegionSpec>)
    requires Roomy(g, rs) && rs != []
    ensures var r, front := rs[|rs| - 1], rs[..|rs| - 1];
      && r.len >= SUPERVISION_END && r.offset + r.len <= U64_MAX && (r.kind == Pool ==> r.len >= PoolBytes(g))
      && r.offset == EndBefore(g, front, |front|) && r.offset + r.len == EndBefore(g, rs, |rs|)
  {
    hide Aligned, PoolBytes;
    var front := rs[..|rs| - 1];
    assert EndBefore(g, front, |front|) == EndBefore(g, rs, |front|);
  }

  lemma {:induction false} RoomyFront(g: Geometry, rs: seq<RegionSpec>)
    requires Roomy(g, rs) && rs != []
    ensures Roomy(g, rs[..|rs| - 1])
  {
    hide Aligned;
    var front := rs[..|rs| - 1];
    forall i | 0 <= i < |front| ensures front[i].offset == EndBefore(g, front, i) {
      assert EndBefore(g, front, i) == EndBefore(g, rs, i);
    }
  }

  lemma {:induction false} HeaderWord(g: Geometry)
    ensures AllApart([One(AT_GENERATION)]) && AllWithin([One(AT_GENERATION)], 0, Aligned(g, HEADER_BYTES))
  {
    AlignedWhole(g, HEADER_BYTES);
    SolidWithin(One(AT_GENERATION), 0, Aligned(g, HEADER_BYTES));
  }

  /** Every region's own runs lie inside it. */
  ghost predicate StayInside(g: Geometry, rs: seq<RegionSpec>) {
    forall i :: 0 <= i < |rs| ==> AllWithin(RunsOf(g, rs[i]), rs[i].offset, rs[i].offset + rs[i].len)
  }

  /** Every 64-bit word of a region sits at a multiple of eight. */
  ghost predicate RegionEightAligned(g: Geometry, r: RegionSpec) {
    forall k :: 0 <= k < |RunsOf(g, r)| && RunsOf(g, r)[k].width == WORD ==> RunsOf(g, r)[k].first % WORD == 0
  }

  ghost predicate EightAligned(g: Geometry, rs: seq<RegionSpec>) {
    forall i :: 0 <= i < |rs| ==> RegionEightAligned(g, rs[i])
  }

  lemma {:induction false} SpecLength(g: Geometry, kind: RegionKind)
    ensures SpecOf(g, kind).len >= g.page
    ensures kind == Pool ==> SpecOf(g, kind).len >= PoolBytes(g)
  {
    hide Aligned, PoolBytes;
    AlignedWhole(g, g.page);
    AlignedWhole(g, g.profileBytes);
    AlignedWhole(g, g.logBytes);
    AlignedWhole(g, g.snapshotBytes);
    AlignedWhole(g, ConsensusBytes(g));
    AlignedWhole(g, g.auditBytes);
    AlignedWhole(g, g.landingSlotBytes);
    AlignedWhole(g, PoolBytes(g));
  }

  lemma {:induction false} LaidOutIsRoomy(g: Geometry, rs: seq<RegionSpec>)
    requires Fits(g) && g.page >= SUPERVISION_END && EndToEnd(g, rs, TotalBytes(g))
    requires forall i :: 0 <= i < |rs| ==> Region(g, rs[i].kind) == Some(rs[i])
    ensures Roomy(g, rs)
  {
    hide Aligned, Region, SpecOf, Fits, TotalBytes, PoolBytes;
    forall i | 0 <= i < |rs|
      ensures rs[i].len >= SUPERVISION_END && rs[i].offset + rs[i].len <= U64_MAX
      ensures rs[i].kind == Pool ==> rs[i].len >= PoolBytes(g)
    {
      RegionIsSpec(g, rs[i].kind);
      SpecLength(g, rs[i].kind);
      EndFits(g, rs[i].kind);
    }
  }

  lemma {:induction false} PageOfItself(g: Geometry)
    ensures Aligned(g, g.page) == Max(g.page, 1)
    ensures g.page >= HEADER_BYTES ==> Aligned(g, HEADER_BYTES) == g.page
  {
    var page := Max(g.page, 1);
    RemainderUnique(page + page - 1, page, 1, page - 1);
  }

  /** A page too short for the supervision block lets its last word out of its region. */
  lemma {:induction false} ShortPageSpills(g: Geometry, rs: seq<RegionSpec>)
    requires Fits(g) && g.page < SUPERVISION_END && SpecOf(g, Supervision) in rs
    ensures !StayInside(g, rs)
  {
    hide HoldsByte, Fits;
    var r := SpecOf(g, Supervision);
    var i :| 0 <= i < |rs| && rs[i] == r;
    PageOfItself(g);
    EndFits(g, Supervision);
    var w := RunsOf(g, r)[5];
    var pos := w.first + WORD - 1;
    SolidSpan(w, pos);
    assert !Within(w, r.offset, r.offset + r.len);
  }

  lemma {:induction false} RunsEightAligned(g: Geometry, r: RegionSpec)
    requires r.len >= SUPERVISION_END && r.offset + r.len <= U64_MAX
    ensures r.offset % WORD == 0 ==> RegionEightAligned(g, r)
    ensures r.kind == Supervision && RegionEightAligned(g, r) ==> r.offset % WORD == 0
  {
    if r.kind == Supervision && RegionEightAligned(g, r) {
      assert RunsOf(g, r)[0] == Strided(r.offset, SUPERVISION_WORDS);
    }
  }

  /** Words sit at multiples of eight exactly when pages are. */
  lemma {:induction false} AlignmentIffPage(g: Geometry, rs: seq<RegionSpec>)
    requires g.page >= SUPERVISION_END && EndToEnd(g, rs, TotalBytes(g)) && SpecOf(g, Supervision) in rs
    requires Roomy(g, rs)
    ensures EightAligned(g, rs) <==> g.page % WORD == 0
  {
    hide Aligned, TotalBytes, PoolBytes, PlacesOf, RegionEightAligned, EndToEnd, Roomy, SpecOf;
    forall i | 0 <= i < |rs| ensures g.page % WORD == 0 ==> RegionEightAligned(g, rs[i]) {
      RegionFacts(g, rs, i);
      RunsEightAligned(g, rs[i]);
    }
    var i :| 0 <= i < |rs| && rs[i] == SpecOf(g, Supervision);
    FirstRegion(g);
    RegionFacts(g, rs, i);
    RunsEightAligned(g, rs[i]);
  }

  lemma {:induction false} RegionFacts(g: Geometry, rs: seq<RegionSpec>, i: nat)
    requires g.page >= SUPERVISION_END && EndToEnd(g, rs, TotalBytes(g)) && Roomy(g, rs) && i < |rs|
    ensures rs[i].len >= SUPERVISION_END && rs[i].offset + rs[i].len <= U64_MAX
    ensures g.page % WORD == 0 ==> rs[i].offset % WORD == 0
  {
    hide Aligned, TotalBytes;
    if g.page % WORD == 0 {
      EightDivides(rs[i].offset, g.page);
    }
  }

  lemma {:induction false} FirstRegion(g: Geometry)
    requires g.page >= SUPERVISION_END
    ensures SpecOf(g, Supervision).offset == g.page && SpecOf(g, Supervision).kind == Supervision
  {
    hide Aligned, Times;
    PageOfItself(g);
  }

  lemma {:induction false} EightDivides(offset: nat, page: nat)
    requires page > 0 && page % WORD == 0 && offset % page == 0
    ensures offset % WORD == 0
  {
    var q, n := page / WORD, offset / page;
    assert page == WORD * q && offset == page * n;
    assert offset == WORD * (q * n) + 0;
  }

  /**
   * `segment_words`. For every geometry that fits: the declared runs stay inside their own regions exactly
   * when a page holds the supervision block, and then no two of them share a byte; their 64-bit words sit at
   * multiples of eight exactly when pages do.
   */
  method SegmentRuns(g: Geometry) returns (words: seq<WordRun>, ghost rs: seq<RegionSpec>)
    ensures words == Declared(g, rs)
    ensures Fits(g) ==> EndToEnd(g, rs, TotalBytes(g))
    ensures Fits(g) ==> forall i :: 0 <= i < |rs| ==> Region(g, rs[i].kind) == Some(rs[i])
    ensures Fits(g) ==> (StayInside(g, rs) <==> g.page >= SUPERVISION_END)
    ensures Fits(g) && g.page >= SUPERVISION_END ==> AllApart(words) && AllWithin(words, 0, TotalBytes(g))
    ensures Fits(g) && g.page >= SUPERVISION_END ==> (EightAligned(g, rs) <==> g.page % WORD == 0)
  {
    hide Region, RunsOf, AllApart, AllWithin, EightAligned, StayInside, Roomy, EndToEnd, Fits, TotalBytes;
    var regions := Regions(g);
    rs := regions;
    words := [One(AT_GENERATION)];
    assert regions[..0] == [];
    for i := 0 to |regions|
      invariant words == Declared(g, regions[..i])
    {
      assert regions[..i + 1][..i] == regions[..i];
      words := words + RunsOf(g, regions[i]);
    }
    assert regions[..|regions|] == regions;
    if Fits(g) {
      SegmentSeparate(g, regions);
    }
  }

  lemma {:induction false} EndIsTotal(g: Geometry, rs: seq<RegionSpec>)
    requires EndToEnd(g, rs, TotalBytes(g))
    ensures EndBefore(g, rs, |rs|) == TotalBytes(g)
  {
    hide TotalBytes, Aligned;
  }

  lemma {:induction false} RoomyStaysInside(g: Geometry, rs: seq<RegionSpec>)
    requires Roomy(g, rs)
    ensures StayInside(g, rs)
  {
    hide RunsOf, AllWithin, Aligned;
    forall i | 0 <= i < |rs| ensures AllWithin(RunsOf(g, rs[i]), rs[i].offset, rs[i].offset + rs[i].len) {
      RegionRunsSeparate(g, rs[i]);
    }
  }

  lemma {:induction false} SegmentSeparate(g: Geometry, rs: seq<RegionSpec>)
    requires Fits(g) && EndToEnd(g, rs, TotalBytes(g)) && rs != []
    requires forall i :: 0 <= i < |rs| ==> Region(g, rs[i].kind) == Some(rs[i])
    requires forall kind :: Region(g, kind).Some? ==> Region(g, kind).value in rs
    ensures StayInside(g, rs) <==> g.page >= SUPERVISION_END
    ensures g.page >= SUPERVISION_END ==> AllApart(Declared(g, rs)) && AllWithin(Declared(g, rs), 0, TotalBytes(g))
    ensures g.page >= SUPERVISION_END ==> (EightAligned(g, rs) <==> g.page % WORD == 0)
  {
    hide Region, RunsOf, AllApart, AllWithin, EightAligned, Fits, TotalBytes, Aligned, SpecOf, Roomy, EndToEnd,
      Declared, EndBefore;
    RegionIsSpec(g, Supervision);
    EndIsTotal(g, rs);
    if g.page >= SUPERVISION_END {
      LaidOutIsRoomy(g, rs);
      DeclaredSeparate(g, rs);
      AlignmentIffPage(g, rs);
      RoomyStaysInside(g, rs);
    } else {
      ShortPageSpills(g, rs);
    }
  }
}
