// The anchor segment's layout (crates/anchor/src/layout.rs, `Geometry`): the list
// of regions laid end to end, and the arithmetic lookup that replaces it.

module Layout {
  import opened Wire

  const HEADER_BYTES := 128
  const POOL_WORD_BYTES := 8
  const POOL_EXTENTS_PER_PARTITION := 64
  const SNAPSHOT_SLOTS := 2
  const CONSENSUS_PUBLICATIONS := 2

  datatype Geometry = Geometry(
    partitions: U16, page: U64, profileBytes: U64, logBytes: U64, snapshotBytes: U64, auditBytes: U64,
    landingSlots: U32, landingSlotBytes: U64)

  datatype RegionKind =
    | Supervision
    | Profile
    | Log(p: U16)
    | Snapshot(p: U16, slot: U8)
    | Consensus(c: U8)
    | Audit
    | Landing(slot32: U32)
    | Pool

  datatype RegionSpec = RegionSpec(kind: RegionKind, offset: nat, len: nat)

  /** Bytes rounded up to whole pages, one page at least. */
  function Aligned(g: Geometry, bytes: nat): nat {
    var page := Max(g.page, 1);
    Times((Max(bytes, page) + page - 1) / page, page)
  }

  function Times(a: nat, b: nat): nat { a * b }

  lemma {:induction false} AlignedWhole(g: Geometry, bytes: nat)
    ensures Aligned(g, bytes) >= bytes && Aligned(g, bytes) >= g.page && Aligned(g, bytes) >= 1
    ensures Aligned(g, bytes) % Max(g.page, 1) == 0
    ensures Aligned(g, bytes) < Max(bytes, Max(g.page, 1)) + Max(g.page, 1)
  {
    var page := Max(g.page, 1);
    RoundUp(Max(bytes, page), page);
  }

  lemma {:induction false} RoundUp(b: nat, page: nat)
    requires page > 0
    ensures b <= (b + page - 1) / page * page < b + page
    ensures (b + page - 1) / page * page % page == 0
  {
    var q := (b + page - 1) / page;
    assert b + page - 1 < (q + 1) * page;
    assert (q + 1) * page == q * page + page;
    MultipleRemainder(q, page);
  }

  lemma {:induction false} MultipleRemainder(q: nat, page: nat)
    requires page > 0
    ensures q * page % page == 0
  {
    assert q * page == page * q + 0;
    RemainderUnique(q * page, page, q, 0);
  }

  lemma {:induction false} RemainderUnique(n: nat, d: nat, q: nat, r: nat)
    requires d > 0 && n == d * q + r && r < d
    ensures n % d == r && n / d == q
  {
    var q', r' := n / d, n % d;
    assert n == d * q' + r';
    if q' < q {
      MulLe(q' + 1, q, d);
    } else if q' > q {
      MulLe(q + 1, q', d);
    }
  }

  function ConsensusBytes(g: Geometry): U64 { Min(Min(g.logBytes * 2, U64_MAX) + g.snapshotBytes, U64_MAX) }

  function PoolBytes(g: Geometry): nat { g.partitions * POOL_EXTENTS_PER_PARTITION * POOL_WORD_BYTES }

  // ------------------------------------------------------------- closed form

  /** Where a run of equal regions starts, and one region's length. */
  datatype Place = Place(start: nat, len: nat)

  datatype Places = Places(
    supervision: Place, profile: Place, logs: Place, snapshots: Place, consensus: Place, audit: Place,
    landings: Place, pool: Place)

  /** Every run after the whole of the run before it, in unbounded arithmetic. */
  function PlacesOf(g: Geometry): Places {
    var supervision := Place(Aligned(g, HEADER_BYTES), Aligned(g, g.page));
    var profile := Place(supervision.start + supervision.len, Aligned(g, g.profileBytes));
    var logs := Place(profile.start + profile.len, Aligned(g, g.logBytes));
    var snapshots := Place(logs.start + Times(g.partitions, logs.len), Aligned(g, g.snapshotBytes));
    var consensus := Place(
      snapshots.start + Times(g.partitions * SNAPSHOT_SLOTS, snapshots.len), Aligned(g, ConsensusBytes(g)));
    var audit := Place(consensus.start + CONSENSUS_PUBLICATIONS * consensus.len, Aligned(g, g.auditBytes));
    var landings := Place(audit.start + audit.len, Aligned(g, g.landingSlotBytes));
    var pool := Place(landings.start + Times(g.landingSlots, landings.len), Aligned(g, PoolBytes(g)));
    Places(supervision, profile, logs, snapshots, consensus, audit, landings, pool)
  }

  function TotalBytes(g: Geometry): nat { PlacesOf(g).pool.start + PlacesOf(g).pool.len }

  /** The layout fits in 64 bits. */
  predicate Fits(g: Geometry) { TotalBytes(g) <= U64_MAX }

  /** The kinds this geometry has a region of. */
  predicate Listed(g: Geometry, kind: RegionKind) {
    match kind
    case Log(p) => p < g.partitions
    case Snapshot(p, slot) => p < g.partitions && slot < SNAPSHOT_SLOTS
    case Consensus(c) => c < CONSENSUS_PUBLICATIONS
    case Landing(slot) => slot < g.landingSlots
    case _ => true
  }

  function Nth(kind: RegionKind, run: Place, index: nat): RegionSpec {
    RegionSpec(kind, run.start + index * run.len, run.len)
  }

  function SpecOf(g: Geometry, kind: RegionKind): RegionSpec {
    var at := PlacesOf(g);
    match kind
    case Supervision => Nth(kind, at.supervision, 0)
    case Profile => Nth(kind, at.profile, 0)
    case Log(p) => Nth(kind, at.logs, p)
    case Snapshot(p, slot) => Nth(kind, at.snapshots, p * SNAPSHOT_SLOTS + slot)
    case Consensus(c) => Nth(kind, at.consensus, c)
    case Audit => Nth(kind, at.audit, 0)
    case Landing(slot) => Nth(kind, at.landings, slot)
    case Pool => Nth(kind, at.pool, 0)
  }

  /** What a region of the kind is for, in bytes: what it was derived to hold. */
  function Promised(g: Geometry, kind: RegionKind): nat {
    match kind
    case Supervision => g.page
    case Profile => g.profileBytes
    case Log(_) => g.logBytes
    case Snapshot(_, _) => g.snapshotBytes
    case Consensus(_) => g.logBytes + g.logBytes + g.snapshotBytes
    case Audit => g.auditBytes
    case Landing(_) => g.landingSlotBytes
    case Pool => 512 * g.partitions
  }

  /** Whole pages, one at least, holding the bytes, and no page more than that takes. */
  predicate FewestPages(g: Geometry, bytes: nat, len: nat) {
    var page := Max(g.page, 1);
    bytes <= len && page <= len && len % page == 0 && len < Max(bytes, page) + page
  }

  /** In a layout that fits, every region is the fewest whole pages that hold what it is for. */
  lemma {:induction false} RegionHolds(g: Geometry, kind: RegionKind)
    requires Fits(g)
    ensures FewestPages(g, Promised(g, kind), SpecOf(g, kind).len)
  {
    hide Aligned, Times, FewestPages, Fits, PlacesOf;
    ConsensusExact(g);
    LengthsAligned(g);
    AlignedIsFewest(g, Promised(g, kind));
  }

  lemma {:induction false} AlignedIsFewest(g: Geometry, bytes: nat)
    ensures FewestPages(g, bytes, Aligned(g, bytes))
  {
    hide Aligned;
    AlignedWhole(g, bytes);
  }

  lemma {:induction false} LengthsAligned(g: Geometry)
    ensures var at := PlacesOf(g);
      && at.supervision.len == Aligned(g, g.page) && at.profile.len == Aligned(g, g.profileBytes)
      && at.logs.len == Aligned(g, g.logBytes) && at.snapshots.len == Aligned(g, g.snapshotBytes)
      && at.consensus.len == Aligned(g, ConsensusBytes(g)) && at.audit.len == Aligned(g, g.auditBytes)
      && at.landings.len == Aligned(g, g.landingSlotBytes) && at.pool.len == Aligned(g, PoolBytes(g))
  {
    hide Aligned, Times;
  }

  lemma {:induction false} ConsensusExact(g: Geometry)
    requires Fits(g)
    ensures ConsensusBytes(g) == g.logBytes + g.logBytes + g.snapshotBytes
  {
    hide Aligned, Times, PlacesOf;
    StartsAscend(g);
    LengthsAligned(g);
    AlignedWhole(g, ConsensusBytes(g));
  }

  /** The header and every region, each in the fewest pages that hold what is promised of it, without a bound. */
  function Needed(g: Geometry): nat {
    Aligned(g, HEADER_BYTES) + Aligned(g, g.page) + Aligned(g, g.profileBytes)
    + Times(g.partitions, Aligned(g, g.logBytes)) + Times(g.partitions * SNAPSHOT_SLOTS, Aligned(g, g.snapshotBytes))
    + CONSENSUS_PUBLICATIONS * Aligned(g, g.logBytes + g.logBytes + g.snapshotBytes)
    + Aligned(g, g.auditBytes) + Times(g.landingSlots, Aligned(g, g.landingSlotBytes)) + Aligned(g, PoolBytes(g))
  }

  /** Saturation refuses nothing: a layout fits exactly when what is promised of it does. */
  lemma {:induction false} FitsIff(g: Geometry)
    ensures Fits(g) <==> Needed(g) <= U64_MAX
    ensures Fits(g) ==> TotalBytes(g) == Needed(g)
  {
    hide Aligned, Times, PoolBytes;
    var exact := g.logBytes + g.logBytes + g.snapshotBytes;
    AlignedWhole(g, exact);
    AlignedWhole(g, ConsensusBytes(g));
  }

  // -------------------------------------------------------------- the lookup

  function CheckedAdd(a: nat, b: nat): Option<nat> { if a + b <= U64_MAX then Some(a + b) else None }

  function CheckedMul(a: nat, b: nat): Option<nat> { if a * b <= U64_MAX then Some(a * b) else None }

  /** `start + count * len`, refused past 64 bits at either step. */
  function After(run: Place, count: nat): Option<nat> {
    var span := CheckedMul(count, run.len);
    if span.None? then None else CheckedAdd(run.start, span.value)
  }

  /** `runs`: the starts with every step checked. */
  function Runs(g: Geometry): Option<Places> {
    var supervision := Place(Aligned(g, HEADER_BYTES), Aligned(g, g.page));
    var profileAt := After(supervision, 1);
    if profileAt.None? then None else
    var profile := Place(profileAt.value, Aligned(g, g.profileBytes));
    var logsAt := After(profile, 1);
    if logsAt.None? then None else
    var logs := Place(logsAt.value, Aligned(g, g.logBytes));
    var snapshotsAt := After(logs, g.partitions);
    if snapshotsAt.None? then None else
    var snapshots := Place(snapshotsAt.value, Aligned(g, g.snapshotBytes));
    var slots := CheckedMul(g.partitions, SNAPSHOT_SLOTS);
    if slots.None? then None else
    var consensusAt := After(snapshots, slots.value);
    if consensusAt.None? then None else
    var consensus := Place(consensusAt.value, Aligned(g, ConsensusBytes(g)));
    var auditAt := After(consensus, CONSENSUS_PUBLICATIONS);
    if auditAt.None? then None else
    var audit := Place(auditAt.value, Aligned(g, g.auditBytes));
    var landingsAt := After(audit, 1);
    if landingsAt.None? then None else
    var landings := Place(landingsAt.value, Aligned(g, g.landingSlotBytes));
    var poolAt := After(landings, g.landingSlots);
    if poolAt.None? then None else
    var pool := Place(poolAt.value, Aligned(g, PoolBytes(g)));
    Some(Places(supervision, profile, logs, snapshots, consensus, audit, landings, pool))
  }

  function Bounded(index: nat, count: nat): Option<nat> { if index < count then Some(index) else None }

  function PartitionIndex(g: Geometry, p: nat, slot: nat, per: nat): Option<nat> {
    if p >= g.partitions || slot >= per then None else
    var base := CheckedMul(p, per);
    if base.None? then None else CheckedAdd(base.value, slot)
  }

  function NthChecked(kind: RegionKind, run: Place, index: Option<nat>): Option<RegionSpec> {
    if index.None? then None else
    var offset := After(run, index.value);
    if offset.None? then None else Some(RegionSpec(kind, offset.value, run.len))
  }

  /** `region`: one region without building the list. */
  function Region(g: Geometry, kind: RegionKind): Option<RegionSpec> {
    var found := Runs(g);
    if found.None? then None else
    var at := found.value;
    match kind
    case Supervision => NthChecked(kind, at.supervision, Some(0))
    case Profile => NthChecked(kind, at.profile, Some(0))
    case Log(p) => NthChecked(kind, at.logs, PartitionIndex(g, p, 0, 1))
    case Snapshot(p, slot) => NthChecked(kind, at.snapshots, PartitionIndex(g, p, slot, SNAPSHOT_SLOTS))
    case Consensus(c) => NthChecked(kind, at.consensus, Bounded(c, CONSENSUS_PUBLICATIONS))
    case Audit => NthChecked(kind, at.audit, Some(0))
    case Landing(slot) => NthChecked(kind, at.landings, Bounded(slot, g.landingSlots))
    case Pool => NthChecked(kind, at.pool, Some(0))
  }

  /** Each start is within the total. */
  lemma {:induction false} StartsAscend(g: Geometry)
    ensures var at := PlacesOf(g);
      && at.supervision.start + at.supervision.len <= at.profile.start
      && at.profile.start + at.profile.len <= at.logs.start
      && at.logs.start + Times(g.partitions, at.logs.len) <= at.snapshots.start
      && at.snapshots.start + Times(g.partitions * SNAPSHOT_SLOTS, at.snapshots.len) <= at.consensus.start
      && at.consensus.start + CONSENSUS_PUBLICATIONS * at.consensus.len <= at.audit.start
      && at.audit.start + at.audit.len <= at.landings.start
      && at.landings.start + Times(g.landingSlots, at.landings.len) <= at.pool.start
      && at.logs.start <= at.snapshots.start <= at.consensus.start
      && at.consensus.start <= at.audit.start <= at.landings.start <= at.pool.start
  {
    hide Aligned, Times;
  }

  lemma {:induction false} RunsArePlaces(g: Geometry)
    requires Fits(g)
    ensures Runs(g) == Some(PlacesOf(g))
  {
    hide Aligned;
    StartsAscend(g);
  }

  /** A region of a run lies within the run. */
  lemma {:induction false} NthWithin(kind: RegionKind, run: Place, index: nat, count: nat)
    requires index < count
    ensures Nth(kind, run, index).offset + run.len <= run.start + count * run.len
  {
    MulLe(index + 1, count, run.len);
    assert (index + 1) * run.len == index * run.len + run.len;
  }

  lemma {:induction false} SpecWithin(g: Geometry, kind: RegionKind)
    requires Listed(g, kind)
    ensures SpecOf(g, kind).offset + SpecOf(g, kind).len <= TotalBytes(g)
  {
    hide Aligned, PlacesOf;
    StartsAscend(g);
    var at := PlacesOf(g);
    match kind {
      case Log(p) => NthWithin(kind, at.logs, p, g.partitions);
      case Snapshot(p, slot) => NthWithin(kind, at.snapshots, p * SNAPSHOT_SLOTS + slot, g.partitions * SNAPSHOT_SLOTS);
      case Consensus(c) => NthWithin(kind, at.consensus, c, CONSENSUS_PUBLICATIONS);
      case Landing(slot) => NthWithin(kind, at.landings, slot, g.landingSlots);
      case _ =>
    }
  }

  /** The checked lookup of a region is its place in the layout, for exactly the kinds the layout has. */
  lemma {:induction false} RegionIsSpec(g: Geometry, kind: RegionKind)
    requires Fits(g)
    ensures Region(g, kind) == if Listed(g, kind) then Some(SpecOf(g, kind)) else None
  {
    hide Aligned, PlacesOf, Runs;
    RunsArePlaces(g);
    StartsAscend(g);
    if Listed(g, kind) {
      SpecWithin(g, kind);
    }
  }

  // ---------------------------------------------------------------- the list

  /** Where the header page and the first `i` regions end. */
  function EndBefore(g: Geometry, rs: seq<RegionSpec>, i: nat): nat
    requires i <= |rs|
  {
    if i == 0 then Aligned(g, HEADER_BYTES) else rs[i - 1].offset + rs[i - 1].len
  }

  /** Regions end to end from the header page on, each whole pages. */
  ghost predicate EndToEnd(g: Geometry, out: seq<RegionSpec>, end: nat) {
    && (forall i :: 0 <= i < |out| ==> out[i].offset == EndBefore(g, out, i))
    && (forall i :: 0 <= i < |out| ==> out[i].offset % Max(g.page, 1) == 0 && out[i].len % Max(g.page, 1) == 0)
    && end == EndBefore(g, out, |out|)
    && end % Max(g.page, 1) == 0
  }

  /** Every region so far is where the lookup finds it. */
  ghost predicate Placed(g: Geometry, out: seq<RegionSpec>) {
    forall i :: 0 <= i < |out| ==> Listed(g, out[i].kind) && out[i] == SpecOf(g, out[i].kind)
  }

  lemma {:induction false} AddMultiples(a: nat, b: nat, page: nat)
    requires page > 0 && a % page == 0 && b % page == 0
    ensures (a + b) % page == 0
  {
    var qa, qb := a / page, b / page;
    assert a == page * qa && b == page * qb;
    assert a + b == page * (qa + qb) + 0;
    RemainderUnique(a + b, page, qa + qb, 0);
  }

  /** One `push`: the next region after those so far. */
  method Push(g: Geometry, out: seq<RegionSpec>, at: nat, kind: RegionKind, bytes: nat)
    returns (out': seq<RegionSpec>, at': nat)
    requires Fits(g) ==> EndToEnd(g, out, at) && Placed(g, out)
    requires Fits(g) ==> Listed(g, kind) && SpecOf(g, kind) == RegionSpec(kind, at, Aligned(g, bytes))
    ensures Fits(g) ==> EndToEnd(g, out', at') && Placed(g, out')
    ensures Fits(g) ==> at' == at + Aligned(g, bytes)
    ensures forall x :: x in out ==> x in out'
    ensures Fits(g) ==> SpecOf(g, kind) in out'
    ensures out' != [] && at' == Min(out'[|out'| - 1].offset + out'[|out'| - 1].len, U64_MAX)
  {
    hide Aligned, SpecOf, Fits, EndToEnd;
    var len := Aligned(g, bytes);
    out' := out + [RegionSpec(kind, at, len)];
    at' := Min(at + len, U64_MAX);
    if Fits(g) {
      EndFits(g, kind);
      AlignedWhole(g, bytes);
      EndToEndMore(g, out, at, RegionSpec(kind, at, len));
    }
  }

  lemma {:induction false} EndToEndMore(g: Geometry, out: seq<RegionSpec>, at: nat, r: RegionSpec)
    requires EndToEnd(g, out, at) && r.offset == at && r.len % Max(g.page, 1) == 0
    ensures EndToEnd(g, out + [r], at + r.len)
  {
    hide Aligned;
    AddMultiples(at, r.len, Max(g.page, 1));
    var all := out + [r];
    forall i | 0 <= i < |all| ensures all[i].offset == EndBefore(g, all, i) {
      assert EndBefore(g, all, i) == EndBefore(g, out, i);
    }
  }

  lemma {:induction false} EndFits(g: Geometry, kind: RegionKind)
    requires Fits(g) && Listed(g, kind)
    ensures SpecOf(g, kind).offset + SpecOf(g, kind).len <= U64_MAX
  {
    SpecWithin(g, kind);
  }

  lemma {:induction false} NextPlace(g: Geometry, kind: RegionKind, run: Place, index: nat)
    ensures Nth(kind, run, index + 1).offset == Nth(kind, run, index).offset + run.len
  {
    assert (index + 1) * run.len == index * run.len + run.len;
  }

  method PushLogs(g: Geometry, out0: seq<RegionSpec>, at0: nat) returns (out: seq<RegionSpec>, at: nat)
    requires Fits(g) ==> EndToEnd(g, out0, at0) && Placed(g, out0) && at0 == PlacesOf(g).logs.start
    ensures Fits(g) ==> EndToEnd(g, out, at) && Placed(g, out) && at == PlacesOf(g).snapshots.start
    ensures forall x :: x in out0 ==> x in out
    ensures Fits(g) ==> forall p: U16 :: p < g.partitions ==> SpecOf(g, Log(p)) in out
  {
    hide Aligned, EndToEnd, Fits, Placed;
    out, at := out0, at0;
    ghost var run := PlacesOf(g).logs;
    for p := 0 to g.partitions
      invariant Fits(g) ==> EndToEnd(g, out, at) && Placed(g, out) && at == Nth(Log(0), run, p).offset
      invariant forall x :: x in out0 ==> x in out
      invariant Fits(g) ==> forall q: U16 :: q < p ==> SpecOf(g, Log(q)) in out
    {
      NextPlace(g, Log(p), run, p);
      out, at := Push(g, out, at, Log(p), g.logBytes);
    }
  }

  method PushSnapshots(g: Geometry, out0: seq<RegionSpec>, at0: nat) returns (out: seq<RegionSpec>, at: nat)
    requires Fits(g) ==> EndToEnd(g, out0, at0) && Placed(g, out0) && at0 == PlacesOf(g).snapshots.start
    ensures Fits(g) ==> EndToEnd(g, out, at) && Placed(g, out) && at == PlacesOf(g).consensus.start
    ensures forall x :: x in out0 ==> x in out
    ensures Fits(g) ==>
      forall p: U16 :: p < g.partitions ==> SpecOf(g, Snapshot(p, 0)) in out && SpecOf(g, Snapshot(p, 1)) in out
  {
    hide Aligned, EndToEnd, Fits, Placed;
    out, at := out0, at0;
    ghost var run := PlacesOf(g).snapshots;
    for p := 0 to g.partitions
      invariant Fits(g) ==> EndToEnd(g, out, at) && Placed(g, out)
      invariant Fits(g) ==> at == Nth(Pool, run, p * SNAPSHOT_SLOTS).offset
      invariant forall x :: x in out0 ==> x in out
      invariant Fits(g) ==>
        forall q: U16 :: q < p ==> SpecOf(g, Snapshot(q, 0)) in out && SpecOf(g, Snapshot(q, 1)) in out
    {
      NextPlace(g, Pool, run, p * SNAPSHOT_SLOTS);
      NextPlace(g, Pool, run, p * SNAPSHOT_SLOTS + 1);
      out, at := Push(g, out, at, Snapshot(p, 0), g.snapshotBytes);
      out, at := Push(g, out, at, Snapshot(p, 1), g.snapshotBytes);
    }
  }

  method PushLandings(g: Geometry, out0: seq<RegionSpec>, at0: nat) returns (out: seq<RegionSpec>, at: nat)
    requires Fits(g) ==> EndToEnd(g, out0, at0) && Placed(g, out0) && at0 == PlacesOf(g).landings.start
    ensures Fits(g) ==> EndToEnd(g, out, at) && Placed(g, out) && at == PlacesOf(g).pool.start
    ensures forall x :: x in out0 ==> x in out
    ensures Fits(g) ==> forall s: U32 :: s < g.landingSlots ==> SpecOf(g, Landing(s)) in out
  {
    hide Aligned, EndToEnd, Fits, Placed;
    out, at := out0, at0;
    ghost var run := PlacesOf(g).landings;
    for s := 0 to g.landingSlots
      invariant Fits(g) ==> EndToEnd(g, out, at) && Placed(g, out) && at == Nth(Pool, run, s).offset
      invariant forall x :: x in out0 ==> x in out
      invariant Fits(g) ==> forall q: U32 :: q < s ==> SpecOf(g, Landing(q)) in out
    {
      NextPlace(g, Pool, run, s);
      out, at := Push(g, out, at, Landing(s), g.landingSlotBytes);
    }
  }

  /**
   * `regions`. For every geometry that fits, the list runs end to end in whole pages up to the total, and
   * the arithmetic lookup finds each of its entries, and nothing for any other kind.
   */
  method Regions(g: Geometry) returns (out: seq<RegionSpec>)
    ensures out != []
    ensures Fits(g) ==> EndToEnd(g, out, TotalBytes(g))
    ensures Fits(g) ==> forall i :: 0 <= i < |out| ==> Region(g, out[i].kind) == Some(out[i])
    ensures Fits(g) ==> forall kind :: Region(g, kind).Some? ==> Region(g, kind).value in out
  {
    hide Aligned, EndToEnd, Fits, Region, Placed;
    out := [];
    var at := Aligned(g, HEADER_BYTES);
    assert EndToEnd(g, out, at) && Placed(g, out) by { NoRegions(g); }
    out, at := Push(g, out, at, Supervision, g.page);
    out, at := Push(g, out, at, Profile, g.profileBytes);
    out, at := PushLogs(g, out, at);
    out, at := PushSnapshots(g, out, at);
    NextPlace(g, Pool, PlacesOf(g).consensus, 0);
    NextPlace(g, Pool, PlacesOf(g).consensus, 1);
    out, at := Push(g, out, at, Consensus(0), ConsensusBytes(g));
    out, at := Push(g, out, at, Consensus(1), ConsensusBytes(g));
    out, at := Push(g, out, at, Audit, g.auditBytes);
    out, at := PushLandings(g, out, at);
    out, at := Push(g, out, at, Pool, PoolBytes(g));
    if Fits(g) {
      FoundInList(g, out);
    }
  }

  lemma {:induction false} NoRegions(g: Geometry)
    ensures EndToEnd(g, [], Aligned(g, HEADER_BYTES)) && Placed(g, [])
  {
    AlignedWhole(g, HEADER_BYTES);
  }

  lemma {:induction false} FoundInList(g: Geometry, out: seq<RegionSpec>)
    requires Fits(g) && Placed(g, out)
    requires SpecOf(g, Supervision) in out && SpecOf(g, Profile) in out
    requires SpecOf(g, Audit) in out && SpecOf(g, Pool) in out
    requires SpecOf(g, Consensus(0)) in out && SpecOf(g, Consensus(1)) in out
    requires forall p: U16 :: p < g.partitions ==> SpecOf(g, Log(p)) in out
    requires forall p: U16 :: p < g.partitions ==> SpecOf(g, Snapshot(p, 0)) in out && SpecOf(g, Snapshot(p, 1)) in out
    requires forall s: U32 :: s < g.landingSlots ==> SpecOf(g, Landing(s)) in out
    ensures forall i :: 0 <= i < |out| ==> Region(g, out[i].kind) == Some(out[i])
    ensures forall kind :: Region(g, kind).Some? ==> Region(g, kind).value in out
  {
    hide Region, SpecOf, Fits;
    forall i | 0 <= i < |out| ensures Region(g, out[i].kind) == Some(out[i]) {
      RegionIsSpec(g, out[i].kind);
    }
    forall kind | Region(g, kind).Some? ensures Region(g, kind).value in out {
      RegionIsSpec(g, kind);
    }
  }
}
