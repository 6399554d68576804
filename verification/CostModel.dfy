// The compress-or-not decision (crates/archive/src/codec.rs) and the chunk records
// it yields (crates/archive/src/archive.rs, `chunk_with` and the record builders).

module CostModel {
  import opened Wire
  import opened Manifest
  import opened Merkle
  import opened Container
  import opened Sampler

  const PERMILLE := 1000
  const CHUNK_METADATA_BYTES := 32 + 8 + 8 + 1 + 1 + 32
  const ZSTD_OVER_LZ4_PRIOR_PERMILLE := 730
  const I128_MAX := 0x7FFF_FFFF_FFFF_FFFF_FFFF_FFFF_FFFF_FFFF

  datatype CodecRate = CodecRate(level: int, compressNs: U64, decompressNs: U64, ratioPermille: U64)

  datatype CodecPolicy = CodecPolicy(
    lz4: Option<CodecRate>, zstd: seq<CodecRate>, byteNs: U64, valueOfByte: U64, valueOfCpu: U64, expectedReads: U64)

  datatype Choice = StoreRaw | StoreLz4 | StoreZstd(level: int)

  // -------------------------------------------------------------------- worth

  /** Saturation to a 128-bit signed integer. */
  function Sat(x: int): int { Max(-I128_MAX - 1, Min(x, I128_MAX)) }

  function Saved(raw: nat, stored: nat): nat { if stored <= raw then raw - stored else 0 }

  /** `worth`, each product and sum saturating as the source's do. */
  function Worth(p: CodecPolicy, r: CodecRate, raw: U64, stored: U64): int {
    var saved := Sat(Sat(Saved(raw, stored) * p.byteNs) * p.valueOfByte);
    var compress := Sat(r.compressNs * raw);
    var decompress := Sat(Sat(r.decompressNs * raw) * p.expectedReads);
    Sat(saved - Sat(Sat(compress + decompress) * p.valueOfCpu))
  }

  /** What the bytes saved are worth, unbounded. */
  function Gain(p: CodecPolicy, raw: nat, stored: nat): nat { Saved(raw, stored) * p.byteNs * p.valueOfByte }

  /** The scaled nanoseconds a rate spends on a chunk, unbounded. */
  function Spent(p: CodecPolicy, r: CodecRate, raw: nat): nat {
    r.compressNs * raw + r.decompressNs * raw * p.expectedReads
  }

  function Cost(p: CodecPolicy, r: CodecRate, raw: nat): nat { Spent(p, r, raw) * p.valueOfCpu }

  function Cap(x: nat): nat { Min(x, I128_MAX) }

  lemma {:induction false} CapProduct(a: nat, b: nat)
    ensures Sat(Cap(a) * b) == Cap(a * b)
  {
    if b > 0 && a > I128_MAX {
      assert I128_MAX * 1 <= I128_MAX * b;
      assert a * b >= I128_MAX * b by { MulLe(I128_MAX, a, b); }
    }
  }

  /** Capping each step is capping each side once: a worth is two capped sums apart, never a wrapped one. */
  lemma {:induction false} WorthIsCapped(p: CodecPolicy, r: CodecRate, raw: U64, stored: U64)
    ensures Worth(p, r, raw, stored) == Cap(Gain(p, raw, stored)) - Cap(Cost(p, r, raw))
  {
    var saved := Saved(raw, stored) * p.byteNs;
    assert Sat(saved) == Cap(saved);
    CapProduct(saved, p.valueOfByte);
    var c, d := r.compressNs * raw, r.decompressNs * raw;
    assert Sat(c) == Cap(c) && Sat(d) == Cap(d);
    CapProduct(d, p.expectedReads);
    assert Sat(Cap(c) + Cap(d * p.expectedReads)) == Cap(Spent(p, r, raw));
    CapProduct(Spent(p, r, raw), p.valueOfCpu);
  }

  /** A positive worth is a real gain; and every real gain shows unless both sides pass the cap. */
  lemma {:induction false} WorthSign(p: CodecPolicy, r: CodecRate, raw: U64, stored: U64)
    ensures Worth(p, r, raw, stored) > 0 <==> Gain(p, raw, stored) > Cost(p, r, raw) && Cost(p, r, raw) < I128_MAX
  {
    hide Worth, Gain, Cost;
    WorthIsCapped(p, r, raw, stored);
  }

  /**
   * The objective as documented: bytes saved at what a byte is worth, less the time of one compression and of the
   * decompressions expected at what time is worth; each side no more than a 128-bit integer holds.
   */
  lemma {:induction false} WorthIsObjective(p: CodecPolicy, r: CodecRate, raw: U64, stored: U64)
    ensures Worth(p, r, raw, stored) ==
      Min(Max(raw - stored, 0) * (p.byteNs * p.valueOfByte), 0x7FFF_FFFF_FFFF_FFFF_FFFF_FFFF_FFFF_FFFF) -
      Min((r.compressNs + p.expectedReads * r.decompressNs) * raw * p.valueOfCpu,
          0x7FFF_FFFF_FFFF_FFFF_FFFF_FFFF_FFFF_FFFF)
  {
    hide Worth;
    WorthIsCapped(p, r, raw, stored);
    Associate(Max(raw - stored, 0), p.byteNs, p.valueOfByte);
    Distribute(r.compressNs, r.decompressNs, raw, p.expectedReads);
  }

  lemma {:induction false} Associate(a: int, b: int, c: int)
    ensures a * b * c == a * (b * c)
  {
  }

  lemma {:induction false} Distribute(c: int, d: int, raw: int, n: int)
    ensures c * raw + d * raw * n == (c + n * d) * raw
  {
    assert d * raw * n == (n * d) * raw;
  }

  // --------------------------------------------------------------- candidates

  /** `predicted_zstd_size`: from the probe's size, by the measured ratios or the prior; at least one. */
  function PredictedZstdSize(p: CodecPolicy, r: CodecRate, lz4Size: U64): U64 {
    var share :=
      if p.lz4.Some? && p.lz4.value.ratioPermille > 0
      then Min(r.ratioPermille * PERMILLE, U64_MAX) / p.lz4.value.ratioPermille
      else ZSTD_OVER_LZ4_PRIOR_PERMILLE;
    Max(Min(lz4Size * share, U64_MAX) / PERMILLE, 1)
  }

  /** A codec point that may be chosen, and the size it is expected to store. */
  datatype Candidate = Candidate(choice: Choice, rate: CodecRate, size: U64)

  function Lz4Candidates(p: CodecPolicy, lz4Size: U64): seq<Candidate> {
    if p.lz4.Some? then [Candidate(StoreLz4, p.lz4.value, lz4Size)] else []
  }

  /** The LZ4 point when measured, then each of the first `n` zstd points predicted under the floor. */
  function Candidates(p: CodecPolicy, lz4Size: U64, floor: nat, n: nat): seq<Candidate>
    requires n <= |p.zstd|
  {
    if n == 0 then Lz4Candidates(p, lz4Size) else
    var before := Candidates(p, lz4Size, floor, n - 1);
    var r := p.zstd[n - 1];
    var size := PredictedZstdSize(p, r, lz4Size);
    if size >= floor then before else before + [Candidate(StoreZstd(r.level), r, size)]
  }

  /** A codec point is offered exactly when it is the LZ4 point measured, or a zstd point predicted under the floor. */
  lemma {:induction false} OfferedIff(p: CodecPolicy, lz4Size: U64, floor: nat, n: nat, c: Candidate)
    requires n <= |p.zstd|
    ensures c in Candidates(p, lz4Size, floor, n) <==>
      || (p.lz4 == Some(c.rate) && c.choice == StoreLz4 && c.size == lz4Size)
      || (exists i :: 0 <= i < n && p.zstd[i] == c.rate && c.choice == StoreZstd(c.rate.level)
            && c.size == PredictedZstdSize(p, c.rate, lz4Size) < floor)
  {
    hide PredictedZstdSize;
    if n > 0 {
      OfferedIff(p, lz4Size, floor, n - 1, c);
    }
  }

  /** The LZ4 point first, then the zstd points in their order: which of equal worths is kept. */
  lemma {:induction false} OfferedInOrder(p: CodecPolicy, lz4Size: U64, floor: nat, n: nat)
    requires n < |p.zstd|
    ensures Candidates(p, lz4Size, floor, 0) <= Candidates(p, lz4Size, floor, n) <= Candidates(p, lz4Size, floor, n + 1)
    ensures forall c :: c in Candidates(p, lz4Size, floor, n + 1)[|Candidates(p, lz4Size, floor, n)|..] ==>
      c.rate == p.zstd[n]
  {
    hide PredictedZstdSize;
    if n > 0 {
      OfferedInOrder(p, lz4Size, floor, n - 1);
    }
  }

  /** A zstd prediction never exceeds the probe's size in the measured ratio of the points, and is under it by less
   *  than the roundings: a byte, and a thousandth of the probe's size. */
  lemma {:induction false} PredictionIsProportional(p: CodecPolicy, r: CodecRate, lz4Size: U64)
    requires p.lz4.Some? && p.lz4.value.ratioPermille > 0
    requires r.ratioPermille * 1000 <= U64_MAX
    requires lz4Size * (r.ratioPermille * 1000 / p.lz4.value.ratioPermille) <= U64_MAX
    ensures var predicted, ratio := PredictedZstdSize(p, r, lz4Size), p.lz4.value.ratioPermille;
      && predicted >= 1
      && (predicted > 1 ==> predicted * ratio <= lz4Size * r.ratioPermille)
      && 1000 * (lz4Size * r.ratioPermille) < 1000 * (predicted + 1) * ratio + lz4Size * ratio + 1
  {
    var l, m := p.lz4.value.ratioPermille, r.ratioPermille;
    var share := m * 1000 / l;
    Quotient(m * 1000, l);
    Quotient(lz4Size * share, 1000);
    var q := lz4Size * share / 1000;
    ShareBounds(lz4Size, m, l, share, q);
    if q < 1 {
      MulLe(q + 1, 2, l);
    }
  }

  lemma {:induction false} ShareBounds(size: nat, m: nat, l: nat, share: nat, q: nat)
    requires share * l <= m * 1000 < (share + 1) * l && q * 1000 <= size * share < (q + 1) * 1000
    ensures q * l <= size * m && 1000 * (size * m) <= 1000 * ((q + 1) * l) + size * l
  {
    ShareAtLeast(size, m, l, share, q);
    ShareAtMost(size, m, l, share, q + 1);
  }

  lemma {:induction false} ShareAtLeast(size: nat, m: nat, l: nat, share: nat, q: nat)
    requires share * l <= m * 1000 && q * 1000 <= size * share
    ensures q * l <= size * m
  {
    MulLe'(size, share * l, m * 1000);
    MulLe(q * 1000, size * share, l);
    Thousand(q, l);
    Thousand(size, m);
    Associate(size, share, l);
    Associate(size, m, 1000);
  }

  lemma {:induction false} ShareAtMost(size: nat, m: nat, l: nat, share: nat, q: nat)
    requires m * 1000 <= (share + 1) * l && size * share <= q * 1000
    ensures 1000 * (size * m) <= 1000 * (q * l) + size * l
  {
    MulLe'(size, m * 1000, (share + 1) * l);
    MulLe(size * share, q * 1000, l);
    Thousand(q, l);
    Thousand(size, m);
    Associate(size, m, 1000);
    OneMore(size, share, l);
  }

  lemma {:induction false} Thousand(a: nat, b: nat)
    ensures a * 1000 * b == 1000 * (a * b) == a * b * 1000
  {
  }

  lemma {:induction false} OneMore(a: nat, b: nat, c: nat)
    ensures a * ((b + 1) * c) == a * b * c + a * c
  {
    Associate(a, b, c);
    assert (b + 1) * c == b * c + c;
  }

  /** Without a measured LZ4 point the prediction is 73 hundredths of the probe's size, rounded down, or one byte. */
  lemma {:induction false} PredictionByPrior(p: CodecPolicy, r: CodecRate, lz4Size: U64)
    requires (p.lz4.None? || p.lz4.value.ratioPermille == 0) && lz4Size * 730 <= U64_MAX
    ensures PredictedZstdSize(p, r, lz4Size) == if lz4Size < 2 then 1 else lz4Size * 73 / 100
  {
    assert lz4Size * 730 / 1000 == lz4Size * 73 / 100;
  }

  function WorthOf(p: CodecPolicy, raw: U64, c: Candidate): int { Worth(p, c.rate, raw, c.size) }

  /** The best so far: a later candidate replaces it only by being worth more, and raw is worth nothing. */
  function Best(p: CodecPolicy, raw: U64, cs: seq<Candidate>): Option<Candidate> {
    if cs == [] then None else
    var before, c := Best(p, raw, cs[..|cs| - 1]), cs[|cs| - 1];
    if WorthOf(p, raw, c) > BestWorth(p, raw, before) then Some(c) else before
  }

  function BestWorth(p: CodecPolicy, raw: U64, best: Option<Candidate>): int {
    if best.None? then 0 else WorthOf(p, raw, best.value)
  }

  function ChoiceOf(best: Option<Candidate>): Choice { if best.None? then StoreRaw else best.value.choice }

  /** The choice is the greatest worth of all, raw's nothing included, and it is one of the candidates. */
  lemma {:induction false} BestIsGreatest(p: CodecPolicy, raw: U64, cs: seq<Candidate>)
    ensures Best(p, raw, cs).Some? ==> Best(p, raw, cs).value in cs && WorthOf(p, raw, Best(p, raw, cs).value) > 0
    ensures forall i :: 0 <= i < |cs| ==> WorthOf(p, raw, cs[i]) <= BestWorth(p, raw, Best(p, raw, cs))
    ensures BestWorth(p, raw, Best(p, raw, cs)) >= 0
  {
    hide WorthOf;
    if cs != [] {
      BestIsGreatest(p, raw, cs[..|cs| - 1]);
    }
  }

  lemma {:induction false} BestSnoc(p: CodecPolicy, raw: U64, cs: seq<Candidate>, c: Candidate)
    ensures Best(p, raw, []) == None
    ensures Best(p, raw, cs + [c]) ==
      if WorthOf(p, raw, c) > BestWorth(p, raw, Best(p, raw, cs)) then Some(c) else Best(p, raw, cs)
  {
    hide WorthOf;
    assert (cs + [c])[..|cs|] == cs;
  }

  // ----------------------------------------------------------------- decision

  function Floor(raw: nat): nat { if raw > CHUNK_METADATA_BYTES then raw - CHUNK_METADATA_BYTES else 0 }

  predicate HasCodecs(p: CodecPolicy) { p.lz4.Some? || p.zstd != [] }

  /** Whether the probe gets to choose: it beats the floor. */
  predicate Probed(C: Codecs, b: Bytes) { |C.lz4(b)| < Floor(|b|) }

  /** What `decide` chooses among. */
  function Offered(C: Codecs, p: CodecPolicy, b: Bytes): seq<Candidate>
    requires |b| <= U64_MAX && Probed(C, b)
  {
    Candidates(p, |C.lz4(b)|, Floor(|b|), |p.zstd|)
  }

  /** What `decide` picks once the probe has beaten the floor. */
  function Picked(C: Codecs, p: CodecPolicy, b: Bytes): Option<Candidate>
    requires |b| <= U64_MAX && Probed(C, b)
  {
    Best(p, |b|, Offered(C, p, b))
  }

  /** The decision: nothing without a codec, when sampled out or when the probe misses the floor. */
  ghost function Decision(C: Codecs, p: CodecPolicy, b: Bytes): Option<Candidate>
    requires |b| <= U64_MAX
  {
    if !HasCodecs(p) || SampledOut(b) || !Probed(C, b) then None else Picked(C, p, b)
  }

  /** Something is chosen exactly when not sampled out, the probe beats the floor and an offer is worth having. */
  lemma {:induction false} DecisionIff(C: Codecs, p: CodecPolicy, b: Bytes)
    requires |b| <= U64_MAX
    ensures Decision(C, p, b).Some? <==>
      !SampledOut(b) && Probed(C, b) && exists c :: c in Offered(C, p, b) && WorthOf(p, |b|, c) > 0
    ensures Decision(C, p, b).Some? ==>
      var d := Decision(C, p, b).value;
      d in Offered(C, p, b) && forall c :: c in Offered(C, p, b) ==> WorthOf(p, |b|, c) <= WorthOf(p, |b|, d)
  {
    hide SampledOut, Candidates, WorthOf, Best;
    if Probed(C, b) {
      var cs := Offered(C, p, b);
      BestIsGreatest(p, |b|, cs);
      if !HasCodecs(p) {
        NothingOffered(p, |C.lz4(b)|, Floor(|b|));
      }
    }
  }

  lemma {:induction false} NothingOffered(p: CodecPolicy, lz4Size: U64, floor: nat)
    requires !HasCodecs(p)
    ensures Candidates(p, lz4Size, floor, |p.zstd|) == []
  {
  }

  /** What beats the floor saves room: the whole record, its fixed fields included, is shorter than the bytes. */
  lemma {:induction false} ProbedRecordIsShorter(C: Codecs, b: Bytes, c: Chunk)
    ensures Probed(C, b) && c.payload == C.lz4(b) ==> RecordLength(c) < |b|
    ensures !Probed(C, b) && c.payload == C.lz4(b) ==> RecordLength(c) >= |b|
  {
  }

  /**
   * `decide`. Raw without a codec, for a hole, for a chunk judged incompressible and when the probe does not
   * beat the floor; otherwise the candidate of greatest worth. The probe's output comes back with LZ4 only.
   */
  method Decide(C: Codecs, p: CodecPolicy, b: Bytes) returns (choice: Choice, probe: Option<Bytes>)
    requires |b| <= U64_MAX
    ensures probe == if choice == StoreLz4 then Some(C.lz4(b)) else None
    ensures choice == ChoiceOf(Decision(C, p, b))
  {
    hide Judged, SampleFrom, WorthOf, PredictedZstdSize, Best;
    if !HasCodecs(p) {
      return StoreRaw, None;
    }
    var sampled := Sample(b);
    if sampled == Zero || sampled == Incompressible {
      return StoreRaw, None;
    }
    if Judged(SampleFrom(b, 0), Incompressible) {
      JudgedOnce(SampleFrom(b, 0), sampled, Incompressible);
    }
    var floor := Floor(|b|);
    if floor == 0 {
      return StoreRaw, None;
    }
    var compressed := C.lz4(b);
    if |compressed| >= floor {
      return StoreRaw, None;
    }
    var size := |compressed|;
    var best: Option<Candidate>, worth := None, 0;
    BestSnoc(p, |b|, [], Candidate(StoreRaw, CodecRate(0, 0, 0, 0), 0));
    if p.lz4.Some? {
      var c := Candidate(StoreLz4, p.lz4.value, size);
      BestSnoc(p, |b|, [], c);
      assert [] + [c] == [c];
      if WorthOf(p, |b|, c) > worth {
        best, worth := Some(c), WorthOf(p, |b|, c);
      }
    }
    for i := 0 to |p.zstd|
      invariant best == Best(p, |b|, Candidates(p, size, floor, i))
      invariant worth == BestWorth(p, |b|, best)
    {
      var predicted := PredictedZstdSize(p, p.zstd[i], size);
      if predicted < floor {
        var c := Candidate(StoreZstd(p.zstd[i].level), p.zstd[i], predicted);
        BestSnoc(p, |b|, Candidates(p, size, floor, i), c);
        if WorthOf(p, |b|, c) > worth {
          best, worth := Some(c), WorthOf(p, |b|, c);
        }
      }
    }
    choice := ChoiceOf(best);
    return choice, if choice == StoreLz4 then Some(compressed) else None;
  }

  // ------------------------------------------------------------- monotonicity

  function SavedBy(raw: nat, best: Option<Candidate>): nat {
    if best.None? then 0 else Saved(raw, best.value.size)
  }

  function SpentBy(p: CodecPolicy, raw: nat, best: Option<Candidate>): nat {
    if best.None? then 0 else Spent(p, best.value.rate, raw)
  }

  /** What a choice is worth: each side capped once. */
  function Net(p: CodecPolicy, raw: nat, best: Option<Candidate>): int {
    if best.None? then 0 else Cap(Gain(p, raw, best.value.size)) - Cap(Cost(p, best.value.rate, raw))
  }

  lemma {:induction false} BestNets(p: CodecPolicy, raw: U64, cs: seq<Candidate>, other: Option<Candidate>)
    requires other.Some? ==> other.value in cs
    ensures Net(p, raw, other) <= Net(p, raw, Best(p, raw, cs))
    ensures Best(p, raw, cs).Some? ==> Best(p, raw, cs).value in cs && Net(p, raw, Best(p, raw, cs)) > 0
  {
    hide Best, Worth, Gain, Cost;
    BestIsGreatest(p, raw, cs);
    var best := Best(p, raw, cs);
    if other.Some? {
      WorthIsCapped(p, other.value.rate, raw, other.value.size);
    }
    if best.Some? {
      WorthIsCapped(p, best.value.rate, raw, best.value.size);
    }
  }

  /** The exchange argument: a greater price cannot lower what is bought. */
  lemma {:induction false} Exchange(s: int, k: int, s': int, k': int, v: int, v': int)
    requires v < v' && s * v - k >= s' * v - k' && s' * v' - k' >= s * v' - k
    ensures s' >= s
  {
    assert (s - s') * (v' - v) == s * v' - s * v - s' * v' + s' * v;
    if s' < s {
      Positive(s - s', v' - v);
    }
  }

  lemma {:induction false} Positive(a: int, b: int)
    requires a > 0 && b > 0
    ensures a * b > 0
  {
  }

  lemma {:induction false} SameCandidates(p: CodecPolicy, p': CodecPolicy, lz4Size: U64, floor: nat, n: nat)
    requires p.lz4 == p'.lz4 && p.zstd == p'.zstd && n <= |p.zstd|
    ensures Candidates(p, lz4Size, floor, n) == Candidates(p', lz4Size, floor, n)
  {
    if n > 0 {
      SameCandidates(p, p', lz4Size, floor, n - 1);
    }
  }

  lemma {:induction false} SameOffered(C: Codecs, p: CodecPolicy, q: CodecPolicy, b: Bytes)
    requires |b| <= U64_MAX && Probed(C, b) && p.lz4 == q.lz4 && p.zstd == q.zstd
    ensures Offered(C, p, b) == Offered(C, q, b)
  {
    hide Candidates;
    SameCandidates(p, q, |C.lz4(b)|, Floor(|b|), |p.zstd|);
  }

  /** What a choice gains is what it saves, at the price of a byte; no more where it saves no more. */
  lemma {:induction false} GainOrder(p: CodecPolicy, raw: nat, less: Option<Candidate>, more: Option<Candidate>)
    requires SavedBy(raw, less) <= SavedBy(raw, more)
    ensures SavedBy(raw, less) * p.byteNs * p.valueOfByte <= SavedBy(raw, more) * p.byteNs * p.valueOfByte
  {
    MulLe(SavedBy(raw, less), SavedBy(raw, more), p.byteNs);
    MulLe(SavedBy(raw, less) * p.byteNs, SavedBy(raw, more) * p.byteNs, p.valueOfByte);
  }

  /** Net without a cap on the gain. */
  lemma {:induction false} NetOfSaved(p: CodecPolicy, raw: nat, best: Option<Candidate>)
    requires SavedBy(raw, best) * p.byteNs * p.valueOfByte <= I128_MAX
    ensures Net(p, raw, best) == SavedBy(raw, best) * p.byteNs * p.valueOfByte - CappedCost(p, raw, best)
  {
  }

  function CappedCost(p: CodecPolicy, raw: nat, best: Option<Candidate>): nat {
    if best.None? then 0 else Cap(Cost(p, best.value.rate, raw))
  }

  /** Net without a cap on the cost. */
  lemma {:induction false} NetOfSpent(p: CodecPolicy, raw: nat, best: Option<Candidate>)
    requires SpentBy(p, raw, best) * p.valueOfCpu <= I128_MAX
    ensures Net(p, raw, best) == CappedGain(p, raw, best) - SpentBy(p, raw, best) * p.valueOfCpu
  {
  }

  function CappedGain(p: CodecPolicy, raw: nat, best: Option<Candidate>): nat {
    if best.None? then 0 else Cap(Gain(p, raw, best.value.size))
  }

  /** Of two choices, each the better net at its own price of a byte, the dearer price saves no fewer bytes. */
  lemma {:induction false} BytesExchange(
    p: CodecPolicy, q: CodecPolicy, raw: nat, was: Option<Candidate>, now: Option<Candidate>)
    requires q == p.(valueOfByte := q.valueOfByte) && p.valueOfByte < q.valueOfByte
    requires Net(p, raw, now) <= Net(p, raw, was) && Net(q, raw, was) <= Net(q, raw, now)
    requires was.Some? && Net(p, raw, was) > 0 && Gain(q, raw, was.value.size) <= I128_MAX
    ensures SavedBy(raw, was) <= SavedBy(raw, now)
  {
    hide Net, CappedCost;
    var s, s' := SavedBy(raw, was), SavedBy(raw, now);
    if s' < s {
      GainOrder(q, raw, now, was);
      GainOrder(p, raw, now, was);
      MulLe'(s * p.byteNs, p.valueOfByte, q.valueOfByte);
      NetOfSaved(p, raw, was);
      NetOfSaved(p, raw, now);
      NetOfSaved(q, raw, was);
      NetOfSaved(q, raw, now);
      SameCost(p, q, raw, was);
      SameCost(p, q, raw, now);
      Exchange(s * p.byteNs, CappedCost(p, raw, was), s' * p.byteNs, CappedCost(p, raw, now),
               p.valueOfByte, q.valueOfByte);
      if p.byteNs > 0 {
        Cancel(s, s', p.byteNs);
      }
    }
  }

  lemma {:induction false} MulLe'(c: nat, a: nat, b: nat)
    requires a <= b
    ensures c * a <= c * b
  {
    MulLe(a, b, c);
  }

  lemma {:induction false} SameCost(p: CodecPolicy, q: CodecPolicy, raw: nat, best: Option<Candidate>)
    requires p.expectedReads == q.expectedReads && p.valueOfCpu == q.valueOfCpu
    ensures CappedCost(p, raw, best) == CappedCost(q, raw, best)
  {
  }

  /**
   * Raising only the value of a byte never decides for fewer bytes saved, unless at the raised value what was
   * decided passes the cap of a worth; then what is decided instead costs no more.
   */
  lemma {:induction false} DearerBytesSaveMore(C: Codecs, p: CodecPolicy, b: Bytes, valueOfByte: U64)
    requires |b| <= U64_MAX && p.valueOfByte <= valueOfByte
    ensures var q := p.(valueOfByte := valueOfByte);
      var was, now := Decision(C, p, b), Decision(C, q, b);
      || SavedBy(|b|, was) <= SavedBy(|b|, now)
      || (Gain(q, |b|, was.value.size) > I128_MAX && CappedCost(q, |b|, now) <= CappedCost(q, |b|, was))
  {
    hide Offered, Best, SavedBy, Gain, Cost, Probed, SampledOut;
    var q := p.(valueOfByte := valueOfByte);
    var was, now := Decision(C, p, b), Decision(C, q, b);
    assert was.None? ==> SavedBy(|b|, was) == 0 by { NothingSaved(|b|); }
    if was.Some? {
      SameOffered(C, p, q, b);
      BestNets(p, |b|, Offered(C, p, b), None);
      BestNets(q, |b|, Offered(C, p, b), was);
      BestNets(p, |b|, Offered(C, p, b), now);
      if p.valueOfByte == valueOfByte {
        assert q == p;
      } else if Gain(q, |b|, was.value.size) <= I128_MAX {
        BytesExchange(p, q, |b|, was, now);
      }
    }
  }

  function Ones(n: nat): (b: Bytes)
    ensures |b| == n
    ensures forall i :: 0 <= i < n ==> b[i] == 1
  {
    if n == 0 then [] else Ones(n - 1) + [1]
  }

  /** A lawful compressor that shortens one chunk. */
  function Shortened(b: Bytes): Bytes { if b == Ones(512) then Zeros(200) else b }

  function Lengthened(b: Bytes, space: nat): Option<Bytes> {
    if b == Zeros(200) && space == 512 then Some(Ones(512)) else InPlace(b, space)
  }

  /** Past the cap it does fail: the same chunk decided for 412 bytes saved is then decided for 312. */
  lemma {:induction false} CappedBytesSaveFewer(H: Hasher) returns (C: Codecs, p: CodecPolicy, valueOfByte: U64)
    ensures Lawful(C) && p.valueOfByte < valueOfByte
    ensures SavedBy(512, Decision(C, p, Ones(512))) == 412
    ensures SavedBy(512, Decision(C, p.(valueOfByte := valueOfByte), Ones(512))) == 312
  {
    C := Codecs(H, Shortened, Lengthened, (b, level) => None, InPlace);
    p := CodecPolicy(Some(CodecRate(0, 0, 0, 500)), [CodecRate(1, 1, 0, 250)], 0x8000_0000_0000_0000, 1, 1, 0);
    valueOfByte := 0x8000_0000_0000_0000;
    ShortenedIsLawful(C);
    RepeatedIsSampled();
    TwoOffered(C, p);
    TwoOffered(C, p.(valueOfByte := valueOfByte));
  }

  lemma {:induction false} ShortenedIsLawful(C: Codecs)
    requires C.lz4 == Shortened && C.unlz4 == Lengthened && C.unzstd == InPlace
    requires forall b: Bytes, level: int :: C.zstd(b, level).None?
    ensures Lawful(C)
  {
    hide Ones, Zeros;
    forall b: Bytes ensures Lengthened(Shortened(b), |b|) == Some(b) {
      ShortenedLengthens(b);
    }
    assert forall p: Bytes, n: nat :: Lengthened(p, n).Some? ==> |Lengthened(p, n).value| <= n;
  }

  lemma {:induction false} ShortenedLengthens(b: Bytes)
    ensures Lengthened(Shortened(b), |b|) == Some(b)
  {
    hide Ones, Zeros;
  }

  lemma {:induction false} RepeatedIsSampled()
    ensures !SampledOut(Ones(512))
  {
    hide IsCoreSize, Counts, Verdict, Ones;
    var b := Ones(512);
    assert b[0] == 1;
    assert SampleFrom(b, 512) == [];
    assert SampleFrom(b, 256) == b[256..272] + [];
    var s := SampleFrom(b, 0);
    assert s == b[0..16] + b[256..272];
    assert forall i :: 0 <= i < 32 ==> s[i] == 1;
    assert s[..16] == s[16..32];
  }

  lemma {:induction false} TwoOffered(C: Codecs, p: CodecPolicy)
    requires C.lz4 == Shortened
    requires p.lz4 == Some(CodecRate(0, 0, 0, 500)) && p.zstd == [CodecRate(1, 1, 0, 250)]
    requires p.byteNs == 0x8000_0000_0000_0000 && p.valueOfByte in {1, 0x8000_0000_0000_0000}
    requires p.valueOfCpu == 1 && p.expectedReads == 0
    ensures Probed(C, Ones(512))
    ensures SavedBy(512, Picked(C, p, Ones(512))) == if p.valueOfByte == 1 then 412 else 312
  {
    hide Worth, Ones, Zeros;
    var lz4, zstd := Candidate(StoreLz4, p.lz4.value, 200), Candidate(StoreZstd(1), p.zstd[0], 100);
    assert Candidates(p, 200, 430, 0) == [lz4];
    assert Candidates(p, 200, 430, 1) == [lz4, zstd];
    WorthIsCapped(p, lz4.rate, 512, 200);
    WorthIsCapped(p, zstd.rate, 512, 100);
    BestSnoc(p, 512, [], lz4);
    assert [] + [lz4] == [lz4] && [lz4] + [zstd] == [lz4, zstd];
    BestSnoc(p, 512, [lz4], zstd);
  }

  lemma {:induction false} NothingSaved(raw: nat)
    ensures SavedBy(raw, None) == 0
  {
  }

  lemma {:induction false} SameSpent(p: CodecPolicy, q: CodecPolicy, raw: nat, best: Option<Candidate>)
    requires p.expectedReads == q.expectedReads
    ensures SpentBy(p, raw, best) == SpentBy(q, raw, best)
  {
  }

  lemma {:induction false} Cancel(a: nat, b: nat, c: nat)
    requires c > 0 && a * c <= b * c
    ensures a <= b
  {
    assert (a - b) * c == a * c - b * c;
    if a > b {
      Positive(a - b, c);
    }
  }

  /** Of two choices, each the better net at its own price of time, the dearer price spends no more of it. */
  lemma {:induction false} CpuExchange(
    p: CodecPolicy, q: CodecPolicy, raw: nat, was: Option<Candidate>, now: Option<Candidate>)
    requires q == p.(valueOfCpu := q.valueOfCpu) && p.valueOfCpu < q.valueOfCpu
    requires Net(p, raw, now) <= Net(p, raw, was) && Net(q, raw, was) <= Net(q, raw, now)
    requires now.Some? ==> Net(q, raw, now) > 0
    ensures SpentBy(p, raw, now) <= SpentBy(p, raw, was)
  {
    hide Net, CappedGain, SpentBy;
    var t: nat, t': nat := SpentBy(p, raw, was), SpentBy(p, raw, now);
    if t < t' {
      SameSpent(p, q, raw, was);
      SameSpent(p, q, raw, now);
      PositiveNet(q, raw, now);
      SmallerProducts(t, t', p.valueOfCpu, q.valueOfCpu);
      NetOfSpent(p, raw, was);
      NetOfSpent(p, raw, now);
      NetOfSpent(q, raw, was);
      NetOfSpent(q, raw, now);
      SameGain(p, q, raw, was);
      SameGain(p, q, raw, now);
      ExchangeSpent(t, CappedGain(p, raw, was), t', CappedGain(p, raw, now), p.valueOfCpu, q.valueOfCpu);
    }
  }

  lemma {:induction false} SmallerProducts(t: nat, t': nat, v: nat, v': nat)
    requires t <= t' && v <= v'
    ensures t * v <= t' * v' && t * v' <= t' * v' && t' * v <= t' * v'
  {
    MulLe(t, t', v);
    MulLe(t, t', v');
    MulLe'(t', v, v');
  }

  lemma {:induction false} ExchangeSpent(t: int, g: int, t': int, g': int, v: int, v': int)
    requires v < v' && g - t * v >= g' - t' * v && g' - t' * v' >= g - t * v'
    ensures t' <= t
  {
    Exchange(-t, -g, -t', -g', v, v');
  }

  /** Time spent past the cap is never worth it. */
  lemma {:induction false} PositiveNet(p: CodecPolicy, raw: nat, best: Option<Candidate>)
    requires best.Some? ==> Net(p, raw, best) > 0
    ensures SpentBy(p, raw, best) * p.valueOfCpu <= I128_MAX
  {
  }

  lemma {:induction false} SameGain(p: CodecPolicy, q: CodecPolicy, raw: nat, best: Option<Candidate>)
    requires p.byteNs == q.byteNs && p.valueOfByte == q.valueOfByte
    ensures CappedGain(p, raw, best) == CappedGain(q, raw, best)
  {
  }

  /** Raising only the value of processor time never decides for more of it, whatever passes its cap. */
  lemma {:induction false} DearerCpuSpendsLess(C: Codecs, p: CodecPolicy, b: Bytes, valueOfCpu: U64)
    requires |b| <= U64_MAX && p.valueOfCpu <= valueOfCpu
    ensures SpentBy(p, |b|, Decision(C, p.(valueOfCpu := valueOfCpu), b)) <= SpentBy(p, |b|, Decision(C, p, b))
  {
    hide Offered, Best, SpentBy, Net, Probed, SampledOut;
    var q := p.(valueOfCpu := valueOfCpu);
    var was, now := Decision(C, p, b), Decision(C, q, b);
    if HasCodecs(p) && !SampledOut(b) && Probed(C, b) {
      SameOffered(C, p, q, b);
      BestNets(p, |b|, Offered(C, p, b), None);
      BestNets(q, |b|, Offered(C, p, b), None);
      BestNets(p, |b|, Offered(C, p, b), now);
      BestNets(q, |b|, Offered(C, p, b), was);
      if p.valueOfCpu == valueOfCpu {
        assert q == p;
      } else {
        CpuExchange(p, q, |b|, was, now);
      }
    }
  }

  // ------------------------------------------------------------------ records

  function RawChunk(C: Codecs, b: Bytes): Chunk
    requires |b| <= U64_MAX
  {
    Chunk(C.H(b), |b|, |b|, Raw, 0, ZERO_HASH, b)
  }

  function Lz4ChunkFrom(C: Codecs, b: Bytes, probe: Option<Bytes>): Chunk
    requires |b| <= U64_MAX
  {
    var compressed := if probe.Some? then probe.value else C.lz4(b);
    if |compressed| < |b| then Chunk(C.H(b), |b|, |compressed|, Lz4, 0, ZERO_HASH, compressed) else RawChunk(C, b)
  }

  function ZstdChunkAt(C: Codecs, b: Bytes, level: int): Chunk
    requires |b| <= U64_MAX
  {
    var compressed := C.zstd(b, level);
    if compressed.Some? && |compressed.value| < |b|
    then Chunk(C.H(b), |b|, |compressed.value|, Zstd, Min(Max(level, 0), U8_MAX), ZERO_HASH, compressed.value)
    else RawChunk(C, b)
  }

  /** A record of `b`: its own identity and length, no larger than `b`, canonical and decoding to `b`. */
  ghost predicate Records(C: Codecs, b: Bytes, c: Chunk) {
    && c.identity == C.H(b) && c.rawLen == |b| && c.storedLen == |c.payload| <= |b|
    && (c.encoding == Raw <==> c.storedLen == |b|)
    && (CanonicalRecord(c.rawLen, c.storedLen, c.encoding) <==> b != [])
    && (Content(C, c) == Ok(b) <==> 0 < |b| <= MAX_CHUNK_BYTES)
  }

  lemma {:induction false} RawChunkRecords(C: Codecs, b: Bytes)
    requires |b| <= U64_MAX
    ensures Records(C, b, RawChunk(C, b))
  {
  }

  lemma {:induction false} EncodedRecords(C: Codecs, b: Bytes, c: Chunk)
    requires c.identity == C.H(b) && c.rawLen == |b| && c.storedLen == |c.payload| < |b|
    requires c.encoding != Raw && Decompressed(C, c) == Some(b)
    ensures Records(C, b, c)
  {
  }

  lemma {:induction false} Lz4ChunkRecords(C: Codecs, b: Bytes, probe: Option<Bytes>)
    requires Lawful(C) && |b| <= U64_MAX && (probe.Some? ==> probe.value == C.lz4(b))
    ensures Records(C, b, Lz4ChunkFrom(C, b, probe))
  {
    hide Records;
    assert C.unlz4(C.lz4(b), |b|) == Some(b);
    if |C.lz4(b)| < |b| {
      EncodedRecords(C, b, Lz4ChunkFrom(C, b, probe));
    } else {
      RawChunkRecords(C, b);
    }
  }

  lemma {:induction false} ZstdChunkRecords(C: Codecs, b: Bytes, level: int)
    requires Lawful(C) && |b| <= U64_MAX
    ensures Records(C, b, ZstdChunkAt(C, b, level))
  {
    hide Records, Lawful;
    if C.zstd(b, level).Some? && |C.zstd(b, level).value| < |b| {
      ZstdInverts(C, b, level);
      EncodedRecords(C, b, ZstdChunkAt(C, b, level));
    } else {
      RawChunkRecords(C, b);
    }
  }

  lemma {:induction false} ZstdInverts(C: Codecs, b: Bytes, level: int)
    requires Lawful(C) && C.zstd(b, level).Some?
    ensures C.unzstd(C.zstd(b, level).value, |b|) == Some(b)
  {
  }

  /** The record is what was decided: the bytes, the LZ4 output, or zstd's at that level when it saves. */
  ghost predicate StoredAs(C: Codecs, b: Bytes, choice: Choice, c: Chunk) {
    match choice
    case StoreRaw => c.encoding == Raw && c.payload == b && c.level == 0
    case StoreLz4 => c.encoding == Lz4 && c.payload == C.lz4(b) && c.level == 0
    case StoreZstd(level) =>
      if C.zstd(b, level).Some? && |C.zstd(b, level).value| < |b|
      then
        && c.encoding == Zstd && c.payload == C.zstd(b, level).value
        && c.level == (if level < 0 then 0 else if level > 255 then 255 else level)
      else c.encoding == Raw && c.payload == b && c.level == 0
  }

  lemma {:induction false} LzIsShorter(C: Codecs, p: CodecPolicy, b: Bytes)
    requires |b| <= U64_MAX
    ensures ChoiceOf(Decision(C, p, b)) == StoreLz4 ==> |C.lz4(b)| < |b|
  {
    hide Picked, SampledOut;
  }

  /** A zstd level is recorded as its low byte only where it fits a byte, or where the low byte is the nearest. */
  lemma {:induction false} LevelIsNearest(level: int)
    ensures Min(Max(level, 0), U8_MAX) == level % 0x100 <==>
      0 <= level <= 255 || (level < 0 && level % 0x100 == 0) || (level > 255 && level % 0x100 == 255)
  {
  }

  /** `chunk_with`: whatever the policy, a record of the bytes. */
  method ChunkWith(C: Codecs, b: Bytes, p: CodecPolicy) returns (c: Chunk)
    requires Lawful(C) && |b| <= U64_MAX
    ensures Records(C, b, c)
    ensures c.dictionary == ZERO_HASH
    ensures StoredAs(C, b, ChoiceOf(Decision(C, p, b)), c)
  {
    hide Records, Judged, Lawful;
    LzIsShorter(C, p, b);
    var choice, probe := Decide(C, p, b);
    match choice {
      case StoreRaw =>
        RawChunkRecords(C, b);
        c := RawChunk(C, b);
      case StoreLz4 =>
        Lz4ChunkRecords(C, b, probe);
        c := Lz4ChunkFrom(C, b, probe);
      case StoreZstd(level) =>
        ZstdChunkRecords(C, b, level);
        c := ZstdChunkAt(C, b, level);
    }
  }
}
