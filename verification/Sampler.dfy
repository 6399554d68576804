// The compressibility sampler (crates/archive/src/codec.rs): 16 bytes every 256,
// a histogram, the core set covering 90 % of the sample, and an integer entropy.

module Sampler {
  import opened Wire

  const SAMPLING_READ_SIZE := 16
  const SAMPLING_INTERVAL := 256
  const BYTE_SET_THRESHOLD := 64
  const BYTE_CORE_SET_LOW := 64
  const BYTE_CORE_SET_HIGH := 200
  const CORE_SET_COVERAGE_PERCENT := 90
  const ENTROPY_LVL_ACCEPTABLE := 65
  const ENTROPY_LVL_HIGH := 80
  const BITS_PER_BYTE := 8
  const PERCENT := 100
  const VALUES := 256

  /** A count for each byte value. */
  type Histogram = h: seq<nat> | |h| == VALUES witness seq(VALUES, _ => 0)

  // ------------------------------------------------------------------- sample

  /** The bytes read from `offset` on. */
  function SampleFrom(b: Bytes, offset: nat): Bytes
    decreases |b| - offset
  {
    if offset >= |b| then [] else
    b[offset..Min(offset + SAMPLING_READ_SIZE, |b|)] + SampleFrom(b, offset + SAMPLING_INTERVAL)
  }

  method CollectSample(b: Bytes) returns (s: Bytes)
    ensures s == SampleFrom(b, 0)
  {
    s := [];
    var offset := 0;
    while offset < |b|
      invariant SampleFrom(b, 0) == s + SampleFrom(b, offset)
      decreases |b| - offset
    {
      s := s + b[offset..Min(offset + SAMPLING_READ_SIZE, |b|)];
      offset := offset + SAMPLING_INTERVAL;
    }
  }

  /** The sample is a sixteenth of the bytes, rounded up within the last interval. */
  lemma {:induction false} SampleLength(b: Bytes, offset: nat)
    requires offset <= |b|
    ensures |SampleFrom(b, offset)| ==
      SAMPLING_READ_SIZE * ((|b| - offset) / SAMPLING_INTERVAL)
        + Min(SAMPLING_READ_SIZE, (|b| - offset) % SAMPLING_INTERVAL)
    decreases |b| - offset
  {
    if offset + SAMPLING_INTERVAL <= |b| {
      SampleLength(b, offset + SAMPLING_INTERVAL);
      OneInterval(|b| - offset);
    } else if offset < |b| {
      assert SampleFrom(b, offset + SAMPLING_INTERVAL) == [];
    }
  }

  lemma {:induction false} OneInterval(n: nat)
    requires n >= SAMPLING_INTERVAL
    ensures n / SAMPLING_INTERVAL == (n - SAMPLING_INTERVAL) / SAMPLING_INTERVAL + 1
    ensures n % SAMPLING_INTERVAL == (n - SAMPLING_INTERVAL) % SAMPLING_INTERVAL
  {
  }

  /** Where each sampled byte comes from. */
  lemma {:induction false} SampleAt(b: Bytes, offset: nat, q: nat, t: nat)
    requires t < SAMPLING_READ_SIZE && offset + SAMPLING_INTERVAL * q + t < |b|
    ensures SAMPLING_READ_SIZE * q + t < |SampleFrom(b, offset)|
    ensures SampleFrom(b, offset)[SAMPLING_READ_SIZE * q + t] == b[offset + SAMPLING_INTERVAL * q + t]
    decreases q
  {
    var head, rest := b[offset..Min(offset + SAMPLING_READ_SIZE, |b|)], SampleFrom(b, offset + SAMPLING_INTERVAL);
    assert SampleFrom(b, offset) == head + rest;
    if q > 0 {
      SampleAt(b, offset + SAMPLING_INTERVAL, q - 1, t);
      assert (head + rest)[|head| + SAMPLING_READ_SIZE * (q - 1) + t] == rest[SAMPLING_READ_SIZE * (q - 1) + t];
    }
  }

  function Count(s: Bytes, v: Byte): nat {
    if s == [] then 0 else Count(s[..|s| - 1], v) + if s[|s| - 1] == v then 1 else 0
  }

  /** The sum of the first `n` counts. */
  function Total(h: seq<nat>, n: nat): nat
    requires n <= |h|
  {
    if n == 0 then 0 else Total(h, n - 1) + h[n - 1]
  }

  ghost predicate Counts(h: seq<nat>, s: Bytes) {
    |h| == VALUES && forall v: Byte :: h[v] == Count(s, v)
  }

  method BuildHistogram(s: Bytes) returns (h: Histogram)
    ensures Counts(h, s)
    ensures Total(h, VALUES) == |s|
  {
    var buckets := new nat[VALUES](_ => 0);
    NoCounts(buckets[..], VALUES);
    for i := 0 to |s|
      invariant forall v: Byte :: buckets[v] == Count(s[..i], v)
      invariant Total(buckets[..], VALUES) == i
    {
      assert s[..i + 1][..i] == s[..i];
      ghost var was := buckets[..];
      buckets[s[i]] := buckets[s[i]] + 1;
      TotalBumped(was, buckets[..], s[i], VALUES);
    }
    assert s[..|s|] == s;
    h := buckets[..];
  }

  lemma {:induction false} NoCounts(h: seq<nat>, n: nat)
    requires n <= |h| && forall i :: 0 <= i < |h| ==> h[i] == 0
    ensures Total(h, n) == 0
  {
    if n > 0 {
      NoCounts(h, n - 1);
    }
  }

  lemma {:induction false} TotalBumped(h: seq<nat>, g: seq<nat>, v: nat, n: nat)
    requires v < |h| && n <= |h| && g == h[v := h[v] + 1]
    ensures Total(g, n) == Total(h, n) + if v < n then 1 else 0
  {
    if n > 0 {
      TotalBumped(h, g, v, n - 1);
    }
  }

  // ----------------------------------------------------------------- core set

  /** The counts of the byte values in `set`, summed. */
  function Covers(h: seq<nat>, n: nat, vs: set<int>): nat
    requires n <= |h|
  {
    if n == 0 then 0 else Covers(h, n - 1, vs) + if n - 1 in vs then h[n - 1] else 0
  }

  /** The same over a list of byte values. */
  function CoversIn(h: seq<nat>, order: seq<int>, vs: set<int>): nat
    requires forall i :: 0 <= i < |order| ==> 0 <= order[i] < |h|
  {
    if order == [] then 0 else
    var v := order[|order| - 1];
    CoversIn(h, order[..|order| - 1], vs) + if v in vs then h[v] else 0
  }

  function CoreTarget(len: nat): nat { Min(len * CORE_SET_COVERAGE_PERCENT, U64_MAX) / PERCENT }

  /** `r` byte values reach the target, and no fewer do (one at least). */
  ghost predicate IsCoreSize(h: Histogram, target: nat, r: nat) {
    && (exists vs: set<int> :: |vs| == r && Covers(h, VALUES, vs) >= target)
    && (forall vs: set<int> :: vs != {} && Covers(h, VALUES, vs) >= target ==> r <= |vs|)
  }

  /** Distinct byte values, each with its count, no later one more frequent; every value that occurs is there. */
  ghost predicate Ranked(h: seq<nat>, counts: seq<nat>, order: seq<int>) {
    CountsOf(h, counts, order) && NoRepeats(order) && Falling(counts)
  }

  ghost predicate CountsOf(h: seq<nat>, counts: seq<nat>, order: seq<int>) {
    && |order| == |counts|
    && (forall i :: 0 <= i < |order| ==> 0 <= order[i] < |h| && h[order[i]] == counts[i])
  }

  ghost predicate NoRepeats(order: seq<int>) { forall i, j :: 0 <= i < j < |order| ==> order[i] != order[j] }

  ghost predicate Falling(counts: seq<nat>) { forall i, j :: 0 <= i < j < |counts| ==> counts[i] >= counts[j] }

  lemma {:induction false} RankedInsert(h: seq<nat>, counts: seq<nat>, order: seq<int>, i: nat, c: nat, v: nat)
    requires Ranked(h, counts, order) && v < |h| && h[v] == c && v !in order && i <= |counts|
    requires forall j :: 0 <= j < i ==> counts[j] >= c
    requires forall j :: i <= j < |counts| ==> counts[j] < c
    ensures Ranked(h, counts[..i] + [c] + counts[i..], order[..i] + [v] + order[i..])
  {
    hide Falling, NoRepeats;
    InsertFalls(counts, i, c);
    InsertNew(order, i, v);
  }

  lemma {:induction false} InsertFalls(counts: seq<nat>, i: nat, c: nat)
    requires Falling(counts) && i <= |counts|
    requires forall j :: 0 <= j < i ==> counts[j] >= c
    requires forall j :: i <= j < |counts| ==> counts[j] < c
    ensures Falling(counts[..i] + [c] + counts[i..])
  {
    var all := counts[..i] + [c] + counts[i..];
    forall j, k | 0 <= j < k < |all| ensures all[j] >= all[k] {
      assert all[j] == if j < i then counts[j] else if j == i then c else counts[j - 1];
      assert all[k] == if k < i then counts[k] else if k == i then c else counts[k - 1];
    }
  }

  lemma {:induction false} InsertNew(order: seq<int>, i: nat, v: int)
    requires NoRepeats(order) && i <= |order| && v !in order
    ensures NoRepeats(order[..i] + [v] + order[i..])
  {
    var all := order[..i] + [v] + order[i..];
    forall j, k | 0 <= j < k < |all| ensures all[j] != all[k] {
      assert all[j] == if j < i then order[j] else if j == i then v else order[j - 1];
      assert all[k] == if k < i then order[k] else if k == i then v else order[k - 1];
    }
  }

  lemma {:induction false} InsertedMembers(order: seq<int>, i: nat, v: int)
    requires i <= |order|
    ensures forall x :: x in order[..i] + [v] + order[i..] <==> x in order || x == v
  {
    assert order == order[..i] + order[i..];
  }

  method InsertCount(h: seq<nat>, counts: seq<nat>, c: nat, ghost order: seq<int>, ghost v: nat)
    returns (counts': seq<nat>, ghost order': seq<int>)
    requires Ranked(h, counts, order) && v < |h| && h[v] == c && v !in order
    ensures Ranked(h, counts', order')
    ensures forall x :: x in order' <==> x in order || x == v
  {
    var i := |counts|;
    while i > 0 && counts[i - 1] < c
      invariant 0 <= i <= |counts|
      invariant forall j :: i <= j < |counts| ==> counts[j] < c
    {
      i := i - 1;
    }
    RankedInsert(h, counts, order, i, c, v);
    InsertedMembers(order, i, v);
    counts', order' := counts[..i] + [c] + counts[i..], order[..i] + [v] + order[i..];
  }

  /** The counts above zero, most frequent first. */
  method RankCounts(h: Histogram) returns (counts: seq<nat>, ghost order: seq<int>)
    ensures Ranked(h, counts, order)
    ensures forall v :: v in order <==> 0 <= v < VALUES && h[v] > 0
  {
    counts, order := [], [];
    for v := 0 to VALUES
      invariant Ranked(h, counts, order)
      invariant forall x :: x in order <==> 0 <= x < v && h[x] > 0
    {
      if h[v] > 0 {
        counts, order := InsertCount(h, counts, h[v], order, v);
      }
    }
  }

  lemma {:induction false} CoversWithout(h: seq<nat>, n: nat, vs: set<int>, v: nat)
    requires n <= |h| && v in vs
    ensures Covers(h, n, vs) == Covers(h, n, vs - {v}) + if v < n then h[v] else 0
  {
    if n > 0 {
      CoversWithout(h, n - 1, vs, v);
    }
  }

  lemma {:induction false} CoversInWithout(h: seq<nat>, order: seq<int>, vs: set<int>, v: int)
    requires forall i :: 0 <= i < |order| ==> 0 <= order[i] < |h|
    requires v !in order
    ensures CoversIn(h, order, vs) == CoversIn(h, order, vs - {v})
  {
    if order != [] {
      assert order[|order| - 1] != v;
      CoversInWithout(h, order[..|order| - 1], vs, v);
    }
  }

  lemma {:induction false} CoversNothing(h: seq<nat>, n: nat, vs: set<int>)
    requires n <= |h| && forall v :: 0 <= v < n && v in vs ==> h[v] == 0
    ensures Covers(h, n, vs) == 0
  {
    if n > 0 {
      CoversNothing(h, n - 1, vs);
    }
  }

  /** Summing over a list of all the values that occur is summing over the values. */
  lemma {:induction false} CoversReordered(h: seq<nat>, order: seq<int>, vs: set<int>)
    requires forall i :: 0 <= i < |order| ==> 0 <= order[i] < |h|
    requires forall i, j :: 0 <= i < j < |order| ==> order[i] != order[j]
    requires forall v :: 0 <= v < |h| && v in vs && h[v] > 0 ==> v in order
    ensures Covers(h, |h|, vs) == CoversIn(h, order, vs)
    decreases |order|
  {
    if order == [] {
      CoversNothing(h, |h|, vs);
    } else {
      var front, v := order[..|order| - 1], order[|order| - 1];
      assert v !in front;
      forall w | 0 <= w < |h| && w in vs - {v} && h[w] > 0 ensures w in front {
        assert w in order;
      }
      CoversReordered(h, front, vs - {v});
      CoversInWithout(h, front, vs, v);
      if v in vs {
        CoversWithout(h, |h|, vs, v);
      } else {
        assert vs - {v} == vs;
      }
    }
  }

  lemma {:induction false} RankedFront(h: seq<nat>, counts: seq<nat>, order: seq<int>)
    requires Ranked(h, counts, order) && counts != []
    ensures Ranked(h, counts[..|counts| - 1], order[..|order| - 1])
    ensures order[|order| - 1] !in order[..|order| - 1]
    ensures 0 <= order[|order| - 1] < |h| && h[order[|order| - 1]] == counts[|counts| - 1]
    ensures forall i :: 0 <= i < |counts| ==> counts[i] >= counts[|counts| - 1]
  {
  }

  /** Greedy is best: `k` of the ranked values cover no more than the first `k`. */
  lemma {:induction false} GreedyCoversMost(h: seq<nat>, counts: seq<nat>, order: seq<int>, vs: set<int>)
    requires |order| == |counts| && forall i :: 0 <= i < |order| ==> 0 <= order[i] < |h|
    requires Ranked(h, counts, order) && forall v :: v in vs ==> v in order
    ensures |vs| <= |counts| && CoversIn(h, order, vs) <= Total(counts, |vs|)
    decreases |counts|
  {
    hide Ranked;
    if counts == [] {
      assert order == [];
      assert forall v :: v !in vs;
      assert vs == {};
    } else {
      var n := |counts| - 1;
      var v := order[n];
      RankedFront(h, counts, order);
      assert forall w :: w in order && w != v ==> w in order[..n];
      if v in vs {
        GreedyCoversMost(h, counts[..n], order[..n], vs - {v});
        CoversInWithout(h, order[..n], vs, v);
        TotalPrefix(counts, n, |vs| - 1);
      } else {
        GreedyCoversMost(h, counts[..n], order[..n], vs);
        TotalPrefix(counts, n, |vs|);
      }
    }
  }

  lemma {:induction false} TotalPrefix(c: seq<nat>, n: nat, k: nat)
    requires k <= n <= |c|
    ensures Total(c[..n], k) == Total(c, k)
  {
    if k > 0 {
      TotalPrefix(c, n, k - 1);
    }
  }

  lemma {:induction false} TotalMonotone(c: seq<nat>, j: nat, k: nat)
    requires j <= k <= |c|
    ensures Total(c, j) <= Total(c, k)
  {
    if j < k {
      TotalMonotone(c, j, k - 1);
    }
  }

  ghost function ValuesOf(order: seq<int>): set<int> {
    if order == [] then {} else ValuesOf(order[..|order| - 1]) + {order[|order| - 1]}
  }

  lemma {:induction false} ValuesAreMembers(order: seq<int>)
    ensures forall v :: v in ValuesOf(order) <==> v in order
  {
    if order != [] {
      ValuesAreMembers(order[..|order| - 1]);
      assert order == order[..|order| - 1] + [order[|order| - 1]];
    }
  }

  lemma {:induction false} FirstCover(h: seq<nat>, counts: seq<nat>, order: seq<int>)
    requires |order| == |counts| && forall i :: 0 <= i < |order| ==> 0 <= order[i] < |h|
    requires Ranked(h, counts, order)
    ensures |ValuesOf(order)| == |counts| && CoversIn(h, order, ValuesOf(order)) == Total(counts, |counts|)
    decreases |counts|
  {
    hide Ranked;
    if counts == [] {
      assert order == [];
    } else {
      var n := |counts| - 1;
      RankedFront(h, counts, order);
      FirstCover(h, counts[..n], order[..n]);
      TotalPrefix(counts, n, n);
      ValuesAreMembers(order[..n]);
      CoversInWithout(h, order[..n], ValuesOf(order[..n]) + {order[n]}, order[n]);
      assert ValuesOf(order[..n]) + {order[n]} - {order[n]} == ValuesOf(order[..n]);
    }
  }

  lemma {:induction false} RankedPrefix(h: seq<nat>, counts: seq<nat>, order: seq<int>, k: nat)
    requires Ranked(h, counts, order) && k <= |counts|
    ensures Ranked(h, counts[..k], order[..k])
  {
  }

  lemma {:induction false} CoversInMore(h: seq<nat>, order: seq<int>, k: nat, vs: set<int>)
    requires forall i :: 0 <= i < |order| ==> 0 <= order[i] < |h|
    requires k <= |order|
    ensures CoversIn(h, order[..k], vs) <= CoversIn(h, order, vs)
    decreases |order|
  {
    if k == |order| {
      assert order[..k] == order;
    } else {
      CoversInMore(h, order[..|order| - 1], k, vs);
      assert order[..|order| - 1][..k] == order[..k];
    }
  }

  /** Any values covering the target are at least as many as the ranked prefix that falls short is long. */
  lemma {:induction false} ShortPrefixIsTooFew(
    h: Histogram, counts: seq<nat>, order: seq<int>, k: nat, target: nat, vs: set<int>)
    requires Ranked(h, counts, order) && forall v :: v in order <==> 0 <= v < VALUES && h[v] > 0
    requires k <= |counts| && Total(counts, k) < target && Covers(h, VALUES, vs) >= target
    ensures |vs| > k
  {
    var occurring := set v | v in vs && v in order;
    CoversOccurring(h, VALUES, vs, occurring);
    CoversReordered(h, order, occurring);
    GreedyCoversMost(h, counts, order, occurring);
    if |occurring| <= k {
      TotalMonotone(counts, |occurring|, k);
    }
    SubsetSize(occurring, vs);
  }

  lemma {:induction false} CoversOccurring(h: seq<nat>, n: nat, vs: set<int>, occurring: set<int>)
    requires n <= |h| && occurring <= vs && forall v :: 0 <= v < |h| && v in vs && h[v] > 0 ==> v in occurring
    ensures Covers(h, n, vs) == Covers(h, n, occurring)
  {
    if n > 0 {
      CoversOccurring(h, n - 1, vs, occurring);
    }
  }

  lemma {:induction false} PrefixReaches(h: Histogram, counts: seq<nat>, order: seq<int>, k: nat)
    requires Ranked(h, counts, order) && k <= |counts|
    requires forall v :: v in order <==> 0 <= v < VALUES && h[v] > 0
    ensures exists vs: set<int> :: |vs| == k && Covers(h, VALUES, vs) >= Total(counts, k)
  {
    RankedPrefix(h, counts, order, k);
    FirstCover(h, counts[..k], order[..k]);
    TotalPrefix(counts, k, k);
    var vs := ValuesOf(order[..k]);
    ValuesAreMembers(order[..k]);
    CoversInMore(h, order, k, vs);
    CoversReordered(h, order, vs);
  }

  /** Everything that occurs reaches any target up to the whole sample. */
  lemma {:induction false} RankedTotal(h: Histogram, counts: seq<nat>, order: seq<int>)
    requires Ranked(h, counts, order) && forall v :: v in order <==> 0 <= v < VALUES && h[v] > 0
    ensures Total(counts, |counts|) == Total(h, VALUES)
  {
    ValuesAreMembers(order);
    CoversAll(h, VALUES, ValuesOf(order));
    CoversReordered(h, order, ValuesOf(order));
    FirstCover(h, counts, order);
  }

  lemma {:induction false} CoversAll(h: seq<nat>, n: nat, all: set<int>)
    requires n <= |h| && forall v :: 0 <= v < n ==> v in all || h[v] == 0
    ensures Covers(h, n, all) == Total(h, n)
  {
    if n > 0 {
      CoversAll(h, n - 1, all);
    }
  }

  /** `core_set_size`: the fewest byte values, one at least, whose counts reach the target. */
  method CoreSetSize(h: Histogram, len: U64) returns (r: nat)
    ensures Total(h, VALUES) == len > 0 ==> r >= 1 && IsCoreSize(h, CoreTarget(len), r)
  {
    hide Ranked;
    var counts, order := RankCounts(h);
    var target := CoreTarget(len);
    var covered := 0;
    RankedTotal(h, counts, order);
    for i := 0 to |counts|
      invariant covered == Total(counts, i)
      invariant i == 0 || covered < target
    {
      covered := covered + counts[i];
      if covered >= target {
        PrefixReaches(h, counts, order, i + 1);
        forall vs: set<int> | vs != {} && Covers(h, VALUES, vs) >= target ensures i + 1 <= |vs| {
          if i > 0 {
            ShortPrefixIsTooFew(h, counts, order, i, target, vs);
          }
        }
        return i + 1;
      }
    }
    assert Total(h, VALUES) == len > 0 ==> target <= len;
    return |counts|;
  }

  // ------------------------------------------------------------------ entropy

  /** `ilog2`: the greatest power of two within `n`. */
  function Log2(n: nat): nat
    requires n > 0
  {
    if n == 1 then 0 else 1 + Log2(n / 2)
  }

  lemma {:induction false} Log2Bounds(n: nat)
    requires n > 0
    ensures Pow2(Log2(n)) <= n < 2 * Pow2(Log2(n))
  {
    if n > 1 {
      Log2Bounds(n / 2);
    }
  }

  lemma {:induction false} Pow2Strict(a: nat, b: nat)
    requires a < b
    ensures 2 * Pow2(a) <= Pow2(b)
    decreases b
  {
    if a < b - 1 {
      Pow2Strict(a, b - 1);
    }
  }

  const WRAP64 := U64_MAX + 1
  const FRACTION := 16
  const ENTROPY_FRACTION_BITS := 4

  /** One value's logarithm as the code takes it: of the shifted length over the count, less the shift. */
  function ScaledLog(len: U64, count: nat): nat
    requires count > 0
  {
    var ratio := (len * FRACTION) % WRAP64 / count;
    Max(Log2(Max(ratio, 1)) - ENTROPY_FRACTION_BITS, 0)
  }

  /** The logarithm is a floor: it never exceeds log2(len / count), whatever the shift loses. */
  lemma {:induction false} ScaledLogWithin(len: U64, count: nat)
    requires 0 < count <= len
    ensures count * Pow2(ScaledLog(len, count)) <= len
  {
    var ratio := (len * FRACTION) % WRAP64 / count;
    var k := ScaledLog(len, count);
    if k > 0 {
      Log2Bounds(Max(ratio, 1));
      assert Pow2(k + 4) == 16 * Pow2(k) by { Pow2Shift(k); }
      assert 16 * Pow2(k) <= ratio;
      DivideDown(len, count, Pow2(k));
    }
  }

  lemma {:induction false} Pow2Shift(k: nat)
    ensures Pow2(k + 4) == 16 * Pow2(k)
  {
    assert Pow2(k + 4) == 2 * Pow2(k + 3) && Pow2(k + 2) == 2 * Pow2(k + 1);
  }

  lemma {:induction false} DivideDown(len: U64, count: nat, p: nat)
    requires count > 0 && 16 * p <= (len * FRACTION) % WRAP64 / count
    ensures count * p <= len
  {
    var shifted := (len * FRACTION) % WRAP64;
    assert shifted <= len * FRACTION;
    var q := shifted / count;
    assert q * count <= shifted;
    assert 16 * p * count <= q * count by { MulLe(16 * p, q, count); }
    assert 16 * (count * p) == 16 * p * count;
  }

  /** Below 2^60 nothing is lost: the logarithm is the floor exactly. */
  lemma {:induction false} ScaledLogExact(len: U64, count: nat)
    requires 0 < count <= len && len * FRACTION < WRAP64
    ensures count * Pow2(ScaledLog(len, count)) <= len < count * (2 * Pow2(ScaledLog(len, count)))
  {
    hide Pow2, Log2;
    ScaledLogWithin(len, count);
    var ratio := len * FRACTION / count;
    QuotientAtLeast(len, count);
    assert (len * FRACTION) % WRAP64 == len * FRACTION;
    assert ScaledLog(len, count) == Max(Log2(ratio) - 4, 0);
    LogLessShift(ratio);
    DivideUp(len, count, Pow2(Log2(ratio) - 4));
  }

  lemma {:induction false} LogLessShift(ratio: nat)
    requires ratio >= 16
    ensures Log2(ratio) >= 4 && ratio < 32 * Pow2(Log2(ratio) - 4)
  {
    var l := Log2(ratio);
    Log2Bounds(ratio);
    Pow2Shift(0);
    if l < 4 {
      Pow2Strict(l, 4);
    }
    Pow2Shift(l - 4);
  }

  lemma {:induction false} DivideUp(len: nat, count: nat, p: nat)
    requires count > 0 && len * FRACTION / count < 32 * p
    ensures len < count * (2 * p)
  {
    var q := len * FRACTION / count;
    assert len * FRACTION < (q + 1) * count;
    MulLe(q + 1, 32 * p, count);
    assert 32 * p * count == 16 * (count * (2 * p));
  }

  lemma {:induction false} QuotientAtLeast(len: nat, count: nat)
    requires 0 < count <= len
    ensures len * FRACTION / count >= 16
  {
    var q := len * FRACTION / count;
    assert len * FRACTION < (q + 1) * count;
    if q < 16 {
      MulLe(q + 1, 16, count);
    }
  }

  /** `Σ count · ⌊log2(len / count)⌋` over the first `n` values. */
  function EntropySum(h: seq<nat>, len: U64, n: nat): nat
    requires n <= |h|
  {
    if n == 0 then 0 else
    EntropySum(h, len, n - 1) + if h[n - 1] > 0 then h[n - 1] * ScaledLog(len, h[n - 1]) else 0
  }

  /** `256 · (k - 7) <= 2^k` for every `k`: the tangent of the exponential at 8. */
  lemma {:induction false} Tangent(k: nat)
    ensures 256 * (k - 7) <= Pow2(k)
  {
    if k >= 9 {
      Tangent(k - 1);
    } else if k == 8 {
      assert Pow2(8) == 2 * Pow2(7) && Pow2(7) == 2 * Pow2(6) && Pow2(6) == 2 * Pow2(5) && Pow2(5) == 2 * Pow2(4);
      assert Pow2(4) == 16;
    }
  }

  /** One value's share of Gibbs' inequality. */
  lemma {:induction false} GibbsTerm(len: U64, count: nat)
    requires 0 < count <= len
    ensures 256 * (count * ScaledLog(len, count)) <= len + 1792 * count
  {
    hide ScaledLog, Pow2;
    var k: int := ScaledLog(len, count);
    ScaledLogWithin(len, count);
    Tangent(k);
    MulLeInt(256 * (k - 7), Pow2(k), count);
    Distribute(count, k);
  }

  lemma {:induction false} Distribute(c: int, k: int)
    ensures c * (256 * (k - 7)) == 256 * (c * k) - 1792 * c
  {
  }

  lemma {:induction false} MulLeInt(a: int, b: int, c: nat)
    requires a <= b
    ensures c * a <= c * b
  {
  }

  lemma {:induction false} GibbsSum(h: seq<nat>, len: U64, n: nat)
    requires n <= |h| && forall i :: 0 <= i < |h| ==> h[i] <= len
    ensures 256 * EntropySum(h, len, n) <= n * len + 1792 * Total(h, n)
  {
    hide ScaledLog;
    if n > 0 {
      GibbsSum(h, len, n - 1);
      if h[n - 1] > 0 {
        GibbsTerm(len, h[n - 1]);
      }
      assert n * len == (n - 1) * len + len;
    }
  }

  lemma {:induction false} CountWithinTotal(h: seq<nat>, n: nat, i: nat)
    requires i < n <= |h|
    ensures h[i] <= Total(h, n)
  {
    if i < n - 1 {
      CountWithinTotal(h, n - 1, i);
    }
  }

  /** The integer entropy never exceeds eight bits a byte. */
  lemma {:induction false} EntropyAtMostEightBits(h: Histogram, len: U64)
    requires Total(h, VALUES) == len
    ensures EntropySum(h, len, VALUES) <= BITS_PER_BYTE * len
  {
    forall i | 0 <= i < VALUES ensures h[i] <= len {
      CountWithinTotal(h, VALUES, i);
    }
    GibbsSum(h, len, VALUES);
  }

  /** The sum as a percentage of eight bits, saturating. */
  function Percentage(sum: nat, len: nat): nat
    requires len > 0
  {
    Min(sum * PERCENT, U64_MAX) / Min(len * BITS_PER_BYTE, U64_MAX)
  }

  lemma {:induction false} PercentBound(sum: nat, len: nat)
    requires 0 < len && sum <= BITS_PER_BYTE * len
    ensures Percentage(sum, len) <= PERCENT
  {
    var top, bottom := Min(sum * PERCENT, U64_MAX), Min(len * BITS_PER_BYTE, U64_MAX);
    assert top <= PERCENT * bottom;
    var q := top / bottom;
    assert q * bottom <= top;
    if q > PERCENT {
      MulLe(PERCENT + 1, q, bottom);
    }
  }

  /** `entropy_percent`, with every saturation of the source; at most 100 for every histogram of the sample. */
  method EntropyPercent(h: Histogram, len: U64) returns (r: nat)
    ensures len == 0 ==> r == 0
    ensures Total(h, VALUES) == len ==> r <= PERCENT
    ensures Total(h, VALUES) == len > 0 ==>
      r == Percentage(Min(EntropySum(h, len, VALUES), U64_MAX), len)
  {
    hide ScaledLog, Percentage, Total;
    if len == 0 {
      return 0;
    }
    var sum := 0;
    for v := 0 to VALUES
      invariant sum == Min(EntropySum(h, len, v), U64_MAX)
    {
      if h[v] > 0 {
        sum := Min(sum + Min(h[v] * ScaledLog(len, h[v]), U64_MAX), U64_MAX);
      }
    }
    if Total(h, VALUES) == len {
      EntropyAtMostEightBits(h, len);
      PercentBound(sum, len);
    }
    return Percentage(sum, len);
  }

  // ------------------------------------------------------------------ verdict

  datatype Sampled = Zero | Compressible | Uncertain | Incompressible

  predicate RepeatedHalves(s: Bytes) {
    var half := |s| / 2;
    half > 0 && s[..half] == s[half..2 * half]
  }

  /** How many byte values among the first `n` occur. */
  function Occurring(h: seq<nat>, n: nat): nat
    requires n <= |h|
  {
    if n == 0 then 0 else Occurring(h, n - 1) + if h[n - 1] > 0 then 1 else 0
  }

  function Verdict(h: Histogram, len: nat, core: nat): Sampled
    requires 0 < len <= U64_MAX
  {
    if Occurring(h, VALUES) < BYTE_SET_THRESHOLD || core <= BYTE_CORE_SET_LOW then Compressible
    else if core >= BYTE_CORE_SET_HIGH then Incompressible
    else
      var entropy := Percentage(Min(EntropySum(h, len, VALUES), U64_MAX), len);
      if entropy <= ENTROPY_LVL_ACCEPTABLE then Compressible
      else if entropy < ENTROPY_LVL_HIGH then Uncertain
      else Incompressible
  }

  /** The verdict the sample's own counts give, with the least core set. */
  ghost predicate Judged(s: Bytes, v: Sampled)
    requires 0 < |s| <= U64_MAX
  {
    if RepeatedHalves(s) then v == Compressible else
    exists h: Histogram, core: nat ::
      Counts(h, s) && core >= 1 && IsCoreSize(h, CoreTarget(|s|), core) && v == Verdict(h, |s|, core)
  }

  predicate AllZero(b: Bytes) { forall i :: 0 <= i < |b| ==> b[i] == 0 }

  /** `sample`: a chunk is a hole exactly when every byte is zero; any other is judged by its sample. */
  method Sample(b: Bytes) returns (v: Sampled)
    requires |b| <= U64_MAX
    ensures v == Zero <==> AllZero(b)
    ensures !AllZero(b) ==> 0 < |SampleFrom(b, 0)| <= U64_MAX && Judged(SampleFrom(b, 0), v)
  {
    hide IsCoreSize, EntropySum, Percentage, SampleFrom, Counts, Total;
    if AllZero(b) {
      return Zero;
    }
    var s := CollectSample(b);
    SampleLength(b, 0);
    if RepeatedHalves(s) {
      return Compressible;
    }
    var h := BuildHistogram(s);
    var distinct := 0;
    for i := 0 to VALUES
      invariant distinct == Occurring(h, i)
    {
      if h[i] > 0 {
        distinct := distinct + 1;
      }
    }
    var core := CoreSetSize(h, |s|);
    assert Counts(h, s) && IsCoreSize(h, CoreTarget(|s|), core);
    if distinct < BYTE_SET_THRESHOLD || core <= BYTE_CORE_SET_LOW {
      return Compressible;
    }
    if core >= BYTE_CORE_SET_HIGH {
      return Incompressible;
    }
    var entropy := EntropyPercent(h, |s|);
    if entropy <= ENTROPY_LVL_ACCEPTABLE {
      return Compressible;
    } else if entropy < ENTROPY_LVL_HIGH {
      return Uncertain;
    }
    return Incompressible;
  }

  /** The least core set size is one number, so the verdict of a sample is one verdict. */
  lemma {:induction false} CoreSizeUnique(h: Histogram, target: nat, a: nat, b: nat)
    requires IsCoreSize(h, target, a) && IsCoreSize(h, target, b) && a >= 1 && b >= 1
    ensures a == b
  {
    var vs: set<int> :| |vs| == a && Covers(h, VALUES, vs) >= target;
    var ws: set<int> :| |ws| == b && Covers(h, VALUES, ws) >= target;
    assert vs != {} && ws != {};
  }

  /** The counts of a sample are its own, so it is judged once. */
  lemma {:induction false} JudgedOnce(s: Bytes, v: Sampled, w: Sampled)
    requires 0 < |s| <= U64_MAX && Judged(s, v) && Judged(s, w)
    ensures v == w
  {
    hide IsCoreSize, Verdict, RepeatedHalves, Counts;
    if !RepeatedHalves(s) {
      var h: Histogram, core: nat :|
        Counts(h, s) && core >= 1 && IsCoreSize(h, CoreTarget(|s|), core) && v == Verdict(h, |s|, core);
      var h': Histogram, core': nat :|
        Counts(h', s) && core' >= 1 && IsCoreSize(h', CoreTarget(|s|), core') && w == Verdict(h', |s|, core');
      CountsUnique(h, h', s);
      CoreSizeUnique(h, CoreTarget(|s|), core, core');
    }
  }

  lemma {:induction false} CountsUnique(h: Histogram, g: Histogram, s: Bytes)
    requires Counts(h, s) && Counts(g, s)
    ensures h == g
  {
  }

  /** Nothing further is tried: a hole, or a chunk its sample judges incompressible. */
  ghost predicate SampledOut(b: Bytes)
    requires |b| <= U64_MAX
  {
    AllZero(b) || (0 < |SampleFrom(b, 0)| <= U64_MAX && Judged(SampleFrom(b, 0), Incompressible))
  }
}
