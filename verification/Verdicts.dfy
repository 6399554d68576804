// What the sampler's verdict (crates/archive/src/codec.rs, `sample`) says of a
// sample itself: how many byte values it has, how few of them make up nine tenths
// of it, and the bits its bytes take by their own frequencies.

module Verdicts {
  import opened Wire
  import opened Sampler

  // --------------------------------------------------------------------- sums

  /** What each byte of the sample weighs, summed. */
  function Weigh(s: Bytes, w: Byte -> nat): nat {
    if s == [] then 0 else Weigh(s[..|s| - 1], w) + w(s[|s| - 1])
  }

  lemma {:induction false} WeighSame(s: Bytes, w: Byte -> nat, u: Byte -> nat)
    requires forall i :: 0 <= i < |s| ==> w(s[i]) == u(s[i])
    ensures Weigh(s, w) == Weigh(s, u)
  {
    if s != [] {
      WeighSame(s[..|s| - 1], w, u);
    }
  }

  lemma {:induction false} WeighSum(s: Bytes, w: Byte -> nat, u: Byte -> nat, both: Byte -> nat)
    requires forall x :: both(x) == w(x) + u(x)
    ensures Weigh(s, both) == Weigh(s, w) + Weigh(s, u)
  {
    if s != [] {
      WeighSum(s[..|s| - 1], w, u, both);
    }
  }

  /** Weight on one value only. */
  function Only(v: Byte, c: nat): Byte -> nat { x => if x == v then c else 0 }

  lemma {:induction false} WeighOnly(s: Bytes, v: Byte, c: nat)
    ensures Weigh(s, Only(v, c)) == Count(s, v) * c
  {
    if s != [] {
      WeighOnly(s[..|s| - 1], v, c);
    }
  }

  function Below(w: Byte -> nat, n: nat): Byte -> nat { (x: Byte) => if x < n then w(x) else 0 }

  /** The values' counts times their weights, below `n`. */
  function ByValue(s: Bytes, w: Byte -> nat, n: nat): nat
    requires n <= 0x100
  {
    if n == 0 then 0 else ByValue(s, w, n - 1) + Count(s, n - 1) * w(n - 1)
  }

  /** Summing over positions is summing over values. */
  lemma {:induction false} ByValueIsWeigh(s: Bytes, w: Byte -> nat, n: nat)
    requires n <= 0x100
    ensures ByValue(s, w, n) == Weigh(s, Below(w, n))
  {
    if n == 0 {
      WeighNothing(s, Below(w, 0));
    } else {
      ByValueIsWeigh(s, w, n - 1);
      WeighOnly(s, n - 1, w(n - 1));
      WeighSum(s, Below(w, n - 1), Only(n - 1, w(n - 1)), Below(w, n));
    }
  }

  lemma {:induction false} WeighNothing(s: Bytes, w: Byte -> nat)
    requires forall x :: w(x) == 0
    ensures Weigh(s, w) == 0
  {
    if s != [] {
      WeighNothing(s[..|s| - 1], w);
    }
  }

  // ------------------------------------------------------------- byte values

  function BytesIn(s: Bytes): set<int> { set i | 0 <= i < |s| :: s[i] as int }

  lemma {:induction false} CountPositive(s: Bytes, v: Byte)
    ensures Count(s, v) > 0 <==> v in BytesIn(s)
  {
    if s != [] {
      var front := s[..|s| - 1];
      CountPositive(front, v);
      assert BytesIn(s) == BytesIn(front) + {s[|s| - 1] as int} by {
        assert forall i :: 0 <= i < |front| ==> front[i] == s[i];
      }
    }
  }

  function ValuesBelow(s: Bytes, n: int): set<int> { set x | x in BytesIn(s) && x < n }

  lemma {:induction false} OccurringIs(h: Histogram, s: Bytes, n: nat)
    requires Counts(h, s) && n <= VALUES
    ensures Occurring(h, n) == |ValuesBelow(s, n)|
  {
    if n == 0 {
      assert ValuesBelow(s, 0) == {};
    } else {
      OccurringIs(h, s, n - 1);
      var v: Byte := n - 1;
      CountPositive(s, v);
      assert h[v] == Count(s, v);
      assert ValuesBelow(s, n) == if h[v] > 0 then ValuesBelow(s, v) + {v as int} else ValuesBelow(s, v);
    }
  }

  // ----------------------------------------------------------------- core set

  function In(vs: set<int>): Byte -> nat { x => if x in vs then 1 else 0 }

  /** How many of the sample's bytes are among the values. */
  function AmountOf(s: Bytes, vs: set<int>): nat { Weigh(s, In(vs)) }

  lemma {:induction false} CoversIs(h: Histogram, s: Bytes, vs: set<int>, n: nat)
    requires Counts(h, s) && n <= VALUES
    ensures Covers(h, n, vs) == ByValue(s, In(vs), n)
  {
    if n > 0 {
      CoversIs(h, s, vs, n - 1);
      var v: Byte := n - 1;
      assert h[v] == Count(s, v);
    }
  }

  lemma {:induction false} CoverIsAmount(h: Histogram, s: Bytes, vs: set<int>)
    requires Counts(h, s)
    ensures Covers(h, VALUES, vs) == AmountOf(s, vs)
  {
    CoversIs(h, s, vs, VALUES);
    ByValueIsWeigh(s, In(vs), VALUES);
    WeighSame(s, Below(In(vs), VALUES), In(vs));
  }

  /** Nine tenths of the sample, rounded down, are bytes of some `r` values, and of no fewer. */
  ghost predicate IsCore(s: Bytes, r: nat) {
    && r >= 1
    && (exists vs: set<int> :: |vs| == r && AmountOf(s, vs) >= |s| * 9 / 10)
    && (forall vs: set<int> :: vs != {} && AmountOf(s, vs) >= |s| * 9 / 10 ==> r <= |vs|)
  }

  lemma {:induction false} CoreIs(h: Histogram, s: Bytes, r: nat)
    requires Counts(h, s) && 800 * |s| <= U64_MAX
    ensures r >= 1 && IsCoreSize(h, CoreTarget(|s|), r) <==> IsCore(s, r)
  {
    hide Covers, AmountOf, Counts;
    assert CoreTarget(|s|) == |s| * 9 / 10;
    forall vs: set<int> ensures Covers(h, VALUES, vs) == AmountOf(s, vs) {
      CoverIsAmount(h, s, vs);
    }
  }

  // ------------------------------------------------------------------ entropy

  /** Whole bits a byte takes that makes up `count` of `len`. */
  function WholeBits(len: nat, count: nat): nat
    requires 0 < count <= len
  {
    Log2(len / count)
  }

  lemma {:induction false} WholeBitsAre(len: nat, count: nat)
    requires 0 < count <= len && 800 * len <= U64_MAX
    ensures ScaledLog(len, count) == WholeBits(len, count)
  {
    hide Log2, Pow2;
    ScaledLogExact(len, count);
    var q, k, l := len / count, ScaledLog(len, count), WholeBits(len, count);
    Quotient(len, count);
    assert q >= 1;
    Log2Bounds(q);
    Reach(count, q, len, Pow2(k));
    Reach(count, q, len, Pow2(l));
    if k < l {
      Pow2Strict(k, l);
      MulLe(2 * Pow2(k), Pow2(l), count);
    } else if l < k {
      Pow2Strict(l, k);
    }
  }

  /** A multiple of the count is within the length exactly when its factor is within the quotient. */
  lemma {:induction false} Reach(count: nat, q: nat, len: nat, p: nat)
    requires count > 0 && q * count <= len < (q + 1) * count
    ensures count * p <= len <==> p <= q
  {
    if p <= q {
      MulLe(p, q, count);
    } else {
      MulLe(q + 1, p, count);
    }
  }

  ghost function BitsOf(s: Bytes): Byte -> nat {
    x => if 0 < Count(s, x) <= |s| then WholeBits(|s|, Count(s, x)) else 0
  }

  /** The bits every byte of the sample takes, by how often its value occurs in it. */
  ghost function Bits(s: Bytes): nat { Weigh(s, BitsOf(s)) }

  /** Of the eight bits each that they could take. */
  ghost function Percent(s: Bytes): int
    requires s != []
  {
    Share(Bits(s), 8 * |s|)
  }

  function Share(part: nat, whole: nat): int
    requires whole > 0
  {
    100 * part / whole
  }

  lemma {:induction false} CountAtMost(s: Bytes, v: Byte)
    ensures Count(s, v) <= |s|
  {
    if s != [] {
      CountAtMost(s[..|s| - 1], v);
    }
  }

  lemma {:induction false} EntropyIs(h: Histogram, s: Bytes, n: nat)
    requires Counts(h, s) && n <= VALUES && 800 * |s| <= U64_MAX
    ensures EntropySum(h, |s|, n) == ByValue(s, BitsOf(s), n)
  {
    hide ScaledLog, WholeBits;
    if n > 0 {
      EntropyIs(h, s, n - 1);
      var v: Byte := n - 1;
      assert h[v] == Count(s, v);
      CountAtMost(s, v);
      if h[v] > 0 {
        WholeBitsAre(|s|, h[v]);
      }
    }
  }

  lemma {:induction false} EntropyIsBits(h: Histogram, s: Bytes)
    requires Counts(h, s) && 800 * |s| <= U64_MAX
    ensures EntropySum(h, |s|, VALUES) == Bits(s)
  {
    hide BitsOf, EntropySum, Counts;
    EntropyIs(h, s, VALUES);
    ByValueIsWeigh(s, BitsOf(s), VALUES);
    WeighSame(s, Below(BitsOf(s), VALUES), BitsOf(s));
  }

  // ------------------------------------------------------------------ verdict

  /** The sample is something twice, but for a byte left over. */
  ghost predicate SaidTwice(s: Bytes) { exists t: Bytes, rest: Bytes :: t != [] && |rest| <= 1 && s == t + t + rest }

  lemma {:induction false} RepeatedIff(s: Bytes)
    ensures RepeatedHalves(s) <==> SaidTwice(s)
  {
    var half := |s| / 2;
    if RepeatedHalves(s) {
      assert s == s[..half] + s[half..2 * half] + s[2 * half..];
    }
    if t: Bytes, rest: Bytes :| t != [] && |rest| <= 1 && s == t + t + rest {
      assert half == |t| && s[..half] == t && s[half..2 * half] == t;
    }
  }

  /** The verdict by the numbers: values, core, and percent of eight bits a byte. */
  function ByNumbers(values: nat, core: nat, percent: int): Sampled {
    if values < 64 || core <= 64 then Compressible
    else if core >= 200 then Incompressible
    else if percent <= 65 then Compressible
    else if percent < 80 then Uncertain
    else Incompressible
  }

  /** A sample of up to 2^64/800 bytes (a chunk's is 65536 at most) is judged by its own bytes, so. */
  lemma {:induction false} JudgedIff(s: Bytes, v: Sampled)
    requires 0 < |s| && 800 * |s| <= U64_MAX
    ensures Judged(s, v) <==>
      if SaidTwice(s) then v == Compressible
      else exists core: nat :: IsCore(s, core) && v == ByNumbers(|BytesIn(s)|, core, Percent(s))
  {
    hide SaidTwice, RepeatedHalves, IsCore, IsCoreSize, Counts, Percent, Verdict, ByNumbers, BytesIn;
    RepeatedIff(s);
    forall h: Histogram, core: nat | Counts(h, s)
      ensures core >= 1 && IsCoreSize(h, CoreTarget(|s|), core) <==> IsCore(s, core)
      ensures Verdict(h, |s|, core) == ByNumbers(|BytesIn(s)|, core, Percent(s))
    {
      CoreIs(h, s, core);
      VerdictIs(h, s, core);
    }
    var h := HistogramOf(s);
  }

  lemma {:induction false} HistogramOf(s: Bytes) returns (h: Histogram)
    ensures Counts(h, s)
  {
    h := seq(VALUES, v requires 0 <= v < VALUES => Count(s, v));
  }

  lemma {:induction false} VerdictIs(h: Histogram, s: Bytes, core: nat)
    requires Counts(h, s) && 0 < |s| && 800 * |s| <= U64_MAX
    ensures Verdict(h, |s|, core) == ByNumbers(|BytesIn(s)|, core, Percent(s))
  {
    hide Counts, EntropySum, Occurring, Bits, BytesIn, Percent, Percentage;
    ValuesOccurring(h, s);
    BitsAtMost(h, s);
  }

  lemma {:induction false} ValuesOccurring(h: Histogram, s: Bytes)
    requires Counts(h, s)
    ensures Occurring(h, VALUES) == |BytesIn(s)|
  {
    hide Counts, Occurring;
    OccurringIs(h, s, VALUES);
    assert ValuesBelow(s, VALUES) == BytesIn(s);
  }

  lemma {:induction false} BitsAtMost(h: Histogram, s: Bytes)
    requires Counts(h, s) && 0 < |s| && 800 * |s| <= U64_MAX
    ensures Percentage(Min(EntropySum(h, |s|, VALUES), U64_MAX), |s|) == Percent(s)
  {
    hide EntropySum, Counts, Bits;
    TotalIs(h, s);
    EntropyAtMostEightBits(h, |s|);
    EntropyIsBits(h, s);
    SmallPercentage(Bits(s), |s|);
  }

  lemma {:induction false} SmallPercentage(sum: nat, len: nat)
    requires 0 < len && 800 * len <= U64_MAX && sum <= 8 * len
    ensures sum <= U64_MAX && Percentage(sum, len) == Share(sum, 8 * len)
  {
    assert sum * PERCENT <= U64_MAX && len * BITS_PER_BYTE <= U64_MAX;
    assert sum * PERCENT == 100 * sum && len * BITS_PER_BYTE == 8 * len;
  }

  lemma {:induction false} TotalIs(h: Histogram, s: Bytes)
    requires Counts(h, s)
    ensures Total(h, VALUES) == |s|
  {
    TotalByValue(h, s, VALUES);
    ByValueIsWeigh(s, One(), VALUES);
    WeighSame(s, Below(One(), VALUES), One());
    WeighOne(s);
  }

  function One(): Byte -> nat { x => 1 }

  lemma {:induction false} WeighOne(s: Bytes)
    ensures Weigh(s, One()) == |s|
  {
    if s != [] {
      WeighOne(s[..|s| - 1]);
    }
  }

  lemma {:induction false} TotalByValue(h: Histogram, s: Bytes, n: nat)
    requires Counts(h, s) && n <= VALUES
    ensures Total(h, n) == ByValue(s, One(), n)
  {
    if n > 0 {
      TotalByValue(h, s, n - 1);
      var v: Byte := n - 1;
      assert h[v] == Count(s, v);
    }
  }

  /** A sample of fewer than 64 byte values is compressible. */
  lemma {:induction false} FewValuesCompress(s: Bytes, v: Sampled)
    requires 0 < |s| <= U64_MAX && |BytesIn(s)| < 64 && Judged(s, v)
    ensures v == Compressible
  {
    hide RepeatedHalves, IsCoreSize, Counts, BytesIn, Verdict;
    if !RepeatedHalves(s) {
      var h: Histogram, core: nat :| Counts(h, s) && v == Verdict(h, |s|, core);
      ValuesOccurring(h, s);
      FewOccurring(h, |s|, core);
    }
  }

  lemma {:induction false} FewOccurring(h: Histogram, len: nat, core: nat)
    requires 0 < len <= U64_MAX && Occurring(h, VALUES) < 64
    ensures Verdict(h, len, core) == Compressible
  {
    hide Occurring, EntropySum, Percentage;
  }

  /** One in which every byte value occurs equally often, and which is not something twice, is not. */
  lemma {:induction false} EvenIsIncompressible(s: Bytes, k: nat, v: Sampled)
    requires k > 0 && (forall x: Byte :: Count(s, x) == k) && 800 * |s| <= U64_MAX
    requires s != [] && !SaidTwice(s) && Judged(s, v)
    ensures v == Incompressible
  {
    hide Judged, SaidTwice, Bits, BytesIn, IsCore, Count;
    JudgedIff(s, v);
    AllValues(s, k);
    forall core: nat | IsCore(s, core) ensures core >= 200 {
      EvenCoreOf(s, k, core);
    }
  }

  lemma {:induction false} EvenCoreOf(s: Bytes, k: nat, core: nat)
    requires k > 0 && (forall x: Byte :: Count(s, x) == k) && IsCore(s, core)
    ensures core >= 200
  {
    hide AmountOf, Count;
    EvenLength(s, k);
    var vs: set<int> :| |vs| == core && AmountOf(s, vs) >= |s| * 9 / 10;
    EvenAmount(s, k, vs);
    EvenCore(k, core, AmountOf(s, vs));
  }

  lemma {:induction false} EvenCore(k: nat, core: nat, amount: nat)
    requires k > 0 && 0x100 * k * 9 / 10 <= amount <= k * core
    ensures core >= 200
  {
    if core < 200 {
      MulLe(core, 199, k);
    }
  }

  lemma {:induction false} EvenLength(s: Bytes, k: nat)
    requires forall x: Byte :: Count(s, x) == k
    ensures |s| == 0x100 * k
  {
    hide Weigh, Count, ByValue, Numbers;
    EvenByValue(s, k, Numbers(0x100), 0x100);
    ByValueIsWeigh(s, One(), 0x100);
    WeighSame(s, Below(One(), 0x100), One());
    WeighOne(s);
    SameByValue(s, One(), In(Numbers(0x100)), 0x100);
    assert (set x | x in Numbers(0x100) && x < 0x100) == Numbers(0x100);
  }

  function Numbers(n: nat): (ns: set<int>)
    ensures |ns| == n && forall x :: x in ns <==> 0 <= x < n
  {
    if n == 0 then {} else Numbers(n - 1) + {n - 1}
  }

  lemma {:induction false} SameByValue(s: Bytes, w: Byte -> nat, u: Byte -> nat, n: nat)
    requires n <= 0x100 && forall x :: w(x) == u(x)
    ensures ByValue(s, w, n) == ByValue(s, u, n)
  {
    hide Count;
    if n > 0 {
      SameByValue(s, w, u, n - 1);
    }
  }

  lemma {:induction false} EvenByValue(s: Bytes, k: nat, vs: set<int>, n: nat)
    requires n <= 0x100 && (forall x: Byte :: Count(s, x) == k) && forall x :: x in vs ==> 0 <= x
    ensures ByValue(s, In(vs), n) == k * |set x | x in vs && x < n|
  {
    hide Count;
    hide In;
    var now := set x | x in vs && x < n;
    if n == 0 {
      assert now == {};
    } else {
      EvenByValue(s, k, vs, n - 1);
      var was := set x | x in vs && x < n - 1;
      var v: Byte := n - 1;
      assert Count(s, v) == k;
      InIs(vs, v);
      if n - 1 in vs {
        assert now == was + {n - 1};
        assert |now| == |was| + 1;
        OneMore(k, |was|);
      } else {
        assert now == was;
      }
    }
  }

  lemma {:induction false} InIs(vs: set<int>, v: Byte)
    ensures In(vs)(v) == if v in vs then 1 else 0
  {
  }

  lemma {:induction false} OneMore(k: nat, n: nat)
    ensures k * (n + 1) == k * n + k * 1
  {
  }

  lemma {:induction false} EvenAmount(s: Bytes, k: nat, vs: set<int>)
    requires forall x: Byte :: Count(s, x) == k
    ensures AmountOf(s, vs) <= k * |vs|
  {
    hide Count, Weigh, ByValue;
    var positive := set x | x in vs && 0 <= x;
    EvenByValue(s, k, positive, 0x100);
    SameByValue(s, In(vs), In(positive), 0x100);
    ByValueIsWeigh(s, In(vs), 0x100);
    WeighSame(s, Below(In(vs), 0x100), In(vs));
    var counted := set x | x in positive && x < 0x100;
    SubsetSize(counted, vs);
    MulLe(|counted|, |vs|, k);
  }

  lemma {:induction false} AllValues(s: Bytes, k: nat)
    requires k > 0 && forall x: Byte :: Count(s, x) == k
    ensures |BytesIn(s)| == 0x100
  {
    hide Count, Numbers;
    forall x: int | x in Numbers(0x100) ensures x in BytesIn(s) {
      CountPositive(s, x);
    }
    assert BytesIn(s) == Numbers(0x100);
  }
}
