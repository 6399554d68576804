// Bytes, fixed-width integers and the bounds-checked little-endian codec of
// crates/archive/src/wire.rs. A writer is modelled by `PutX(v, rest)`, the bytes
// of `v` followed by `rest`; a reader's cursor is the suffix it has left.

module Wire {
  type Byte = x: int | 0 <= x < 0x100
  type Bytes = seq<Byte>

  const U8_MAX := 0xFF
  const U16_MAX := 0xFFFF
  const U32_MAX := 0xFFFF_FFFF
  const U64_MAX := 0xFFFF_FFFF_FFFF_FFFF
  const I64_MAX := 0x7FFF_FFFF_FFFF_FFFF

  type U8 = x: int | 0 <= x <= U8_MAX
  type U16 = x: int | 0 <= x <= U16_MAX
  type U32 = x: int | 0 <= x <= U32_MAX
  type U64 = x: int | 0 <= x <= U64_MAX
  type I64 = x: int | -I64_MAX - 1 <= x <= I64_MAX

  /** A 32-byte identity. */
  type Hash = h: Bytes | |h| == 32 witness ZERO_HASH

  const ZERO_HASH: Bytes :=
    [0, 0, 0, 0, 0, 0, 0, 0, 0, 0, 0, 0, 0, 0, 0, 0, 0, 0, 0, 0, 0, 0, 0, 0, 0, 0, 0, 0, 0, 0, 0, 0]

  /** The zero identity: an extent naming it is a hole. */
  const HOLE: Hash := ZERO_HASH

  function Min(a: int, b: int): int {
    if a <= b then a else b
  }

  function Max(a: int, b: int): int {
    if a <= b then b else a
  }

  /** `saturating_add`. */
  function SatAdd(a: nat, b: nat): U64 { Min(a + b, U64_MAX) }

  function Pow2(n: nat): (p: nat)
    ensures p >= 1
  {
    if n == 0 then 1 else 2 * Pow2(n - 1)
  }

  lemma {:induction false} MulLe(a: nat, b: nat, c: nat)
    ensures a <= b ==> a * c <= b * c
  {
  }

  lemma {:induction false} Quotient(a: nat, b: nat)
    requires b > 0
    ensures a / b * b <= a < (a / b + 1) * b
  {
    var q := a / b;
    assert a == q * b + a % b;
    assert (q + 1) * b == q * b + b;
  }

  lemma {:induction false} SubsetSize<T>(a: set<T>, b: set<T>)
    requires a <= b
    ensures |a| <= |b|
  {
    assert b == a + (b - a);
  }

  /** Every refusal of the manifest and archive readers. */
  datatype Refusal =
    | Truncated
    | BadKind(kind: Byte)
    | BadNode
    | TrailingBytes
    | BadName
    | Unordered
    | TooDeep
    | BadExtents
    | SizeMismatch
    | BadXattr
    | BadMagic
    | UnsupportedMajor(major: U16)
    | UnknownRequiredFlag(unknown: U32)
    | BadTrailer
    | ArchiveHashMismatch
    | ChunkIdentityMismatch(index: nat)
    | ManifestHashMismatch
    | BadSeekTable
    | BadLength
    | BadPayload(index: nat)
    | MissingChunk
    | ChunkMaxTooLarge(found: U32)
    | ChunkTooLarge(index: nat)
    | NonCanonicalChunk(index: nat)
    | TotalsMismatch
    | DuplicatePath
    | OverBudget(needed: U64, budget: U64)

  datatype Option<+T> = None | Some(value: T)

  datatype Result<+T> = Ok(value: T) | Err(error: Refusal) {
    predicate IsFailure() { Err? }
    function PropagateFailure<U>(): Result<U> requires Err? { Err(error) }
    function Extract(): T requires Ok? { value }
  }

  /** What a read yields: a value and the unread suffix, or a refusal. */
  datatype Read<+T> = Got(value: T, rest: Bytes) | Refused(error: Refusal) {
    predicate IsFailure() { Refused? }
    function PropagateFailure<U>(): Read<U> requires Refused? { Refused(error) }
    function Extract(): (T, Bytes) requires Got? { (value, rest) }
  }

  /** A zero-filled buffer. */
  function Zeros(n: nat): (z: Bytes)
    ensures |z| == n
    ensures forall i :: 0 <= i < n ==> z[i] == 0
  {
    if n == 0 then [] else Zeros(n - 1) + [0]
  }

  // ---------------------------------------------------------------- integers

  function Pow256(n: nat): (p: nat)
    ensures p >= 1
  {
    if n == 0 then 1 else 0x100 * Pow256(n - 1)
  }

  lemma {:induction false} Pow256Values()
    ensures Pow256(1) == U8_MAX + 1
    ensures Pow256(2) == U16_MAX + 1
    ensures Pow256(4) == U32_MAX + 1
    ensures Pow256(8) == U64_MAX + 1
  {
    assert Pow256(4) == 0x100 * (0x100 * (0x100 * (0x100 * Pow256(0))));
    assert Pow256(8) == 0x100 * (0x100 * (0x100 * (0x100 * Pow256(4))));
  }

  /** The `n` little-endian bytes of `v`. */
  function Le(v: nat, n: nat): (b: Bytes)
    ensures |b| == n
  {
    if n == 0 then [] else [v % 0x100] + Le(v / 0x100, n - 1)
  }

  function FromLe(b: Bytes): (v: nat)
    ensures v < Pow256(|b|)
    ensures Le(v, |b|) == b
  {
    if b == [] then 0 else b[0] + 0x100 * FromLe(b[1..])
  }

  lemma {:induction false} LeRoundTrip(v: nat, n: nat)
    requires v < Pow256(n)
    ensures FromLe(Le(v, n)) == v
  {
    if n > 0 {
      LeRoundTrip(v / 0x100, n - 1);
      assert Le(v, n)[1..] == Le(v / 0x100, n - 1);
    }
  }

  /** Byte `k` is the one of weight `256^k`: the least significant first. */
  lemma {:induction false} LeByte(v: nat, n: nat, k: nat)
    requires k < n
    ensures Le(v, n)[k] == v / Pow256(k) % 0x100
    decreases n
  {
    if k > 0 {
      LeByte(v / 0x100, n - 1, k - 1);
      assert Le(v, n)[k] == Le(v / 0x100, n - 1)[k - 1];
      DivideTwice(v, Pow256(k - 1));
    }
  }

  lemma {:induction false} DivideTwice(v: nat, b: nat)
    requires b > 0
    ensures v / 0x100 / b == v / (0x100 * b)
  {
    var q, r := v / 0x100 / b, v / 0x100 % b;
    assert v / 0x100 == q * b + r;
    Reassociate(b, q);
    QuotientIs(v, 0x100 * b, q, 0x100 * r + v % 0x100);
  }

  lemma {:induction false} Reassociate(b: nat, q: nat)
    ensures (0x100 * b) * q == 0x100 * (q * b)
  {
  }

  lemma {:induction false} QuotientIs(v: nat, d: nat, q: nat, r: nat)
    requires v == d * q + r && r < d
    ensures v / d == q
  {
    Quotient(v, d);
    var p := v / d;
    if p < q {
      MulLe(p + 1, q, d);
    } else if p > q {
      MulLe(q + 1, p, d);
    }
  }

  /** Reads an `n`-byte little-endian integer. */
  function GetLe(b: Bytes, n: nat): (r: Read<nat>)
    ensures r.Got? <==> |b| >= n
    ensures r.Got? ==> r.value < Pow256(n) && b == Le(r.value, n) + r.rest
    ensures r.Refused? ==> r.error == Truncated
  {
    if |b| < n then Refused(Truncated) else
    assert b == b[..n] + b[n..];
    Got(FromLe(b[..n]), b[n..])
  }

  lemma {:induction false} GetLeOfLe(v: nat, n: nat, rest: Bytes)
    requires v < Pow256(n)
    ensures GetLe(Le(v, n) + rest, n) == Got(v, rest)
  {
    var b := Le(v, n) + rest;
    assert b[..n] == Le(v, n) && b[n..] == rest;
    LeRoundTrip(v, n);
  }

  function GetU8(b: Bytes): (r: Read<U8>)
    ensures r.Got? ==> b == PutU8(r.value, r.rest)
    ensures r.Got? <==> |b| >= 1
    ensures r.Refused? ==> r.error == Truncated
  {
    if b == [] then Refused(Truncated) else Got(b[0], b[1..])
  }

  function PutU8(v: U8, rest: Bytes): (b: Bytes)
    ensures |b| == 1 + |rest|
  {
    [v] + rest
  }

  function GetU16(b: Bytes): (r: Read<U16>)
    ensures r.Got? ==> b == Le(r.value, 2) + r.rest
    ensures r.Got? <==> |b| >= 2
    ensures r.Refused? ==> r.error == Truncated
  {
    Pow256Values();
    var (v, rest) :- GetLe(b, 2);
    Got(v, rest)
  }

  function PutU16(v: U16, rest: Bytes): (b: Bytes)
    ensures GetU16(b) == Got(v, rest)
    ensures |b| == 2 + |rest|
  {
    Pow256Values();
    GetLeOfLe(v, 2, rest);
    Le(v, 2) + rest
  }

  function GetU32(b: Bytes): (r: Read<U32>)
    ensures r.Got? ==> b == Le(r.value, 4) + r.rest
    ensures r.Got? <==> |b| >= 4
    ensures r.Refused? ==> r.error == Truncated
  {
    Pow256Values();
    var (v, rest) :- GetLe(b, 4);
    Got(v, rest)
  }

  function PutU32(v: U32, rest: Bytes): (b: Bytes)
    ensures GetU32(b) == Got(v, rest)
    ensures |b| == 4 + |rest|
  {
    Pow256Values();
    GetLeOfLe(v, 4, rest);
    Le(v, 4) + rest
  }

  function GetU64(b: Bytes): (r: Read<U64>)
    ensures r.Got? ==> b == Le(r.value, 8) + r.rest
    ensures r.Got? <==> |b| >= 8
    ensures r.Refused? ==> r.error == Truncated
  {
    Pow256Values();
    var (v, rest) :- GetLe(b, 8);
    Got(v, rest)
  }

  function PutU64(v: U64, rest: Bytes): (b: Bytes)
    ensures GetU64(b) == Got(v, rest)
    ensures |b| == 8 + |rest|
  {
    Pow256Values();
    GetLeOfLe(v, 8, rest);
    Le(v, 8) + rest
  }

  /** Two's complement: a signed time as the word that carries it. */
  function Twos(v: I64): U64 {
    if v < 0 then v + U64_MAX + 1 else v
  }

  function FromTwos(v: U64): (s: I64)
    ensures Twos(s) == v
  {
    if v > I64_MAX then v - U64_MAX - 1 else v
  }

  function GetI64(b: Bytes): (r: Read<I64>)
    ensures r.Got? ==> b == Le(Twos(r.value), 8) + r.rest
    ensures r.Got? <==> |b| >= 8
    ensures r.Refused? ==> r.error == Truncated
  {
    var (v, rest) :- GetU64(b);
    Got(FromTwos(v), rest)
  }

  function PutI64(v: I64, rest: Bytes): (b: Bytes)
    ensures GetI64(b) == Got(v, rest)
    ensures |b| == 8 + |rest|
  {
    PutU64(Twos(v), rest)
  }

  /** Reads `n` raw bytes. */
  function GetRaw(b: Bytes, n: nat): (r: Read<Bytes>)
    ensures r.Got? ==> |r.value| == n && b == r.value + r.rest
    ensures r.Got? <==> |b| >= n
    ensures r.Refused? ==> r.error == Truncated
  {
    if |b| < n then Refused(Truncated) else Got(b[..n], b[n..])
  }

  function PutRaw(v: Bytes, rest: Bytes): (b: Bytes)
    ensures GetRaw(b, |v|) == Got(v, rest)
    ensures |b| == |v| + |rest|
  {
    var b := v + rest;
    assert b[..|v|] == v && b[|v|..] == rest;
    b
  }

  function GetHash(b: Bytes): (r: Read<Hash>)
    ensures r.Got? ==> b == r.value + r.rest
    ensures r.Got? <==> |b| >= 32
    ensures r.Refused? ==> r.error == Truncated
  {
    var (h, rest) :- GetRaw(b, 32);
    Got(h, rest)
  }

  function PutHash(v: Hash, rest: Bytes): (b: Bytes)
    ensures GetHash(b) == Got(v, rest)
    ensures |b| == 32 + |rest|
  {
    PutRaw(v, rest)
  }

  // ------------------------------------------------------------------- order

  /** Lexicographic byte order, as Rust compares byte slices and strings. */
  predicate Less(a: Bytes, b: Bytes) {
    if b == [] then false
    else if a == [] then true
    else a[0] < b[0] || (a[0] == b[0] && Less(a[1..], b[1..]))
  }

  lemma {:induction false} LessIrreflexive(a: Bytes)
    ensures !Less(a, a)
  {
    if a != [] { LessIrreflexive(a[1..]); }
  }

  lemma {:induction false} LessTransitive(a: Bytes, b: Bytes, c: Bytes)
    requires Less(a, b) && Less(b, c)
    ensures Less(a, c)
  {
    if a != [] && a[0] == b[0] == c[0] {
      LessTransitive(a[1..], b[1..], c[1..]);
    }
  }

  lemma {:induction false} LessTotal(a: Bytes, b: Bytes)
    ensures Less(a, b) || a == b || Less(b, a)
  {
    if a != [] && b != [] && a[0] == b[0] {
      LessTotal(a[1..], b[1..]);
      assert a == [a[0]] + a[1..] && b == [b[0]] + b[1..];
    }
  }

  /** The order by its first difference: at byte `k` one is smaller, or ends there. */
  predicate DiffersAt(a: Bytes, b: Bytes, k: nat) {
    k < |b| && k <= |a| && a[..k] == b[..k] && (k == |a| || a[k] < b[k])
  }

  lemma {:induction false} SameBefore(a: Bytes, b: Bytes, k: nat)
    requires DiffersAt(a, b, k) && k > 0
    ensures a != [] && b != [] && a[0] == b[0]
  {
    assert a[..k][0] == b[..k][0];
  }

  lemma {:induction false} LessIff(a: Bytes, b: Bytes)
    ensures Less(a, b) <==> exists k: nat :: DiffersAt(a, b, k)
  {
    forall k: nat | DiffersAt(a, b, k) && k > 0 ensures a != [] && b != [] && a[0] == b[0] {
      SameBefore(a, b, k);
    }
    if a == [] || b == [] || a[0] != b[0] {
      assert Less(a, b) ==> DiffersAt(a, b, 0);
    } else {
      LessIff(a[1..], b[1..]);
      if Less(a, b) {
        var k: nat :| DiffersAt(a[1..], b[1..], k);
        assert a[..k + 1] == [a[0]] + a[1..][..k] && b[..k + 1] == [b[0]] + b[1..][..k];
        assert DiffersAt(a, b, k + 1);
      }
      if k: nat :| DiffersAt(a, b, k) {
        assert a[1..][..k - 1] == a[..k][1..] && b[1..][..k - 1] == b[..k][1..];
        assert DiffersAt(a[1..], b[1..], k - 1);
      }
    }
  }
}
