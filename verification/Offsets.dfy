// Fixed fields of a byte string by their offsets, beside the writers and readers
// of Wire that take them one after the other.

module Offsets {
  import opened Wire

  /** The little-endian integer at `at`. */
  function Word(b: Bytes, at: nat, n: nat): nat
    requires at + n <= |b|
  {
    FromLe(b[at..at + n])
  }

  lemma {:induction false} WordFits(b: Bytes, at: nat, n: nat)
    requires at + n <= |b|
    ensures Word(b, at, n) < Pow256(n)
  {
  }

  lemma {:induction false} TakeU16(b: Bytes, at: nat)
    requires at + 2 <= |b|
    ensures Word(b, at, 2) <= U16_MAX && GetU16(b[at..]) == Got(Word(b, at, 2), b[at + 2..])
  {
    Pow256Values();
    assert b[at..][..2] == b[at..at + 2] && b[at..][2..] == b[at + 2..];
  }

  lemma {:induction false} TakeU32(b: Bytes, at: nat)
    requires at + 4 <= |b|
    ensures Word(b, at, 4) <= U32_MAX && GetU32(b[at..]) == Got(Word(b, at, 4), b[at + 4..])
  {
    Pow256Values();
    assert b[at..][..4] == b[at..at + 4] && b[at..][4..] == b[at + 4..];
  }

  lemma {:induction false} TakeU64(b: Bytes, at: nat)
    requires at + 8 <= |b|
    ensures Word(b, at, 8) <= U64_MAX && GetU64(b[at..]) == Got(Word(b, at, 8), b[at + 8..])
  {
    Pow256Values();
    assert b[at..][..8] == b[at..at + 8] && b[at..][8..] == b[at + 8..];
  }

  lemma {:induction false} TakeHash(b: Bytes, at: nat)
    requires at + 32 <= |b|
    ensures GetHash(b[at..]) == Got(b[at..at + 32], b[at + 32..])
  {
    assert b[at..][..32] == b[at..at + 32] && b[at..][32..] == b[at + 32..];
  }

  lemma {:induction false} WordIs(b: Bytes, at: nat, n: nat, v: nat)
    requires at + n <= |b| && v < Pow256(n)
    ensures Word(b, at, n) == v <==> b[at..at + n] == Le(v, n)
  {
    LeRoundTrip(v, n);
  }

  lemma {:induction false} SameWord(a: Bytes, b: Bytes, at: nat, n: nat)
    requires at + n <= |a| && at + n <= |b| && Word(a, at, n) == Word(b, at, n)
    ensures a[at..at + n] == b[at..at + n]
  {
  }

  lemma {:induction false} Peel(b: Bytes, at: nat, field: Bytes, next: Bytes)
    requires at <= |b| && b[at..] == field + next
    ensures at + |field| <= |b| && b[at..at + |field|] == field && b[at + |field|..] == next
  {
    assert b[at..][..|field|] == field && b[at..][|field|..] == next;
  }

  lemma {:induction false} PutU64Is(v: U64, rest: Bytes)
    ensures PutU64(v, rest) == Le(v, 8) + rest
  {
  }

  lemma {:induction false} PutU32Is(v: U32, rest: Bytes)
    ensures PutU32(v, rest) == Le(v, 4) + rest
  {
  }

  lemma {:induction false} PutHashIs(v: Hash, rest: Bytes)
    ensures PutHash(v, rest) == v + rest
  {
  }

  lemma {:induction false} PutU8Is(v: U8, rest: Bytes)
    ensures PutU8(v, rest) == [v] + rest
  {
  }

  lemma {:induction false} PutRawIs(v: Bytes, rest: Bytes)
    ensures PutRaw(v, rest) == v + rest
  {
  }

  lemma {:induction false} PutI64Is(v: I64, rest: Bytes)
    ensures PutI64(v, rest) == Le(Twos(v), 8) + rest
  {
  }

  /** The `n` bytes of `v` at `at`, least significant first. */
  predicate HasWord(b: Bytes, at: nat, v: nat, n: nat) { at + n <= |b| && b[at..at + n] == Le(v, n) }

  predicate HasBytes(b: Bytes, at: nat, v: Bytes) { at + |v| <= |b| && b[at..at + |v|] == v }

  lemma {:induction false} PeelWord(b: Bytes, at: nat, v: nat, n: nat, next: Bytes)
    requires at <= |b| && b[at..] == Le(v, n) + next
    ensures HasWord(b, at, v, n) && at + n <= |b| && b[at + n..] == next
  {
    Peel(b, at, Le(v, n), next);
  }

  lemma {:induction false} PeelBytes(b: Bytes, at: nat, v: Bytes, next: Bytes)
    requires at <= |b| && b[at..] == v + next
    ensures HasBytes(b, at, v) && at + |v| <= |b| && b[at + |v|..] == next
  {
    Peel(b, at, v, next);
  }
}
