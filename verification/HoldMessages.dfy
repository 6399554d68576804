// The hold channel's messages (crates/anchor/src/handles.rs, `encode` and
// `decode`): fixed-length bytes, checksummed, zero past what a message uses.
// The checksum is an arbitrary function.

module HoldMessages {
  import opened Wire

  const MAX_HANDLES := 3
  const RECORD_CAP := (64 + 192 + 2) * 2 + 1
  const HOLD_MAGIC: Bytes := [0x53, 0x4C, 0x48, 0x44]
  const KIND_HOLD := 1
  const KIND_RELEASE := 2
  const KIND_HELD := 3
  const KIND_REFUSED := 4
  const KIND_RELEASED := 5
  const AT_KIND := 4
  const AT_ID := 5
  const AT_WHAT := 13
  const AT_COUNT := 14
  const AT_HANDLES := 15
  const HANDLE_BYTES := 8
  const AT_RECORD_LEN := AT_HANDLES + MAX_HANDLES * HANDLE_BYTES
  const AT_RECORD := AT_RECORD_LEN + 2
  const AT_CHECKSUM := AT_RECORD + RECORD_CAP
  const MESSAGE_BYTES := AT_CHECKSUM + 4

  datatype Reason = AtBound | CannotDuplicate | BadHold

  datatype Message =
    | Hold(id: U64, what: U8, values: seq<U64>, record: Bytes)
    | Release(id: U64)
    | Held(id: U64)
    | Released(id: U64)
    | HoldRefused(id: U64, reason: Reason)

  type Checksum = Bytes -> U32

  function ReasonByte(r: Reason): Byte {
    match r case AtBound => 1 case CannotDuplicate => 2 case BadHold => 3
  }

  function ReasonOf(b: Byte): Option<Reason> {
    if b == 1 then Some(AtBound) else if b == 2 then Some(CannotDuplicate) else if b == 3 then Some(BadHold) else None
  }

  function KindOf(m: Message): Byte {
    match m
    case Hold(_, _, _, _) => KIND_HOLD
    case Release(_) => KIND_RELEASE
    case Held(_) => KIND_HELD
    case Released(_) => KIND_RELEASED
    case HoldRefused(_, _) => KIND_REFUSED
  }

  predicate WellShaped(m: Message) {
    m.Hold? ==> 1 <= |m.values| <= MAX_HANDLES && |m.record| <= RECORD_CAP
  }

  // ----------------------------------------------------------------- encoding

  function ValuesBytes(values: seq<U64>): (b: Bytes)
    ensures |b| == HANDLE_BYTES * |values|
  {
    if values == [] then [] else ValuesBytes(values[..|values| - 1]) + Le(values[|values| - 1], HANDLE_BYTES)
  }

  /** Every handle slot, the unused ones zero. */
  function Slots(values: seq<U64>): (b: Bytes)
    requires |values| <= MAX_HANDLES
    ensures |b| == MAX_HANDLES * HANDLE_BYTES
  {
    ValuesBytes(values) + Zeros((MAX_HANDLES - |values|) * HANDLE_BYTES)
  }

  /** The bytes between the id and the checksum. */
  function Payload(m: Message): (b: Bytes)
    requires WellShaped(m)
    ensures |b| == AT_CHECKSUM - AT_WHAT
  {
    match m
    case Hold(_, what, values, record) =>
      [what, |values|] + Slots(values) + Le(|record|, 2) + record + Zeros(RECORD_CAP - |record|)
    case HoldRefused(_, reason) => [ReasonByte(reason)] + Zeros(AT_CHECKSUM - AT_COUNT)
    case _ => Zeros(AT_CHECKSUM - AT_WHAT)
  }

  function Checked(m: Message): (b: Bytes)
    requires WellShaped(m)
    ensures |b| == AT_CHECKSUM
  {
    Head(m) + Payload(m)
  }

  function Encoded(crc: Checksum, m: Message): (b: Bytes)
    requires WellShaped(m)
    ensures |b| == MESSAGE_BYTES
  {
    Checked(m) + Le(crc(Checked(m)), 4)
  }

  /** `put`: writes a field in place, in a buffer that is zero past `pre`. */
  method Put(bytes: array<Byte>, at: nat, value: Bytes, ghost pre: Bytes)
    requires |pre| <= at && at + |value| <= bytes.Length
    requires bytes[..] == pre + Zeros(bytes.Length - |pre|)
    modifies bytes
    ensures bytes[..] == pre + Zeros(at - |pre|) + value + Zeros(bytes.Length - at - |value|)
  {
    for k := 0 to |value|
      invariant bytes[..at] == old(bytes[..at]) && bytes[at + k..] == old(bytes[at + k..])
      invariant bytes[at..at + k] == value[..k]
    {
      assert bytes[at + k + 1..] == bytes[at + k..][1..];
      bytes[at + k] := value[k];
    }
    assert bytes[..] == bytes[..at] + bytes[at..at + |value|] + bytes[at + |value|..];
    assert bytes[..at] == pre + Zeros(at - |pre|);
    assert bytes[at + |value|..] == Zeros(bytes.Length - at - |value|);
  }

  /** Writes the handle values in their slots. */
  method PutValues(bytes: array<Byte>, values: seq<U64>, ghost pre: Bytes)
    requires |values| <= MAX_HANDLES && |pre| == AT_HANDLES && bytes.Length == MESSAGE_BYTES
    requires bytes[..] == pre + Zeros(MESSAGE_BYTES - AT_HANDLES)
    modifies bytes
    ensures bytes[..] == pre + ValuesBytes(values) + Zeros(MESSAGE_BYTES - AT_HANDLES - HANDLE_BYTES * |values|)
  {
    hide Le, Zeros;
    assert ValuesBytes([]) == [] && values[..0] == [];
    assert pre + [] == pre;
    for i := 0 to |values|
      invariant bytes[..] == pre + ValuesBytes(values[..i]) + Zeros(MESSAGE_BYTES - AT_HANDLES - HANDLE_BYTES * i)
    {
      ghost var done := pre + ValuesBytes(values[..i]);
      Put(bytes, AT_HANDLES + i * HANDLE_BYTES, Le(values[i], HANDLE_BYTES), done);
      assert values[..i + 1][..i] == values[..i];
      NoZeros();
      assert done + Zeros(0) + Le(values[i], HANDLE_BYTES) == pre + ValuesBytes(values[..i + 1]);
    }
    assert values[..|values|] == values;
  }

  lemma {:induction false} NoZeros()
    ensures Zeros(0) == []
  {
  }

  /** The magic, the kind and the id. */
  function Head(m: Message): (b: Bytes)
    ensures |b| == AT_WHAT
  {
    HOLD_MAGIC + [KindOf(m)] + Le(m.id, 8)
  }

  method PutHead(bytes: array<Byte>, m: Message)
    requires bytes.Length == MESSAGE_BYTES && bytes[..] == Zeros(MESSAGE_BYTES)
    modifies bytes
    ensures bytes[..] == Head(m) + Zeros(MESSAGE_BYTES - AT_WHAT)
  {
    hide Le, Zeros, KindOf;
    ghost var none: Bytes := [];
    assert none + Zeros(MESSAGE_BYTES) == Zeros(MESSAGE_BYTES);
    PutNext(bytes, 0, HOLD_MAGIC, none);
    assert none + HOLD_MAGIC == HOLD_MAGIC;
    PutNext(bytes, AT_KIND, [KindOf(m)], HOLD_MAGIC);
    PutNext(bytes, AT_ID, Le(m.id, 8), HOLD_MAGIC + [KindOf(m)]);
  }

  /** A field right after what is written. */
  method PutNext(bytes: array<Byte>, at: nat, value: Bytes, ghost pre: Bytes)
    requires |pre| == at && at + |value| <= bytes.Length
    requires bytes[..] == pre + Zeros(bytes.Length - at)
    modifies bytes
    ensures bytes[..] == pre + value + Zeros(bytes.Length - at - |value|)
  {
    hide Zeros;
    Put(bytes, at, value, pre);
    NoZeros();
    assert pre + [] == pre;
  }

  method PutPayload(bytes: array<Byte>, m: Message)
    requires WellShaped(m) && bytes.Length == MESSAGE_BYTES
    requires bytes[..] == Head(m) + Zeros(MESSAGE_BYTES - AT_WHAT)
    modifies bytes
    ensures bytes[..] == Checked(m) + Zeros(4)
  {
    hide Le, Zeros, ValuesBytes, Head, KindOf, Slots;
    ghost var head := Head(m);
    if m.Hold? {
      PutHold(bytes, m, head);
    } else if m.HoldRefused? {
      NoZeros();
      Put(bytes, AT_WHAT, [ReasonByte(m.reason)], head);
      ZerosJoin(AT_CHECKSUM - AT_COUNT, 4);
      assert bytes[..] == head + Payload(m) + Zeros(4);
    } else {
      ZerosJoin(AT_CHECKSUM - AT_WHAT, 4);
      assert bytes[..] == head + Payload(m) + Zeros(4);
    }
  }

  /** `encode`: refused exactly outside the shapes, never truncated. */
  method Encode(crc: Checksum, m: Message) returns (ok: bool, bytes: array<Byte>)
    ensures ok <==> WellShaped(m)
    ensures ok ==> bytes[..] == Encoded(crc, m)
  {
    hide Le, Zeros, Checked, Head;
    bytes := new Byte[MESSAGE_BYTES](_ => 0);
    assert bytes[..] == Zeros(MESSAGE_BYTES);
    PutHead(bytes, m);
    if m.Hold? && (m.values == [] || |m.values| > MAX_HANDLES || |m.record| > RECORD_CAP) {
      return false, bytes;
    }
    PutPayload(bytes, m);
    NoZeros();
    assert bytes[..AT_CHECKSUM] == bytes[..][..AT_CHECKSUM] == Checked(m);
    Put(bytes, AT_CHECKSUM, Le(crc(bytes[..AT_CHECKSUM]), 4), Checked(m));
    assert bytes[..] == Encoded(crc, m);
    return true, bytes;
  }

  lemma {:induction false} ZerosJoin(a: nat, b: nat)
    ensures Zeros(a) + Zeros(b) == Zeros(a + b)
  {
  }

  method PutHold(bytes: array<Byte>, m: Message, ghost head: Bytes)
    requires m.Hold? && WellShaped(m) && |head| == AT_WHAT && bytes.Length == MESSAGE_BYTES
    requires bytes[..] == head + Zeros(MESSAGE_BYTES - AT_WHAT)
    modifies bytes
    ensures bytes[..] == head + Payload(m) + Zeros(4)
  {
    hide Le, Zeros, ValuesBytes;
    NoZeros();
    Put(bytes, AT_WHAT, [m.what, |m.values|], head);
    ghost var pre := head + [m.what, |m.values|];
    assert bytes[..] == pre + Zeros(MESSAGE_BYTES - AT_HANDLES);
    PutValues(bytes, m.values, pre);
    ghost var filled := pre + ValuesBytes(m.values);
    Put(bytes, AT_RECORD_LEN, Le(|m.record|, 2), filled);
    ghost var sized := pre + Slots(m.values) + Le(|m.record|, 2);
    assert filled + Zeros(AT_RECORD_LEN - |filled|) == pre + Slots(m.values);
    assert bytes[..] == sized + Zeros(MESSAGE_BYTES - AT_RECORD);
    Put(bytes, AT_RECORD, m.record, sized);
    ZerosJoin(RECORD_CAP - |m.record|, 4);
    assert bytes[..] == sized + m.record + Zeros(RECORD_CAP - |m.record|) + Zeros(4);
    assert sized + m.record + Zeros(RECORD_CAP - |m.record|) == head + Payload(m);
  }

  // ----------------------------------------------------------------- decoding

  /** The values in the first `count` slots; the rest must be zero. */
  function DecodedSlots(s: Bytes, count: nat): Option<seq<U64>>
    requires |s| == MAX_HANDLES * HANDLE_BYTES && count <= MAX_HANDLES
  {
    Pow256Values();
    var all := [FromLe(s[..8]), FromLe(s[8..16]), FromLe(s[16..])];
    if exists k :: count <= k < MAX_HANDLES && all[k] != 0 then None else Some(all[..count])
  }

  /** The message of `kind` and `id` with these bytes before its checksum. */
  function DecodedPayload(kind: Byte, id: U64, p: Bytes): Option<Message>
    requires |p| == AT_CHECKSUM - AT_WHAT
  {
    if kind == KIND_HOLD then
      if p[1] == 0 || p[1] > MAX_HANDLES then None else
      var values := DecodedSlots(p[2..26], p[1]);
      if values.None? then None else
      var len := FromLe(p[26..28]);
      if len > RECORD_CAP || !IsZero(p[28 + len..]) then None
      else Some(Hold(id, p[0], values.value, p[28..28 + len]))
    else if kind == KIND_RELEASE then if IsZero(p) then Some(Release(id)) else None
    else if kind == KIND_RELEASED then if IsZero(p) then Some(Released(id)) else None
    else if kind == KIND_HELD then if IsZero(p) then Some(Held(id)) else None
    else if kind == KIND_REFUSED then
      if ReasonOf(p[0]).None? || !IsZero(p[1..]) then None else Some(HoldRefused(id, ReasonOf(p[0]).value))
    else None
  }

  predicate IsZero(b: Bytes) { forall i :: 0 <= i < |b| ==> b[i] == 0 }

  /** `decode`; none is every malformed message. */
  function Decoded(crc: Checksum, b: Bytes): Option<Message> {
    if |b| != MESSAGE_BYTES then None
    else if FromLe(b[AT_CHECKSUM..]) != crc(b[..AT_CHECKSUM]) then None
    else if b[..AT_KIND] != HOLD_MAGIC then None
    else
      Pow256Values();
      DecodedPayload(b[AT_KIND], FromLe(b[AT_ID..AT_WHAT]), b[AT_WHAT..AT_CHECKSUM])
  }

  lemma {:induction false} IsZeroIsZeros(b: Bytes)
    ensures IsZero(b) <==> b == Zeros(|b|)
  {
  }

  lemma {:induction false} LeOfZero(n: nat)
    ensures Le(0, n) == Zeros(n)
  {
    if n > 0 {
      LeOfZero(n - 1);
    }
  }

  lemma {:induction false} SlotBytes(values: seq<U64>)
    requires |values| == MAX_HANDLES
    ensures ValuesBytes(values) == Le(values[0], 8) + Le(values[1], 8) + Le(values[2], 8)
  {
    hide Le;
    var two, one := values[..2], values[..2][..1];
    assert one == [values[0]] && two[..1] == one;
    assert ValuesBytes(one) == ValuesBytes(one[..0]) + Le(values[0], 8);
    assert ValuesBytes(two) == ValuesBytes(one) + Le(values[1], 8);
  }

  lemma {:induction false} SlotsPadded(values: seq<U64>, more: nat)
    requires |values| + more <= MAX_HANDLES
    ensures ValuesBytes(values + Blanks(more)) == ValuesBytes(values) + Zeros(more * HANDLE_BYTES)
  {
    hide Le;
    if more == 0 {
      assert values + Blanks(0) == values;
    } else {
      SlotsPadded(values, more - 1);
      assert (values + Blanks(more))[..|values| + more - 1] == values + Blanks(more - 1);
      LeOfZero(HANDLE_BYTES);
      ZerosJoin((more - 1) * HANDLE_BYTES, HANDLE_BYTES);
    }
  }

  function Blanks(n: nat): (v: seq<U64>)
    ensures |v| == n && forall i :: 0 <= i < n ==> v[i] == 0
  {
    if n == 0 then [] else Blanks(n - 1) + [0]
  }

  /** The slots of `values` are the slots that read back as them. */
  lemma {:induction false} SlotsIff(s: Bytes, values: seq<U64>)
    requires |s| == MAX_HANDLES * HANDLE_BYTES && |values| <= MAX_HANDLES
    ensures DecodedSlots(s, |values|) == Some(values) <==> s == Slots(values)
  {
    hide Le, FromLe, ValuesBytes, Zeros, DecodedSlots;
    var padded := values + Blanks(MAX_HANDLES - |values|);
    SlotsPadded(values, MAX_HANDLES - |values|);
    SlotBytes(padded);
    if s == Slots(values) {
      ReadSlots(s, padded, |values|);
    }
    if DecodedSlots(s, |values|) == Some(values) {
      SlotsSound(s, values, padded);
    }
  }

  lemma {:induction false} ReadSlots(s: Bytes, all: seq<U64>, count: nat)
    requires |s| == MAX_HANDLES * HANDLE_BYTES && |all| == MAX_HANDLES && count <= MAX_HANDLES
    requires s == Le(all[0], 8) + Le(all[1], 8) + Le(all[2], 8)
    requires forall k :: count <= k < MAX_HANDLES ==> all[k] == 0
    ensures DecodedSlots(s, count) == Some(all[..count])
  {
    hide Le, FromLe;
    Pow256Values();
    assert s[..8] == Le(all[0], 8) && s[8..16] == Le(all[1], 8) && s[16..] == Le(all[2], 8);
    LeRoundTrip(all[0], 8);
    LeRoundTrip(all[1], 8);
    LeRoundTrip(all[2], 8);
    assert [FromLe(s[..8]), FromLe(s[8..16]), FromLe(s[16..])] == all;
  }

  lemma {:induction false} SlotsSound(s: Bytes, values: seq<U64>, padded: seq<U64>)
    requires |s| == MAX_HANDLES * HANDLE_BYTES && |values| <= MAX_HANDLES && |padded| == MAX_HANDLES
    requires padded[..|values|] == values && forall k :: |values| <= k < MAX_HANDLES ==> padded[k] == 0
    requires DecodedSlots(s, |values|) == Some(values)
    ensures s == Le(padded[0], 8) + Le(padded[1], 8) + Le(padded[2], 8)
  {
    hide Le, FromLe;
    Pow256Values();
    var all := [FromLe(s[..8]), FromLe(s[8..16]), FromLe(s[16..])];
    assert all[..|values|] == values;
    forall k | 0 <= k < MAX_HANDLES ensures all[k] == padded[k] {
      if k < |values| {
        assert all[..|values|][k] == padded[..|values|][k];
      }
    }
    assert s == s[..8] + s[8..16] + s[16..];
  }

  lemma {:induction false} HoldIff(id: U64, p: Bytes, m: Message)
    requires |p| == AT_CHECKSUM - AT_WHAT && m.Hold?
    ensures DecodedPayload(KIND_HOLD, id, p) == Some(m) <==> WellShaped(m) && m.id == id && p == Payload(m)
  {
    hide Le, FromLe, ValuesBytes, Zeros, DecodedSlots, Slots;
    Pow256Values();
    if WellShaped(m) && m.id == id && p == Payload(m) {
      HoldComplete(p, m);
    }
    if DecodedPayload(KIND_HOLD, id, p) == Some(m) {
      HoldSound(id, p, m);
    }
  }

  lemma {:induction false} HoldComplete(p: Bytes, m: Message)
    requires m.Hold? && WellShaped(m) && p == Payload(m)
    ensures DecodedPayload(KIND_HOLD, m.id, p) == Some(m)
  {
    hide Le, FromLe, ValuesBytes, Zeros, DecodedSlots, Slots;
    Pow256Values();
    assert p[2..26] == Slots(m.values);
    SlotsIff(p[2..26], m.values);
    assert p[26..28] == Le(|m.record|, 2);
    LeRoundTrip(|m.record|, 2);
    assert p[28..28 + |m.record|] == m.record;
    assert p[28 + |m.record|..] == Zeros(RECORD_CAP - |m.record|);
    IsZeroIsZeros(p[28 + |m.record|..]);
  }

  lemma {:induction false} HoldSound(id: U64, p: Bytes, m: Message)
    requires |p| == AT_CHECKSUM - AT_WHAT && DecodedPayload(KIND_HOLD, id, p) == Some(m)
    ensures m.Hold? && m.id == id && WellShaped(m) && p == Payload(m)
  {
    hide Le, FromLe, ValuesBytes, Zeros, Slots;
    Pow256Values();
    var len := FromLe(p[26..28]);
    SlotsIff(p[2..26], m.values);
    IsZeroIsZeros(p[28 + len..]);
    assert p == p[..2] + p[2..26] + p[26..28] + p[28..28 + len] + p[28 + len..];
    assert p[..2] == [m.what, |m.values|];
  }

  lemma {:induction false} PayloadIff(kind: Byte, id: U64, p: Bytes, m: Message)
    requires |p| == AT_CHECKSUM - AT_WHAT
    ensures DecodedPayload(kind, id, p) == Some(m) <==>
      WellShaped(m) && KindOf(m) == kind && m.id == id && p == Payload(m)
  {
    hide Le, FromLe, Zeros, Slots, DecodedSlots;
    IsZeroIsZeros(p);
    IsZeroIsZeros(p[1..]);
    if m.Hold? {
      HoldIff(id, p, m);
    } else if m.HoldRefused? {
      assert p == [p[0]] + p[1..];
    }
  }

  /** Decoding and encoding are inverse between well-shaped messages and accepted bytes, whatever the checksum. */
  lemma {:induction false} DecodeIffEncoding(crc: Checksum, b: Bytes, m: Message)
    ensures Decoded(crc, b) == Some(m) <==> WellShaped(m) && b == Encoded(crc, m)
  {
    hide Le, FromLe, Payload, DecodedPayload, WellShaped;
    Pow256Values();
    if |b| == MESSAGE_BYTES {
      PayloadIff(b[AT_KIND], FromLe(b[AT_ID..AT_WHAT]), b[AT_WHAT..AT_CHECKSUM], m);
      assert b == b[..AT_KIND] + [b[AT_KIND]] + b[AT_ID..AT_WHAT] + b[AT_WHAT..AT_CHECKSUM] + b[AT_CHECKSUM..];
      assert b[..AT_CHECKSUM] == b[..AT_KIND] + [b[AT_KIND]] + b[AT_ID..AT_WHAT] + b[AT_WHAT..AT_CHECKSUM];
    }
    if WellShaped(m) && b == Encoded(crc, m) {
      EncodedFields(crc, b, m);
    }
  }

  lemma {:induction false} EncodedFields(crc: Checksum, b: Bytes, m: Message)
    requires WellShaped(m) && b == Encoded(crc, m)
    ensures b[..AT_CHECKSUM] == Checked(m) && FromLe(b[AT_CHECKSUM..]) == crc(Checked(m))
    ensures b[..AT_KIND] == HOLD_MAGIC && b[AT_KIND] == KindOf(m) && FromLe(b[AT_ID..AT_WHAT]) == m.id
    ensures b[AT_WHAT..AT_CHECKSUM] == Payload(m)
  {
    hide Le, FromLe, Payload, WellShaped;
    Pow256Values();
    LeRoundTrip(crc(Checked(m)), 4);
    LeRoundTrip(m.id, 8);
    assert b[AT_ID..AT_WHAT] == Le(m.id, 8);
    assert b[AT_CHECKSUM..] == Le(crc(Checked(m)), 4);
  }
}
