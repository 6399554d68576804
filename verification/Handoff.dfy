// The textual handoff of held handles to a spawned daemon
// (crates/anchor/src/handles.rs, `encode_env` and `parse_env`), as ASCII bytes:
// the channel, each entry, and a checksum of the text before it.

module Handoff {
  import opened Wire
  import opened HoldMessages

  const U64_HEX_DIGITS := 16
  const CHECKSUM_HEX_DIGITS := 8
  const ENTRY_TEXT_CAP := (MAX_HANDLES + 1) * U64_HEX_DIGITS + RECORD_CAP * 2 + 2 + MAX_HANDLES + 4

  const SEMICOLON: Byte := 0x3B
  const COLON: Byte := 0x3A
  const COMMA: Byte := 0x2C
  const HASH: Byte := 0x23
  const PLUS: Byte := 0x2B
  const MINUS: Byte := 0x2D

  datatype HandedEntry = HandedEntry(id: U64, what: U8, values: seq<U64>, record: Bytes)

  // ---------------------------------------------------------------------- hex

  function Digit(d: nat): (c: Byte)
    requires d < 16
  {
    if d < 10 then 0x30 + d else 0x61 + d - 10
  }

  /** `{v:x}`: lower case, no leading zeros. */
  function Hex(v: nat): Bytes {
    if v < 16 then [Digit(v)] else Hex(v / 16) + [Digit(v % 16)]
  }

  /** `{v:0nx}`: exactly the low `n` digits. */
  function HexPadded(v: nat, n: nat): (t: Bytes)
    ensures |t| == n
  {
    if n == 0 then [] else HexPadded(v / 16, n - 1) + [Digit(v % 16)]
  }

  predicate IsHexDigit(c: Byte) { 0x30 <= c <= 0x39 || 0x61 <= c <= 0x66 }

  /** Lower-case hexadecimal digits only. */
  predicate HexText(t: Bytes) { forall i :: 0 <= i < |t| ==> IsHexDigit(t[i]) }

  function DigitValue(c: Byte): Option<nat> {
    if 0x30 <= c <= 0x39 then Some(c - 0x30)
    else if 0x61 <= c <= 0x66 then Some(c - 0x61 + 10)
    else if 0x41 <= c <= 0x46 then Some(c - 0x41 + 10)
    else None
  }

  function Digits(t: Bytes): Option<nat> {
    if t == [] then Some(0) else
    var high, low := Digits(t[..|t| - 1]), DigitValue(t[|t| - 1]);
    if high.None? || low.None? then None else Some(high.value * 16 + low.value)
  }

  /** The integer parser: an optional plus sign, then digits of either case, within `max`. */
  function FromRadix(t: Bytes, max: nat): Option<nat> {
    var digits := if t != [] && t[0] == PLUS then t[1..] else t;
    if digits == [] then None else
    var v := Digits(digits);
    if v.None? || v.value > max then None else v
  }

  function HexU64(t: Bytes): Option<U64> {
    if t == [] || |t| > U64_HEX_DIGITS then None else FromRadix(t, U64_MAX)
  }

  function Pow16(n: nat): (p: nat)
    ensures p >= 1
  {
    if n == 0 then 1 else 16 * Pow16(n - 1)
  }

  lemma {:induction false} HexFits(v: nat, n: nat)
    requires n > 0 && v < Pow16(n)
    ensures 1 <= |Hex(v)| <= n && HexText(Hex(v))
    decreases n
  {
    if v >= 16 {
      HexFits(v / 16, n - 1);
    }
  }

  lemma {:induction false} DigitsOfHex(v: nat)
    ensures Digits(Hex(v)) == Some(v)
  {
    if v >= 16 {
      DigitsOfHex(v / 16);
      assert Hex(v)[..|Hex(v)| - 1] == Hex(v / 16);
    } else {
      assert Hex(v)[..0] == [];
    }
  }

  lemma {:induction false} DigitsOfPadded(v: nat, n: nat)
    requires v < Pow16(n)
    ensures Digits(HexPadded(v, n)) == Some(v) && HexText(HexPadded(v, n))
  {
    if n > 0 {
      DigitsOfPadded(v / 16, n - 1);
      assert HexPadded(v, n)[..n - 1] == HexPadded(v / 16, n - 1);
    }
  }

  lemma {:induction false} Pow16Values()
    ensures Pow16(2) == U8_MAX + 1 && Pow16(8) == U32_MAX + 1 && Pow16(16) == U64_MAX + 1
  {
    assert Pow16(4) == 16 * (16 * (16 * (16 * Pow16(0))));
    assert Pow16(8) == 16 * (16 * (16 * (16 * Pow16(4))));
    assert Pow16(12) == 16 * (16 * (16 * (16 * Pow16(8))));
    assert Pow16(16) == 16 * (16 * (16 * (16 * Pow16(12))));
  }

  lemma {:induction false} HexRoundTrip(v: U64)
    ensures HexU64(Hex(v)) == Some(v) && HexText(Hex(v)) && 1 <= |Hex(v)| <= U64_HEX_DIGITS
  {
    hide Hex, Digits;
    Pow16Values();
    HexFits(v, 16);
    DigitsOfHex(v);
  }

  lemma {:induction false} HexByteRoundTrip(v: U8)
    ensures FromRadix(Hex(v), U8_MAX) == Some(v) && HexText(Hex(v)) && 1 <= |Hex(v)| <= 2
  {
    hide Hex, Digits;
    Pow16Values();
    HexFits(v, 2);
    DigitsOfHex(v);
  }

  // ------------------------------------------------------------------- record

  function Pairs(record: Bytes): (t: Bytes)
    ensures |t| == 2 * |record|
  {
    if record == [] then [] else Pairs(record[..|record| - 1]) + HexPadded(record[|record| - 1], 2)
  }

  function FromPairs(t: Bytes): Option<Bytes>
    requires |t| % 2 == 0
  {
    if t == [] then Some([]) else
    var front, b := FromPairs(t[..|t| - 2]), FromRadix(t[|t| - 2..], U8_MAX);
    if front.None? || b.None? then None else Some(front.value + [b.value])
  }

  function HexBytes(t: Bytes): Option<Bytes> {
    if t == [] || |t| % 2 != 0 || |t| > RECORD_CAP * 2 then None else FromPairs(t)
  }

  function RecordText(record: Bytes): Bytes { if record == [] then [MINUS] else Pairs(record) }

  function RecordOf(t: Bytes): Option<Bytes> { if t == [MINUS] then Some([]) else HexBytes(t) }

  lemma {:induction false} PairRoundTrip(b: Byte)
    ensures FromRadix(HexPadded(b, 2), U8_MAX) == Some(b) && HexText(HexPadded(b, 2))
  {
    hide HexPadded, Digits;
    Pow16Values();
    DigitsOfPadded(b, 2);
  }

  lemma {:induction false} PairsRoundTrip(record: Bytes)
    ensures FromPairs(Pairs(record)) == Some(record) && HexText(Pairs(record))
  {
    hide HexPadded, FromRadix;
    if record != [] {
      var k := |record| - 1;
      PairsRoundTrip(record[..k]);
      PairRoundTrip(record[k]);
      var t := Pairs(record);
      assert t[..|t| - 2] == Pairs(record[..k]) && t[|t| - 2..] == HexPadded(record[k], 2);
      assert record == record[..k] + [record[k]];
    }
  }

  /** Text no separator occurs in. */
  predicate Plain(t: Bytes) {
    SEMICOLON !in t && COLON !in t && HASH !in t
  }

  lemma {:induction false} HexIsPlain(t: Bytes)
    requires HexText(t)
    ensures Plain(t) && COMMA !in t
  {
  }

  lemma {:induction false} RecordRoundTrip(record: Bytes)
    requires |record| <= RECORD_CAP
    ensures RecordOf(RecordText(record)) == Some(record) && Plain(RecordText(record))
    ensures |RecordText(record)| <= 2 * RECORD_CAP
  {
    hide Pairs, FromPairs;
    PairsRoundTrip(record);
    if record != [] {
      HexIsPlain(Pairs(record));
      assert Pairs(record) != [MINUS];
    }
  }

  // ------------------------------------------------------------------ splitting

  /** Where `sep` first occurs, or the length. */
  function Find(t: Bytes, sep: Byte): (i: nat)
    ensures i <= |t|
    ensures sep !in t[..i]
    ensures i < |t| ==> t[i] == sep
  {
    if t == [] || t[0] == sep then 0 else
    var i := 1 + Find(t[1..], sep);
    assert t[..i] == [t[0]] + t[1..][..i - 1];
    i
  }

  /** The parts between separators; one more than there are separators. */
  function Split(t: Bytes, sep: Byte): (parts: seq<Bytes>)
    ensures parts != []
    decreases |t|
  {
    var i := Find(t, sep);
    if i == |t| then [t] else [t[..i]] + Split(t[i + 1..], sep)
  }

  lemma {:induction false} FindFirst(a: Bytes, sep: Byte, b: Bytes)
    requires sep !in a
    ensures Find(a + [sep] + b, sep) == |a| && Find(a, sep) == |a|
  {
    if a != [] {
      FindFirst(a[1..], sep, b);
      assert (a + [sep] + b)[1..] == a[1..] + [sep] + b;
      assert a[0] in a;
    }
  }

  lemma {:induction false} SplitFirst(a: Bytes, sep: Byte, b: Bytes)
    requires sep !in a
    ensures Split(a + [sep] + b, sep) == [a] + Split(b, sep) && Split(a, sep) == [a]
  {
    hide Find;
    FindFirst(a, sep, b);
    var t := a + [sep] + b;
    assert t[..|a|] == a && t[|a| + 1..] == b;
  }

  // -------------------------------------------------------------------- entries

  function Joined(values: seq<U64>): Bytes {
    if values == [] then [] else
    if |values| == 1 then Hex(values[0]) else Hex(values[0]) + [COMMA] + Joined(values[1..])
  }

  function EntryText(e: HandedEntry): Bytes {
    Hex(e.id) + [COLON] + (Hex(e.what) + [COLON] + (Joined(e.values) + [COLON] + RecordText(e.record)))
  }

  /** The handles between commas, refused past the cap. */
  function HandlesOf(parts: seq<Bytes>, room: nat): Option<seq<U64>> {
    if parts == [] then Some([])
    else if room == 0 || HexU64(parts[0]).None? then None
    else
      var rest := HandlesOf(parts[1..], room - 1);
      if rest.None? then None else Some([HexU64(parts[0]).value] + rest.value)
  }

  /** `parse_entry`. */
  function EntryOf(part: Bytes): Option<HandedEntry> {
    var fields := Split(part, COLON);
    if |fields| != 4 then None else
    var id, what := HexU64(fields[0]), FromRadix(fields[1], U8_MAX);
    var values, record := HandlesOf(Split(fields[2], COMMA), MAX_HANDLES), RecordOf(fields[3]);
    if id.None? || what.None? || values.None? || record.None? then None
    else Some(HandedEntry(id.value, what.value, values.value, record.value))
  }

  predicate EntryFits(e: HandedEntry) { 1 <= |e.values| <= MAX_HANDLES && |e.record| <= RECORD_CAP }

  lemma {:induction false} OneHandle(t: Bytes, v: U64, room: nat)
    requires HexU64(t) == Some(v) && room > 0
    ensures HandlesOf([t], room) == Some([v])
  {
    hide HexU64;
    assert [t][1..] == [];
    var none: seq<U64> := [];
    assert HandlesOf([], room - 1) == Some(none) && [v] + none == [v];
  }

  lemma {:induction false} JoinedRoundTrip(values: seq<U64>, room: nat)
    requires 1 <= |values| <= room
    ensures HandlesOf(Split(Joined(values), COMMA), room) == Some(values)
    ensures Plain(Joined(values)) && |Joined(values)| <= (U64_HEX_DIGITS + 1) * |values| - 1
    decreases |values|
  {
    hide Hex, HexU64, Split, HexText;
    HexRoundTrip(values[0]);
    HexIsPlain(Hex(values[0]));
    if |values| == 1 {
      SplitFirst(Hex(values[0]), COMMA, []);
      assert values == [values[0]];
      OneHandle(Hex(values[0]), values[0], room);
    } else {
      JoinedRoundTrip(values[1..], room - 1);
      SplitFirst(Hex(values[0]), COMMA, Joined(values[1..]));
      assert values == [values[0]] + values[1..];
    }
  }

  lemma {:induction false} FourFields(a: Bytes, b: Bytes, c: Bytes, d: Bytes)
    requires Plain(a) && Plain(b) && Plain(c) && Plain(d)
    ensures Split(a + [COLON] + (b + [COLON] + (c + [COLON] + d)), COLON) == [a, b, c, d]
    ensures SEMICOLON !in a + [COLON] + (b + [COLON] + (c + [COLON] + d))
    ensures HASH !in a + [COLON] + (b + [COLON] + (c + [COLON] + d))
  {
    hide Split;
    SplitFirst(a, COLON, b + [COLON] + (c + [COLON] + d));
    SplitFirst(b, COLON, c + [COLON] + d);
    SplitFirst(c, COLON, d);
    SplitFirst(d, COLON, []);
  }

  lemma {:induction false} EntryRoundTrip(e: HandedEntry)
    requires EntryFits(e)
    ensures EntryOf(EntryText(e)) == Some(e)
    ensures SEMICOLON !in EntryText(e) && HASH !in EntryText(e) && |EntryText(e)| + 1 <= ENTRY_TEXT_CAP
  {
    hide Hex, HexU64, FromRadix, Split, Joined, HandlesOf, RecordText, RecordOf, HexText, Plain;
    HexRoundTrip(e.id);
    HexIsPlain(Hex(e.id));
    HexByteRoundTrip(e.what);
    HexIsPlain(Hex(e.what));
    JoinedRoundTrip(e.values, MAX_HANDLES);
    RecordRoundTrip(e.record);
    FourFields(Hex(e.id), Hex(e.what), Joined(e.values), RecordText(e.record));
  }

  /** An entry with no handle is written, and refused when read. */
  lemma {:induction false} NoHandleIsRefused(e: HandedEntry)
    requires e.values == [] && |e.record| <= RECORD_CAP
    ensures EntryOf(EntryText(e)) == None
  {
    hide Hex, HexU64, FromRadix, RecordText, RecordOf, HexText, Plain, HandlesOf;
    HexRoundTrip(e.id);
    HexIsPlain(Hex(e.id));
    HexByteRoundTrip(e.what);
    HexIsPlain(Hex(e.what));
    RecordRoundTrip(e.record);
    NothingIsNoHandle();
    FourFields(Hex(e.id), Hex(e.what), [], RecordText(e.record));
  }

  lemma {:induction false} NothingIsNoHandle()
    ensures Plain([]) && HandlesOf(Split([], COMMA), MAX_HANDLES) == None
  {
  }

  // -------------------------------------------------------------------- handoff

  /** The channel and every entry, each after a semicolon. */
  function EnvBody(channel: U64, es: seq<HandedEntry>): Bytes {
    if es == [] then Hex(channel) else EnvBody(channel, es[..|es| - 1]) + [SEMICOLON] + EntryText(es[|es| - 1])
  }

  function Sealed(crc: Checksum, body: Bytes): Bytes { body + [HASH] + HexPadded(crc(body), CHECKSUM_HEX_DIGITS) }

  method EncodeEnv(crc: Checksum, channel: U64, es: seq<HandedEntry>) returns (t: Bytes)
    ensures t == Sealed(crc, EnvBody(channel, es))
  {
    hide EntryText, Hex;
    t := Hex(channel);
    for i := 0 to |es|
      invariant t == EnvBody(channel, es[..i])
    {
      assert es[..i + 1][..i] == es[..i];
      t := t + [SEMICOLON] + EntryText(es[i]);
    }
    assert es[..|es|] == es;
    return t + [HASH] + HexPadded(crc(t), CHECKSUM_HEX_DIGITS);
  }

  /** One entry written out: mount 7 with handles 0x28 and 0xff and the record "/" is `7:1:28,ff:2f`. */
  lemma {:induction false} EntryExample()
    ensures EntryText(HandedEntry(7, 1, [0x28, 0xff], [0x2f])) ==
      [0x37, 0x3A, 0x31, 0x3A, 0x32, 0x38, 0x2C, 0x66, 0x66, 0x3A, 0x32, 0x66]
  {
    hide Hex, Joined, RecordText;
    HexTwo(0x28);
    HexTwo(0xff);
    TwoJoined(0x28, 0xff);
    OneRecord(0x2f);
    HexOne(7);
    HexOne(1);
  }

  lemma {:induction false} HexOne(v: nat)
    requires v < 16
    ensures Hex(v) == [Digit(v)]
  {
  }

  lemma {:induction false} HexTwo(v: nat)
    requires 16 <= v < 0x100
    ensures Hex(v) == [Digit(v / 16), Digit(v % 16)]
  {
    HexOne(v / 16);
  }

  lemma {:induction false} TwoJoined(v: U64, w: U64)
    ensures Joined([v, w]) == Hex(v) + [COMMA] + Hex(w)
  {
    hide Hex;
    assert [v, w][1..] == [w];
  }

  lemma {:induction false} OneRecord(b: Byte)
    ensures RecordText([b]) == [Digit(b / 16), Digit(b % 16)]
  {
    assert [b][..0] == [] && Pairs([]) == [];
    assert HexPadded(b / 16, 1) == HexPadded(b / 16 / 16, 0) + [Digit(b / 16 % 16)];
    assert HexPadded(b, 2) == HexPadded(b / 16, 1) + [Digit(b % 16)];
    assert Pairs([b]) == Pairs([b][..0]) + HexPadded(b, 2);
  }

  /** A handoff of channel 0x1c and that entry is `1c;7:1:28,ff:2f`; a record of nothing is a dash. */
  lemma {:induction false} HandoffExample()
    ensures EnvBody(0x1c, [HandedEntry(7, 1, [0x28, 0xff], [0x2f])]) ==
      [0x31, 0x63, 0x3B] + [0x37, 0x3A, 0x31, 0x3A, 0x32, 0x38, 0x2C, 0x66, 0x66, 0x3A, 0x32, 0x66]
    ensures RecordText([]) == [0x2D]
  {
    hide EntryText, Hex;
    HexTwo(0x1c);
    var e := HandedEntry(7, 1, [0x28, 0xff], [0x2f]);
    EntryExample();
    assert [e][..0] == [];
    assert EnvBody(0x1c, []) == Hex(0x1c);
    assert EnvBody(0x1c, [e]) == EnvBody(0x1c, [e][..0]) + [SEMICOLON] + EntryText(e);
  }

  /** The seal is a hash sign and the checksum of all before it in eight digits, the most significant first. */
  lemma {:induction false} SealFields(crc: Checksum, body: Bytes, k: nat)
    requires k < 8
    ensures var t := Sealed(crc, body);
      && |t| == |body| + 9 && t[..|body|] == body && t[|body|] == 0x23
      && t[|body| + 1 + k] == Digit(crc(body) / Pow16(7 - k) % 16)
  {
    PaddedDigit(crc(body), 8, k);
  }

  lemma {:induction false} PaddedDigit(v: nat, n: nat, k: nat)
    requires k < n
    ensures HexPadded(v, n)[k] == Digit(v / Pow16(n - 1 - k) % 16)
    decreases n
  {
    if k < n - 1 {
      PaddedDigit(v / 16, n - 1, k);
      SixteenTwice(v, Pow16(n - 2 - k));
    }
  }

  lemma {:induction false} SixteenTwice(v: nat, b: nat)
    requires b > 0
    ensures v / 16 / b == v / (16 * b)
  {
    var q, r := v / 16 / b, v / 16 % b;
    assert v / 16 == q * b + r;
    assert (16 * b) * q == 16 * (q * b);
    QuotientIs(v, 16 * b, q, 16 * r + v % 16);
  }

  datatype Parsed = Accepted(channel: U64, entries: seq<HandedEntry>) | Malformed | OverBound(bound: nat)

  /** Where `sep` last occurs, or the length. */
  function FindLast(t: Bytes, sep: Byte): (i: nat)
    ensures i <= |t| && (i < |t| ==> t[i] == sep && sep !in t[i + 1..])
  {
    if t == [] then 0
    else if t[|t| - 1] == sep then |t| - 1
    else
      var i := FindLast(t[..|t| - 1], sep);
      if i == |t| - 1 then |t| else
      assert t[i + 1..] == t[..|t| - 1][i + 1..] + [t[|t| - 1]];
      i
  }

  /** The text before the checksum, when the checksum is there and agrees. */
  function Unsealed(crc: Checksum, t: Bytes): Option<Bytes> {
    var i := FindLast(t, HASH);
    if i == |t| then None else
    var checksum := t[i + 1..];
    if |checksum| == CHECKSUM_HEX_DIGITS && FromRadix(checksum, U32_MAX) == Some(crc(t[..i])) then Some(t[..i])
    else None
  }

  /** The handles an entry list owns, in order. */
  function Handles(es: seq<HandedEntry>): seq<U64> {
    if es == [] then [] else Handles(es[..|es| - 1]) + es[|es| - 1].values
  }

  predicate Unique(s: seq<U64>) { forall i, j :: 0 <= i < j < |s| ==> s[i] != s[j] }

  function Ids(es: seq<HandedEntry>): (ids: seq<U64>)
    ensures |ids| == |es| && forall i :: 0 <= i < |es| ==> ids[i] == es[i].id
  {
    if es == [] then [] else Ids(es[..|es| - 1]) + [es[|es| - 1].id]
  }

  /** Each id names one entry, and each handle, the channel's own among them, has one owner. */
  predicate OneOwner(channel: U64, es: seq<HandedEntry>) {
    Unique(Ids(es)) && Unique([channel] + Handles(es))
  }

  /** The first `n` parts after the channel, each an entry. */
  function PartEntries(parts: seq<Bytes>, n: nat): Option<seq<HandedEntry>>
    requires n <= |parts|
  {
    if n == 0 then Some([]) else
    var front, e := PartEntries(parts, n - 1), EntryOf(parts[n - 1]);
    if front.None? || e.None? then None else Some(front.value + [e.value])
  }

  /** The parts are entries, within the bound, with one owner each. */
  ghost predicate PartsHold(channel: U64, parts: seq<Bytes>, bound: nat, es: seq<HandedEntry>) {
    |parts| <= bound && PartEntries(parts, |parts|) == Some(es) && OneOwner(channel, es)
  }

  ghost predicate SetOf(s: seq<U64>, owners: set<U64>) { forall h :: h in owners <==> h in s }

  lemma {:induction false} UniqueSnoc(s: seq<U64>, x: U64)
    ensures Unique(s + [x]) <==> Unique(s) && x !in s
  {
    var t := s + [x];
    if Unique(t) {
      forall i, j | 0 <= i < j < |s| ensures s[i] != s[j] {
        assert t[i] != t[j];
      }
      forall i | 0 <= i < |s| ensures s[i] != x {
        assert t[i] != t[|s|];
      }
    }
  }

  lemma {:induction false} UniquePrefix(s: seq<U64>, more: seq<U64>)
    requires Unique(s + more)
    ensures Unique(s)
  {
    forall i, j | 0 <= i < j < |s| ensures s[i] != s[j] {
      assert (s + more)[i] != (s + more)[j];
    }
  }

  /** Adds an entry's handles to the owned ones, stopping at one owned already. */
  method Own(owned: set<U64>, values: seq<U64>, ghost before: seq<U64>) returns (ok: bool, owned': set<U64>)
    requires SetOf(before, owned) && Unique(before)
    ensures ok <==> Unique(before + values)
    ensures ok ==> SetOf(before + values, owned')
  {
    owned' := owned;
    assert before + values[..0] == before;
    for k := 0 to |values|
      invariant SetOf(before + values[..k], owned') && Unique(before + values[..k])
    {
      ghost var done := before + values[..k];
      assert before + values[..k + 1] == done + [values[k]];
      UniqueSnoc(done, values[k]);
      if values[k] in owned' {
        if Unique(before + values) {
          assert before + values == done + [values[k]] + values[k + 1..];
          UniquePrefix(done + [values[k]], values[k + 1..]);
        }
        return false, owned';
      }
      owned' := owned' + {values[k]};
    }
    assert values[..|values|] == values;
    return true, owned';
  }

  /** The entries read from the first `i` parts, and the sets of what they own. */
  ghost predicate ReadSoFar(
    channel: U64, parts: seq<Bytes>, i: nat, entries: seq<HandedEntry>, ids: set<U64>, owned: set<U64>)
    requires i <= |parts|
  {
    && PartEntries(parts, i) == Some(entries) && |entries| == i
    && OneOwner(channel, entries)
    && SetOf(Ids(entries), ids) && SetOf([channel] + Handles(entries), owned)
  }

  lemma {:induction false} NothingRead(channel: U64, parts: seq<Bytes>)
    ensures ReadSoFar(channel, parts, 0, [], {}, {channel})
  {
    assert Handles([]) == [] && [channel] + [] == [channel];
  }

  lemma {:induction false} OneMoreRead(
    channel: U64, parts: seq<Bytes>, i: nat, entries: seq<HandedEntry>, ids: set<U64>, owned: set<U64>, e: HandedEntry)
    requires i < |parts| && ReadSoFar(channel, parts, i, entries, ids, owned) && EntryOf(parts[i]) == Some(e)
    ensures PartEntries(parts, i + 1) == Some(entries + [e])
    ensures [channel] + Handles(entries + [e]) == [channel] + Handles(entries) + e.values
    ensures Ids(entries + [e]) == Ids(entries) + [e.id]
    ensures Unique(Ids(entries + [e])) <==> e.id !in ids
  {
    hide EntryOf, Unique;
    assert (entries + [e])[..i] == entries;
    UniqueSnoc(Ids(entries), e.id);
  }

  /** The loop of `parse_env` over the parts after the channel. */
  method ParseEntries(channel: U64, parts: seq<Bytes>, bound: nat) returns (r: Parsed)
    ensures r.Accepted? ==> r.channel == channel && PartsHold(channel, parts, bound, r.entries)
    ensures !r.Accepted? ==> forall es :: !PartsHold(channel, parts, bound, es)
    ensures r.OverBound? ==> r.bound == bound < |parts|
  {
    hide EntryOf, Unique, Handles, Ids, PartEntries;
    var entries: seq<HandedEntry>, ids: set<U64>, owned := [], {}, {channel};
    NothingRead(channel, parts);
    for i := 0 to |parts|
      invariant i <= bound && ReadSoFar(channel, parts, i, entries, ids, owned)
    {
      if |entries| >= bound {
        return OverBound(bound);
      }
      var e := EntryOf(parts[i]);
      if e.None? {
        PartFails(parts, i);
        return Malformed;
      }
      var entry := e.value;
      OneMoreRead(channel, parts, i, entries, ids, owned, entry);
      var unowned, owned' := Own(owned, entry.values, [channel] + Handles(entries));
      if entry.id in ids || !unowned {
        OwnerFails(channel, parts, bound, i, entries + [entry]);
        return Malformed;
      }
      ids, owned, entries := ids + {entry.id}, owned', entries + [entry];
    }
    return Accepted(channel, entries);
  }

  lemma {:induction false} PrefixParts(parts: seq<Bytes>, i: nat, n: nat)
    requires i <= n <= |parts| && PartEntries(parts, n).Some?
    ensures PartEntries(parts, i).Some? && |PartEntries(parts, n).value| == n
    ensures PartEntries(parts, i).value == PartEntries(parts, n).value[..i]
    decreases n
  {
    hide EntryOf;
    if n > 0 {
      if i < n {
        PrefixParts(parts, i, n - 1);
      } else {
        PrefixParts(parts, n - 1, n - 1);
      }
    }
  }

  lemma {:induction false} PartFails(parts: seq<Bytes>, i: nat)
    requires i < |parts| && EntryOf(parts[i]).None?
    ensures PartEntries(parts, |parts|).None?
  {
    hide EntryOf;
    if PartEntries(parts, |parts|).Some? {
      PrefixParts(parts, i + 1, |parts|);
    }
  }

  lemma {:induction false} HandlesPrefix(es: seq<HandedEntry>, i: nat)
    requires i <= |es|
    ensures Handles(es[..i]) <= Handles(es)
    decreases |es|
  {
    if i < |es| {
      HandlesPrefix(es[..|es| - 1], i);
      assert es[..|es| - 1][..i] == es[..i];
    } else {
      assert es[..i] == es;
    }
  }

  lemma {:induction false} OwnerFails(channel: U64, parts: seq<Bytes>, bound: nat, i: nat, next: seq<HandedEntry>)
    requires i < |parts| && PartEntries(parts, i + 1) == Some(next) && !OneOwner(channel, next)
    ensures forall es :: !PartsHold(channel, parts, bound, es)
  {
    hide EntryOf, Unique, Handles, Ids;
    forall es ensures !PartsHold(channel, parts, bound, es) {
      if PartsHold(channel, parts, bound, es) {
        PrefixParts(parts, i + 1, |parts|);
        HandlesPrefix(es, i + 1);
        var more := ([channel] + Handles(es))[|[channel] + Handles(next)|..];
        assert [channel] + Handles(es) == [channel] + Handles(next) + more;
        UniquePrefix([channel] + Handles(next), more);
        assert Ids(es) == Ids(next) + Ids(es)[i + 1..];
        UniquePrefix(Ids(next), Ids(es)[i + 1..]);
      }
    }
  }
}
