// What the textual handoff (crates/anchor/src/handles.rs, `parse_env`) accepts:
// everything `encode_env` writes, one owner for each id and handle, and, among the
// spellings of a value, exactly the plain one is what `encode_env` writes.

module HandoffProofs {
  import opened Wire
  import opened HoldMessages
  import opened Handoff

  function TextCap(bound: nat): nat { bound * ENTRY_TEXT_CAP + U64_HEX_DIGITS + CHECKSUM_HEX_DIGITS + 1 }

  /** `parse_env` reads `t` as this channel and these entries. */
  ghost predicate Parses(crc: Checksum, t: Bytes, bound: nat, channel: U64, es: seq<HandedEntry>) {
    && TextCap(bound) <= U64_MAX && |t| <= TextCap(bound)
    && Unsealed(crc, t).Some?
    && var parts := Split(Unsealed(crc, t).value, SEMICOLON);
      HexU64(parts[0]) == Some(channel) && PartsHold(channel, parts[1..], bound, es)
  }

  method ParseEnv(crc: Checksum, t: Bytes, bound: nat) returns (r: Parsed)
    ensures r.Accepted? ==> Parses(crc, t, bound, r.channel, r.entries)
    ensures !r.Accepted? ==> forall channel, es :: !Parses(crc, t, bound, channel, es)
  {
    hide PartsHold, Unsealed, Split, HexU64;
    if TextCap(bound) > U64_MAX || |t| > TextCap(bound) {
      return Malformed;
    }
    var body := Unsealed(crc, t);
    if body.None? {
      return Malformed;
    }
    var parts := Split(body.value, SEMICOLON);
    var channel := HexU64(parts[0]);
    if channel.None? {
      return Malformed;
    }
    r := ParseEntries(channel.value, parts[1..], bound);
  }

  // ------------------------------------------------------- what is accepted

  lemma {:induction false} HandlesFit(parts: seq<Bytes>, room: nat)
    requires HandlesOf(parts, room).Some?
    ensures |HandlesOf(parts, room).value| == |parts| <= room
  {
    hide HexU64;
    if parts != [] {
      HandlesFit(parts[1..], room - 1);
    }
  }

  lemma {:induction false} PairsFit(t: Bytes)
    requires |t| % 2 == 0 && FromPairs(t).Some?
    ensures 2 * |FromPairs(t).value| == |t|
  {
    hide FromRadix;
    if t != [] {
      PairsFit(t[..|t| - 2]);
    }
  }

  lemma {:induction false} AcceptedEntryFits(part: Bytes)
    requires EntryOf(part).Some?
    ensures EntryFits(EntryOf(part).value)
  {
    hide HexU64, FromRadix, Split, HandlesOf, FromPairs;
    var fields := Split(part, COLON);
    HandlesFit(Split(fields[2], COMMA), MAX_HANDLES);
    if fields[3] != [MINUS] {
      PairsFit(fields[3]);
    }
  }

  lemma {:induction false} AcceptedEntriesFit(parts: seq<Bytes>, n: nat)
    requires n <= |parts| && PartEntries(parts, n).Some?
    ensures forall i :: 0 <= i < |PartEntries(parts, n).value| ==> EntryFits(PartEntries(parts, n).value[i])
    ensures |PartEntries(parts, n).value| == n
  {
    hide EntryOf, EntryFits;
    if n > 0 {
      AcceptedEntriesFit(parts, n - 1);
      AcceptedEntryFits(parts[n - 1]);
    }
  }

  /** Whatever is accepted is within every cap, and each id and handle has one owner. */
  lemma {:induction false} AcceptedHasOneOwner(crc: Checksum, t: Bytes, bound: nat, channel: U64, es: seq<HandedEntry>)
    requires Parses(crc, t, bound, channel, es)
    ensures OneOwner(channel, es) && |es| <= bound
    ensures forall i :: 0 <= i < |es| ==> EntryFits(es[i])
  {
    hide OneOwner, EntryFits, Unsealed, Split, HexU64;
    var parts := Split(Unsealed(crc, t).value, SEMICOLON);
    AcceptedEntriesFit(parts[1..], |parts[1..]|);
  }

  // ----------------------------------------------------------- round trip

  lemma {:induction false} SplitLast(a: Bytes, sep: Byte, b: Bytes)
    requires sep !in b
    ensures Split(a + [sep] + b, sep) == Split(a, sep) + [b]
    decreases |a|
  {
    hide Find, Split;
    var i := Find(a, sep);
    if i == |a| {
      assert a[..i] == a;
      SplitFirst(a, sep, b);
      SplitFirst(b, sep, []);
    } else {
      var head, rest := a[..i], a[i + 1..];
      assert a == head + [sep] + rest;
      SplitLast(rest, sep, b);
      SplitFirst(head, sep, rest + [sep] + b);
      SplitFirst(head, sep, rest);
      assert a + [sep] + b == head + [sep] + (rest + [sep] + b);
    }
  }

  ghost predicate AllFit(es: seq<HandedEntry>) {
    forall i :: 0 <= i < |es| ==> EntryFits(es[i])
  }

  /** The parts of an encoded body: the channel, then each entry's text. */
  function Texts(channel: U64, es: seq<HandedEntry>): (parts: seq<Bytes>)
    ensures |parts| == |es| + 1
  {
    if es == [] then [Hex(channel)] else Texts(channel, es[..|es| - 1]) + [EntryText(es[|es| - 1])]
  }

  lemma {:induction false} SplitBody(channel: U64, es: seq<HandedEntry>)
    requires AllFit(es)
    ensures Split(EnvBody(channel, es), SEMICOLON) == Texts(channel, es)
    ensures |EnvBody(channel, es)| <= U64_HEX_DIGITS + |es| * ENTRY_TEXT_CAP
  {
    hide Hex, EntryText, Split, HexText;
    if es == [] {
      HexRoundTrip(channel);
      HexIsPlain(Hex(channel));
      SplitFirst(Hex(channel), SEMICOLON, []);
    } else {
      var k := |es| - 1;
      SplitBody(channel, es[..k]);
      EntryRoundTrip(es[k]);
      SplitLast(EnvBody(channel, es[..k]), SEMICOLON, EntryText(es[k]));
      assert |es| * ENTRY_TEXT_CAP == k * ENTRY_TEXT_CAP + ENTRY_TEXT_CAP;
    }
  }

  lemma {:induction false} TextsParse(channel: U64, es: seq<HandedEntry>, n: nat)
    requires AllFit(es) && n <= |es|
    ensures Texts(channel, es)[0] == Hex(channel)
    ensures PartEntries(Texts(channel, es)[1..], n) == Some(es[..n])
    decreases |es|, n
  {
    hide EntryOf, EntryText, Hex;
    var parts := Texts(channel, es);
    if n > 0 {
      TextsParse(channel, es, n - 1);
      TextAt(channel, es, n - 1);
      EntryRoundTrip(es[n - 1]);
      assert parts[1..][n - 1] == parts[n];
      assert es[..n] == es[..n - 1] + [es[n - 1]];
    } else {
      FirstText(channel, es);
    }
  }

  lemma {:induction false} FirstText(channel: U64, es: seq<HandedEntry>)
    requires AllFit(es)
    ensures Texts(channel, es)[0] == Hex(channel)
  {
    if es != [] {
      FirstText(channel, es[..|es| - 1]);
    }
  }

  lemma {:induction false} TextAt(channel: U64, es: seq<HandedEntry>, i: nat)
    requires AllFit(es) && i < |es|
    ensures Texts(channel, es)[i + 1] == EntryText(es[i])
  {
    hide EntryText;
    if i < |es| - 1 {
      TextAt(channel, es[..|es| - 1], i);
    }
  }

  lemma {:induction false} FindLastHash(body: Bytes, tail: Bytes)
    requires HASH !in tail
    ensures FindLast(body + [HASH] + tail, HASH) == |body|
  {
    var t := body + [HASH] + tail;
    if tail != [] {
      var k := |tail| - 1;
      assert tail[k] in tail;
      assert t[..|t| - 1] == body + [HASH] + tail[..k];
      FindLastHash(body, tail[..k]);
    }
  }

  lemma {:induction false} UnsealSealed(crc: Checksum, body: Bytes)
    ensures Unsealed(crc, Sealed(crc, body)) == Some(body)
    ensures FindLast(Sealed(crc, body), HASH) == |body|
    ensures HexText(HexPadded(crc(body), CHECKSUM_HEX_DIGITS))
  {
    hide HexPadded, FindLast, Digits;
    Pow16Values();
    var tail := HexPadded(crc(body), CHECKSUM_HEX_DIGITS);
    DigitsOfPadded(crc(body), CHECKSUM_HEX_DIGITS);
    HexIsPlain(tail);
    FindLastHash(body, tail);
    var t := Sealed(crc, body);
    assert t[..|body|] == body && t[|body| + 1..] == tail;
    assert FromRadix(tail, U32_MAX) == Some(crc(body));
  }

  /** Every handoff within the caps and with one owner each is read back as it was, whatever the checksum. */
  lemma {:induction false} HandoffRoundTrip(crc: Checksum, bound: nat, channel: U64, es: seq<HandedEntry>)
    requires AllFit(es) && |es| <= bound && TextCap(bound) <= U64_MAX && OneOwner(channel, es)
    ensures Parses(crc, Sealed(crc, EnvBody(channel, es)), bound, channel, es)
  {
    hide Unsealed, Split, EnvBody, OneOwner, Hex, HexU64, HexPadded;
    UnsealSealed(crc, EnvBody(channel, es));
    SplitBody(channel, es);
    TextsParse(channel, es, |es|);
    HexRoundTrip(channel);
    assert es[..|es|] == es;
    CapHolds(|es|, bound);
  }

  lemma {:induction false} CapHolds(n: nat, bound: nat)
    requires n <= bound
    ensures n * ENTRY_TEXT_CAP <= bound * ENTRY_TEXT_CAP
  {
  }

  // ------------------------------------------------------------- spellings

  /** Lower-case digits without a needless leading zero. */
  predicate PlainNumber(f: Bytes) { f != [] && HexText(f) && (|f| == 1 || f[0] != 0x30) }

  predicate PlainEntry(part: Bytes) {
    var fields := Split(part, COLON);
    && |fields| == 4 && PlainNumber(fields[0]) && PlainNumber(fields[1])
    && AllPlain(Split(fields[2], COMMA))
    && (fields[3] == [MINUS] || HexText(fields[3]))
  }

  predicate AllPlain(parts: seq<Bytes>) { forall i :: 0 <= i < |parts| ==> PlainNumber(parts[i]) }

  /** Every number of the text, its checksum included, is spelled plainly. */
  predicate PlainText(t: Bytes) {
    var i := FindLast(t, HASH);
    && i < |t| && HexText(t[i + 1..])
    && var parts := Split(t[..i], SEMICOLON);
      PlainNumber(parts[0]) && forall k :: 1 <= k < |parts| ==> PlainEntry(parts[k])
  }

  lemma {:induction false} HexIsPlainNumber(v: nat, n: nat)
    requires n > 0 && v < Pow16(n)
    ensures PlainNumber(Hex(v)) && (v > 0 ==> Hex(v)[0] != 0x30)
    decreases n
  {
    HexFits(v, n);
    if v >= 16 {
      HexIsPlainNumber(v / 16, n - 1);
    }
  }

  lemma {:induction false} DigitOfValue(c: Byte)
    requires IsHexDigit(c)
    ensures DigitValue(c).Some? && DigitValue(c).value < 16 && Digit(DigitValue(c).value) == c
  {
  }

  /** A plain number is how its value is written. */
  lemma {:induction false} NumberUnique(f: Bytes)
    requires PlainNumber(f)
    ensures Digits(f).Some? && f == Hex(Digits(f).value) && (f[0] != 0x30 ==> Digits(f).value > 0)
  {
    var n := |f| - 1;
    DigitOfValue(f[n]);
    if n == 0 {
      assert f[..0] == [];
    } else {
      NumberUnique(f[..n]);
      assert f == f[..n] + [f[n]];
      var high, low := Digits(f[..n]).value, DigitValue(f[n]).value;
      assert (high * 16 + low) / 16 == high && (high * 16 + low) % 16 == low;
    }
  }

  lemma {:induction false} PaddedUnique(f: Bytes)
    requires HexText(f)
    ensures Digits(f).Some? && f == HexPadded(Digits(f).value, |f|)
  {
    if f != [] {
      var n := |f| - 1;
      DigitOfValue(f[n]);
      PaddedUnique(f[..n]);
      assert f == f[..n] + [f[n]];
      var high, low := Digits(f[..n]).value, DigitValue(f[n]).value;
      assert (high * 16 + low) / 16 == high && (high * 16 + low) % 16 == low;
    }
  }

  lemma {:induction false} PlainRadix(f: Bytes, max: nat)
    requires HexText(f) && f != [] && FromRadix(f, max).Some?
    ensures FromRadix(f, max) == Digits(f)
  {
    assert f[0] != PLUS;
  }

  lemma {:induction false} PairsUnique(t: Bytes)
    requires |t| % 2 == 0 && HexText(t) && FromPairs(t).Some?
    ensures t == Pairs(FromPairs(t).value)
  {
    hide FromRadix, Digits, HexPadded;
    if t != [] {
      var n := |t| - 2;
      PairsUnique(t[..n]);
      PlainRadix(t[n..], U8_MAX);
      PaddedUnique(t[n..]);
      assert t == t[..n] + t[n..];
      var front, b := FromPairs(t[..n]).value, FromRadix(t[n..], U8_MAX).value;
      assert (front + [b])[..|front|] == front;
    }
  }

  function JoinBy(parts: seq<Bytes>, sep: Byte): Bytes
    requires parts != []
  {
    if |parts| == 1 then parts[0] else parts[0] + [sep] + JoinBy(parts[1..], sep)
  }

  lemma {:induction false} Rejoin(t: Bytes, sep: Byte)
    ensures JoinBy(Split(t, sep), sep) == t
    decreases |t|
  {
    hide Find;
    var i := Find(t, sep);
    if i < |t| {
      Rejoin(t[i + 1..], sep);
      assert Split(t, sep)[1..] == Split(t[i + 1..], sep);
      assert t == t[..i] + [sep] + t[i + 1..];
    }
  }

  lemma {:induction false} JoinSnoc(parts: seq<Bytes>, sep: Byte, x: Bytes)
    requires parts != []
    ensures JoinBy(parts + [x], sep) == JoinBy(parts, sep) + [sep] + x
  {
    if |parts| > 1 {
      JoinSnoc(parts[1..], sep, x);
      assert (parts + [x])[1..] == parts[1..] + [x];
    } else {
      assert (parts + [x])[1..] == [x];
    }
  }

  lemma {:induction false} HandlesUnique(parts: seq<Bytes>, room: nat)
    requires parts != [] && AllPlain(parts) && HandlesOf(parts, room).Some?
    ensures HandlesOf(parts, room).value != [] && JoinBy(parts, COMMA) == Joined(HandlesOf(parts, room).value)
  {
    hide Hex, Digits, FromRadix;
    PlainRadix(parts[0], U64_MAX);
    NumberUnique(parts[0]);
    if |parts| > 1 {
      HandlesUnique(parts[1..], room - 1);
      var values := HandlesOf(parts, room).value;
      assert values[1..] == HandlesOf(parts[1..], room - 1).value;
    }
  }

  /** A part spelled plainly is how its entry is written. */
  lemma {:induction false} EntryUnique(part: Bytes)
    requires EntryOf(part).Some? && PlainEntry(part)
    ensures EntryOf(part).value.values != [] && part == EntryText(EntryOf(part).value)
  {
    hide Hex, Digits, FromRadix, Split, HandlesOf, Joined, FromPairs, Pairs, HexText;
    var fields := Split(part, COLON);
    var e := EntryOf(part).value;
    PlainRadix(fields[0], U64_MAX);
    NumberUnique(fields[0]);
    PlainRadix(fields[1], U8_MAX);
    NumberUnique(fields[1]);
    HandlesUnique(Split(fields[2], COMMA), MAX_HANDLES);
    Rejoin(fields[2], COMMA);
    assert fields[3] == RecordText(e.record) by {
      if fields[3] != [MINUS] {
        PairsUnique(fields[3]);
        PairsFit(fields[3]);
      }
    }
    Rejoin(part, COLON);
    FourJoined(fields);
  }

  lemma {:induction false} FourJoined(f: seq<Bytes>)
    requires |f| == 4
    ensures JoinBy(f, COLON) == f[0] + [COLON] + (f[1] + [COLON] + (f[2] + [COLON] + f[3]))
  {
    assert f[1..][1..] == f[2..] && f[2..][1..] == f[3..];
    assert JoinBy(f[3..], COLON) == f[3];
    assert JoinBy(f[2..], COLON) == f[2] + [COLON] + f[3];
    assert JoinBy(f[1..], COLON) == f[1] + [COLON] + (f[2] + [COLON] + f[3]);
  }

  lemma {:induction false} BodyUnique(channel: U64, parts: seq<Bytes>, n: nat)
    requires 1 <= n <= |parts| && parts[0] == Hex(channel) && PartEntries(parts[1..], n - 1).Some?
    requires forall k :: 1 <= k < n ==> PlainEntry(parts[k])
    ensures AllFit(PartEntries(parts[1..], n - 1).value)
    ensures JoinBy(parts[..n], SEMICOLON) == EnvBody(channel, PartEntries(parts[1..], n - 1).value)
  {
    hide Hex, EntryOf, EntryText, PlainEntry;
    AcceptedEntriesFit(parts[1..], n - 1);
    if n > 1 {
      BodyUnique(channel, parts, n - 1);
      assert parts[1..][n - 2] == parts[n - 1];
      EntryUnique(parts[n - 1]);
      assert parts[..n] == parts[..n - 1] + [parts[n - 1]];
      JoinSnoc(parts[..n - 1], SEMICOLON, parts[n - 1]);
      var front, e := PartEntries(parts[1..], n - 2).value, EntryOf(parts[n - 1]).value;
      assert (front + [e])[..|front|] == front;
    }
  }

  /** A plain spelling is what `encode_env` writes. */
  lemma {:induction false} PlainIsWritten(crc: Checksum, t: Bytes, bound: nat, channel: U64, es: seq<HandedEntry>)
    requires Parses(crc, t, bound, channel, es) && PlainText(t)
    ensures AllFit(es) && t == Sealed(crc, EnvBody(channel, es))
  {
    hide FromRadix, Digits, Split, PartEntries, EnvBody, Hex, HexPadded, OneOwner, PlainEntry, HexText;
    var i := FindLast(t, HASH);
    var parts := Split(t[..i], SEMICOLON);
    PlainRadix(parts[0], U64_MAX);
    NumberUnique(parts[0]);
    BodyUnique(channel, parts, |parts|);
    assert parts[..|parts|] == parts;
    Rejoin(t[..i], SEMICOLON);
    PlainRadix(t[i + 1..], U32_MAX);
    PaddedUnique(t[i + 1..]);
    assert t == t[..i] + [HASH] + t[i + 1..];
  }

  lemma {:induction false} JoinedPlain(values: seq<U64>)
    requires values != []
    ensures AllPlain(Split(Joined(values), COMMA))
  {
    hide Hex, Split, HexText;
    Pow16Values();
    HexIsPlainNumber(values[0], 16);
    HexRoundTrip(values[0]);
    HexIsPlain(Hex(values[0]));
    if |values| == 1 {
      SplitFirst(Hex(values[0]), COMMA, []);
    } else {
      JoinedPlain(values[1..]);
      SplitFirst(Hex(values[0]), COMMA, Joined(values[1..]));
    }
  }

  lemma {:induction false} EntryTextPlain(e: HandedEntry)
    requires EntryFits(e)
    ensures PlainEntry(EntryText(e))
  {
    hide Hex, Split, Joined, Pairs, HexText, Plain, AllPlain;
    Pow16Values();
    HexRoundTrip(e.id);
    HexIsPlain(Hex(e.id));
    HexIsPlainNumber(e.id, 16);
    HexByteRoundTrip(e.what);
    HexIsPlain(Hex(e.what));
    HexIsPlainNumber(e.what, 2);
    JoinedRoundTrip(e.values, MAX_HANDLES);
    JoinedPlain(e.values);
    RecordRoundTrip(e.record);
    PairsRoundTrip(e.record);
    FourFields(Hex(e.id), Hex(e.what), Joined(e.values), RecordText(e.record));
  }

  /** What `encode_env` writes is spelled plainly. */
  lemma {:induction false} WrittenIsPlain(crc: Checksum, channel: U64, es: seq<HandedEntry>)
    requires AllFit(es)
    ensures PlainText(Sealed(crc, EnvBody(channel, es)))
  {
    hide Hex, Split, EnvBody, EntryText, HexText, HexPadded, PlainEntry, FindLast;
    var body := EnvBody(channel, es);
    var t := Sealed(crc, body);
    UnsealSealed(crc, body);
    assert t[..|body|] == body && t[|body| + 1..] == HexPadded(crc(body), CHECKSUM_HEX_DIGITS);
    SplitBody(channel, es);
    FirstText(channel, es);
    Pow16Values();
    HexIsPlainNumber(channel, 16);
    var parts := Texts(channel, es);
    forall k | 1 <= k < |parts| ensures PlainEntry(parts[k]) {
      TextAt(channel, es, k - 1);
      EntryTextPlain(es[k - 1]);
    }
  }

  /** Of the texts accepted as a handoff, the plainly spelled one is exactly the one `encode_env` writes. */
  lemma {:induction false} WrittenIffPlain(crc: Checksum, t: Bytes, bound: nat, channel: U64, es: seq<HandedEntry>)
    requires Parses(crc, t, bound, channel, es)
    ensures AllFit(es) && (PlainText(t) <==> t == Sealed(crc, EnvBody(channel, es)))
  {
    hide Parses, PlainText, EnvBody;
    AcceptedHasOneOwner(crc, t, bound, channel, es);
    if PlainText(t) {
      PlainIsWritten(crc, t, bound, channel, es);
    }
    WrittenIsPlain(crc, channel, es);
  }

  const PLUS_ONE: Bytes := [PLUS, 0x31]

  /** A sign is accepted too: `+1` reads as the channel 1, though `encode_env` writes `1`. */
  lemma {:induction false} SignedSpellingIsAccepted(crc: Checksum)
    ensures Parses(crc, Sealed(crc, PLUS_ONE), 0, 1, [])
    ensures Sealed(crc, PLUS_ONE) != Sealed(crc, EnvBody(1, []))
  {
    hide HexPadded;
    UnsealSealed(crc, PLUS_ONE);
    SplitFirst(PLUS_ONE, SEMICOLON, []);
    assert PLUS_ONE[1..] == [0x31] && [0x31][..0] == [];
    assert Digits([0x31]) == Some(1);
    assert HexU64(PLUS_ONE) == Some(1);
    assert [PLUS_ONE][1..] == [];
    NothingOwned();
    assert Sealed(crc, PLUS_ONE)[0] == PLUS;
  }

  lemma {:induction false} NothingOwned()
    ensures OneOwner(1, [])
  {
  }

  // --------------------------------------------------------- what a number is

  /** Upper case as lower. */
  function Lowered(t: Bytes): (l: Bytes)
    ensures |l| == |t|
  {
    if t == [] then [] else
    var c := t[|t| - 1];
    Lowered(t[..|t| - 1]) + [if 0x41 <= c <= 0x5A then c + 0x20 else c]
  }

  /** Digits of either case whose value by place is `v`. */
  ghost predicate Spells(t: Bytes, v: nat) { t != [] && v < Pow16(|t|) && Lowered(t) == HexPadded(v, |t|) }

  lemma {:induction false} DigitValueIs(c: Byte, d: nat)
    requires d < 16
    ensures DigitValue(c) == Some(d) <==> (if 0x41 <= c <= 0x5A then c + 0x20 else c) == Digit(d)
    ensures DigitValue(c).Some? ==> DigitValue(c).value < 16
  {
  }

  lemma {:induction false} DigitsIff(t: Bytes, v: nat)
    ensures Digits(t) == Some(v) <==> v < Pow16(|t|) && Lowered(t) == HexPadded(v, |t|)
  {
    hide DigitValue, Digit;
    if t != [] {
      var n := |t| - 1;
      DigitsIff(t[..n], v / 16);
      DigitValueIs(t[n], v % 16);
      assert Lowered(t)[..n] == Lowered(t[..n]) && HexPadded(v, n + 1)[..n] == HexPadded(v / 16, n);
    }
  }

  /** A number is its digits, after a plus sign or not, within the greatest value. */
  lemma {:induction false} RadixIff(t: Bytes, max: nat, v: nat)
    ensures FromRadix(t, max) == Some(v) <==>
      v <= max && (Spells(t, v) || (t != [] && t[0] == PLUS && Spells(t[1..], v)))
  {
    hide Digits, HexPadded, Lowered;
    DigitsIff(t, v);
    if t != [] && t[0] == PLUS {
      DigitsIff(t[1..], v);
      SignIsNoDigit(t);
    }
  }

  lemma {:induction false} SignIsNoDigit(t: Bytes)
    requires t != [] && t[0] == PLUS
    ensures Digits(t).None?
  {
    if |t| > 1 {
      SignIsNoDigit(t[..|t| - 1]);
    }
  }

  /** A 64-bit number is one of at most sixteen characters. */
  lemma {:induction false} HexU64Iff(t: Bytes, v: U64)
    ensures HexU64(t) == Some(v) <==>
      |t| <= 16 && (Spells(t, v) || (t != [] && t[0] == PLUS && Spells(t[1..], v)))
  {
    hide FromRadix, Lowered, HexPadded;
    RadixIff(t, U64_MAX, v);
  }
}
