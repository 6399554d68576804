// What a canonical manifest is, said without the reader's own tests: names as
// Unicode text, extents laid end to end, names in byte order. The reader
// (crates/archive/src/manifest.rs) accepts exactly the encodings of such trees.

module CanonicalForm {
  import opened Wire
  import opened Sorting
  import opened Manifest

  // --------------------------------------------------------------------- text

  /** A Unicode scalar value: a code point that is not a surrogate. */
  predicate Scalar(c: int) { 0 <= c < 0xD800 || 0xE000 <= c <= 0x10FFFF }

  predicate AllScalars(cs: seq<int>) { forall i :: 0 <= i < |cs| ==> Scalar(cs[i]) }

  function Low(c: nat): Byte { 0x80 + c % 0x40 }

  /** The UTF-8 form of a scalar value (section 3 of RFC 3629), by arithmetic on its code point. */
  function EncodeScalar(c: int): (b: Bytes)
    requires Scalar(c)
    ensures 1 <= |b| <= 4
  {
    if c < 0x80 then [c]
    else if c < 0x800 then [0xC0 + c / 0x40, Low(c)]
    else if c < 0x1_0000 then [0xE0 + c / 0x40 / 0x40, Low(c / 0x40), Low(c)]
    else [0xF0 + c / 0x40 / 0x40 / 0x40, Low(c / 0x40 / 0x40), Low(c / 0x40), Low(c)]
  }

  function EncodeScalars(cs: seq<int>): Bytes
    requires AllScalars(cs)
  {
    if cs == [] then [] else EncodeScalar(cs[0]) + EncodeScalars(cs[1..])
  }

  lemma {:induction false} HeadIsScalar(c: int, rest: Bytes)
    requires Scalar(c)
    ensures ScalarLength(EncodeScalar(c) + rest) == |EncodeScalar(c)|
  {
  }

  /** Six more bits. */
  function Shifted(c: int, b: int): int { c * 0x40 + (b - 0x80) }

  lemma {:induction false} ShiftedBack(c: nat, b: Byte)
    requires 0x80 <= b <= 0xBF
    ensures Shifted(c, b) / 0x40 == c && Low(Shifted(c, b)) == b
  {
  }

  /** The code point whose form the bytes are. */
  function CodePoint(b: seq<int>): int
    requires 1 <= |b| <= 4
  {
    if |b| == 1 then b[0]
    else if |b| == 2 then Shifted(b[0] - 0xC0, b[1])
    else if |b| == 3 then Shifted(Shifted(b[0] - 0xE0, b[1]), b[2])
    else Shifted(Shifted(Shifted(b[0] - 0xF0, b[1]), b[2]), b[3])
  }

  lemma {:induction false} CodePointOf(c: int)
    requires Scalar(c)
    ensures CodePoint(EncodeScalar(c)) == c
  {
    hide Shifted;
    ShiftedLow(c);
    ShiftedLow(c / 0x40);
    ShiftedLow(c / 0x40 / 0x40);
  }

  lemma {:induction false} ShiftedLow(c: nat)
    ensures Shifted(c / 0x40, Low(c)) == c
  {
  }

  lemma {:induction false} ScalarOfHead(b: Bytes) returns (c: int)
    requires ScalarLength(b) > 0
    ensures Scalar(c) && b[..ScalarLength(b)] == EncodeScalar(c)
  {
    var n := ScalarLength(b);
    c := CodePoint(b[..n]);
    if n == 2 {
      TwoBytes(b[0], b[1]);
    } else if n == 3 {
      ThreeBytes(b[0], b[1], b[2]);
    } else if n == 4 {
      FourBytes(b[0], b[1], b[2], b[3]);
    }
  }

  lemma {:induction false} TwoBytes(a: Byte, b: Byte)
    requires 0xC2 <= a <= 0xDF && 0x80 <= b <= 0xBF
    ensures var c := CodePoint([a, b]); 0x80 <= c < 0x800 && EncodeScalar(c) == [a, b]
  {
    ShiftedBack(a - 0xC0, b);
  }

  lemma {:induction false} ThreeBytes(a: Byte, b: Byte, d: Byte)
    requires 0xE0 <= a <= 0xEF && 0x80 <= b <= 0xBF && 0x80 <= d <= 0xBF
    requires (a == 0xE0 ==> b >= 0xA0) && (a == 0xED ==> b <= 0x9F)
    ensures var c := CodePoint([a, b, d]); 0x800 <= c < 0x1_0000 && Scalar(c) && EncodeScalar(c) == [a, b, d]
  {
    hide Shifted, Low;
    var x := a - 0xE0;
    ShiftedRange(x, b);
    ShiftedRange(Shifted(x, b), d);
    ShiftedBack(x, b);
    ShiftedBack(Shifted(x, b), d);
  }

  lemma {:induction false} ShiftedRange(c: nat, b: Byte)
    requires 0x80 <= b <= 0xBF
    ensures c * 0x40 <= Shifted(c, b) == c * 0x40 + b - 0x80 < (c + 1) * 0x40
  {
  }

  lemma {:induction false} FourBytes(a: Byte, b: Byte, d: Byte, e: Byte)
    requires 0xF0 <= a <= 0xF4 && 0x80 <= b <= 0xBF && 0x80 <= d <= 0xBF && 0x80 <= e <= 0xBF
    requires (a == 0xF0 ==> b >= 0x90) && (a == 0xF4 ==> b <= 0x8F)
    ensures var c := CodePoint([a, b, d, e]); 0x1_0000 <= c <= 0x10FFFF && EncodeScalar(c) == [a, b, d, e]
  {
    hide Shifted, Low;
    var x := a - 0xF0;
    ShiftedRange(x, b);
    ShiftedRange(Shifted(x, b), d);
    ShiftedRange(Shifted(Shifted(x, b), d), e);
    ShiftedBack(x, b);
    ShiftedBack(Shifted(x, b), d);
    ShiftedBack(Shifted(Shifted(x, b), d), e);
  }

  ghost predicate IsText(b: Bytes, cs: seq<int>) { AllScalars(cs) && b == EncodeScalars(cs) }

  /** `from_utf8` accepts exactly the encodings of scalar values. */
  lemma {:induction false} Utf8IffText(b: Bytes)
    ensures Utf8(b) <==> exists cs :: IsText(b, cs)
  {
    if Utf8(b) {
      var cs := TextOf(b);
    }
    if cs :| IsText(b, cs) {
      TextIsUtf8(cs);
    }
  }

  lemma {:induction false} TextOf(b: Bytes) returns (cs: seq<int>)
    requires Utf8(b)
    ensures IsText(b, cs)
    decreases |b|
  {
    hide ScalarLength, EncodeScalar;
    if b == [] {
      cs := [];
    } else {
      var n := ScalarLength(b);
      var c := ScalarOfHead(b);
      var rest := TextOf(b[n..]);
      cs := [c] + rest;
      assert cs[1..] == rest && b == b[..n] + b[n..];
    }
  }

  lemma {:induction false} TextIsUtf8(cs: seq<int>)
    requires AllScalars(cs)
    ensures Utf8(EncodeScalars(cs))
  {
    hide ScalarLength, EncodeScalar;
    if cs != [] {
      var head, rest := EncodeScalar(cs[0]), EncodeScalars(cs[1..]);
      TextIsUtf8(cs[1..]);
      HeadIsScalar(cs[0], rest);
      assert (head + rest)[|head|..] == rest;
    }
  }

  /** Text has one encoding, and bytes are the encoding of one text. */
  lemma {:induction false} TextOnce(cs: seq<int>, ds: seq<int>)
    requires AllScalars(cs) && AllScalars(ds) && EncodeScalars(cs) == EncodeScalars(ds)
    ensures cs == ds
  {
    hide ScalarLength, EncodeScalar;
    if cs != [] && ds != [] {
      var b := EncodeScalars(cs);
      HeadIsScalar(cs[0], EncodeScalars(cs[1..]));
      HeadIsScalar(ds[0], EncodeScalars(ds[1..]));
      var n := |EncodeScalar(cs[0])|;
      assert b[..n] == EncodeScalar(cs[0]) == EncodeScalar(ds[0]);
      assert b[n..] == EncodeScalars(cs[1..]) == EncodeScalars(ds[1..]);
      CodePointOf(cs[0]);
      CodePointOf(ds[0]);
      TextOnce(cs[1..], ds[1..]);
      assert cs == [cs[0]] + cs[1..] && ds == [ds[0]] + ds[1..];
    }
  }

  // -------------------------------------------------------------------- names

  /** A name is text of at most 255 bytes: some character, no separator or NUL, and not a dot or two. */
  ghost predicate NameText(name: Bytes, cs: seq<int>) {
    && IsText(name, cs) && cs != [] && |name| <= 255
    && '/' as int !in cs && '\\' as int !in cs && 0 !in cs
    && cs != ['.' as int] && cs != ['.' as int, '.' as int]
  }

  lemma {:induction false} AsciiOfScalar(c: int, a: Byte)
    requires Scalar(c) && a < 0x80
    ensures a in EncodeScalar(c) <==> a == c
  {
  }

  /** An ASCII byte stands only for its own character. */
  lemma {:induction false} AsciiOfText(cs: seq<int>, a: Byte)
    requires AllScalars(cs) && a < 0x80
    ensures a in EncodeScalars(cs) <==> a in cs
  {
    hide EncodeScalar;
    if cs != [] {
      AsciiOfText(cs[1..], a);
      AsciiOfScalar(cs[0], a);
      assert cs == [cs[0]] + cs[1..];
    }
  }

  lemma {:induction false} Dots()
    ensures EncodeScalars([]) == [] && EncodeScalars([0x2E]) == [DOT] && EncodeScalars([0x2E, 0x2E]) == [DOT, DOT]
  {
    assert [0x2E, 0x2E][1..] == [0x2E] && [0x2E][1..] == [];
    assert EncodeScalars([]) == [];
    assert EncodeScalars([0x2E]) == EncodeScalar(0x2E) + EncodeScalars([0x2E][1..]);
    assert EncodeScalars([0x2E, 0x2E]) == EncodeScalar(0x2E) + EncodeScalars([0x2E, 0x2E][1..]);
  }

  lemma {:induction false} ComponentOfText(name: Bytes, cs: seq<int>)
    requires IsText(name, cs)
    ensures ValidComponent(name) <==> NameText(name, cs)
  {
    AsciiOfText(cs, SLASH);
    AsciiOfText(cs, BACKSLASH);
    AsciiOfText(cs, 0);
    Dots();
    if name == [] {
      TextOnce(cs, []);
    }
    if name == [DOT] {
      TextOnce(cs, [0x2E]);
    }
    if name == [DOT, DOT] {
      TextOnce(cs, [0x2E, 0x2E]);
    }
  }

  ghost predicate IsName(name: Bytes) { exists cs :: NameText(name, cs) }

  /** The names the reader accepts are exactly such texts. */
  lemma {:induction false} NameIff(name: Bytes)
    ensures Utf8(name) && ValidComponent(name) <==> IsName(name)
  {
    hide ValidComponent, Utf8, EncodeScalars;
    Utf8IffText(name);
    if Utf8(name) && ValidComponent(name) {
      var cs :| IsText(name, cs);
      ComponentOfText(name, cs);
    }
    if cs :| NameText(name, cs) {
      ComponentOfText(name, cs);
    }
  }

  // ------------------------------------------------------------------ extents

  /** Where the last extent ends. */
  function LastEnd(es: seq<Extent>): nat {
    if es == [] then 0 else es[|es| - 1].offset + es[|es| - 1].len
  }

  predicate Follows(a: Extent, b: Extent) { b.offset == a.offset + a.len }

  predicate ZeroIdentity(h: Hash) { forall k :: 0 <= k < 32 ==> h[k] == 0 }

  /** From offset zero, each starting where the one before ends; none empty, and a hole names no place in a chunk. */
  ghost predicate EndToEnd(es: seq<Extent>) {
    && (es != [] ==> es[0].offset == 0)
    && (forall i, j :: 0 <= i && j == i + 1 < |es| ==> Follows(es[i], es[j]))
    && (forall i :: 0 <= i < |es| ==> es[i].len > 0 && (ZeroIdentity(es[i].chunk) ==> es[i].chunkOffset == 0))
    && LastEnd(es) <= 0xFFFF_FFFF_FFFF_FFFF
  }

  lemma {:induction false} ZeroIsHole(h: Hash)
    ensures h == HOLE <==> ZeroIdentity(h)
  {
  }

  /** Each extent's offset is where the ones before end, in either form. */
  lemma {:induction false} EndIsLastEnd(es: seq<Extent>, i: nat)
    requires i <= |es|
    requires EndToEnd(es) || Tiles(es)
    ensures End(es[..i]) == LastEnd(es[..i])
  {
    if i > 0 {
      EndIsLastEnd(es, i - 1);
      assert es[..i][..i - 1] == es[..i - 1];
      if Tiles(es) {
        assert ExtentTiles(es, i - 1);
      } else if i > 1 {
        assert Follows(es[i - 2], es[i - 1]);
      }
    }
  }

  lemma {:induction false} TilesIff(es: seq<Extent>)
    ensures Tiles(es) <==> EndToEnd(es)
    ensures Tiles(es) ==> End(es) == LastEnd(es)
  {
    assert es[..|es|] == es;
    forall i | 0 <= i < |es| ensures es[i].chunk == HOLE <==> ZeroIdentity(es[i].chunk) {
      ZeroIsHole(es[i].chunk);
    }
    if Tiles(es) {
      TiledIsEndToEnd(es);
    }
    if EndToEnd(es) {
      EndToEndTiles(es);
    }
  }

  lemma {:induction false} TiledIsEndToEnd(es: seq<Extent>)
    requires Tiles(es)
    requires forall i :: 0 <= i < |es| ==> (es[i].chunk == HOLE <==> ZeroIdentity(es[i].chunk))
    ensures EndToEnd(es) && End(es) == LastEnd(es)
  {
    assert es[..|es|] == es;
    EndIsLastEnd(es, |es|);
    forall i | 0 <= i < |es| ensures es[i].len > 0 && (ZeroIdentity(es[i].chunk) ==> es[i].chunkOffset == 0) {
      assert ExtentTiles(es, i);
    }
    forall i, j | 0 <= i && j == i + 1 < |es| ensures Follows(es[i], es[j]) {
      EndIsLastEnd(es, j);
      assert ExtentTiles(es, j);
    }
    if es != [] {
      assert ExtentTiles(es, 0) && es[..0] == [];
    }
  }

  lemma {:induction false} EndToEndTiles(es: seq<Extent>)
    requires EndToEnd(es)
    requires forall i :: 0 <= i < |es| ==> (es[i].chunk == HOLE <==> ZeroIdentity(es[i].chunk))
    ensures Tiles(es)
  {
    assert es[..|es|] == es;
    EndIsLastEnd(es, |es|);
    forall i | 0 <= i < |es| ensures ExtentTiles(es, i) {
      EndIsLastEnd(es, i);
      if i > 0 {
        assert Follows(es[i - 1], es[i]);
      } else {
        assert es[..0] == [];
      }
    }
  }

  // -------------------------------------------------------------------- trees

  /** Strictly ascending by bytes: wherever two first differ, the earlier has the smaller byte or ends. */
  ghost predicate InByteOrder(names: seq<Bytes>) {
    forall i, j :: 0 <= i < j < |names| ==> ByteOrder(names[i], names[j])
  }

  ghost predicate ByteOrder(a: Bytes, b: Bytes) { exists k: nat :: DiffersAt(a, b, k) }

  function Keys<T>(s: seq<T>, key: T -> Bytes): (ks: seq<Bytes>)
    ensures |ks| == |s| && forall i :: 0 <= i < |s| ==> ks[i] == key(s[i])
  {
    if s == [] then [] else [key(s[0])] + Keys(s[1..], key)
  }

  lemma {:induction false} IncreasingIff<T>(s: seq<T>, key: T -> Bytes)
    ensures Increasing(s, key) <==> InByteOrder(Keys(s, key))
  {
    hide Less, DiffersAt;
    forall i, j | 0 <= i < j < |s| ensures Less(key(s[i]), key(s[j])) <==> ByteOrder(key(s[i]), key(s[j])) {
      LessIff(key(s[i]), key(s[j]));
    }
    if Increasing(s, key) {
      forall i, j | 0 <= i < j < |s| ensures ByteOrder(Keys(s, key)[i], Keys(s, key)[j]) {
        IncreasingBetween(s, key, i, j);
      }
    }
    if InByteOrder(Keys(s, key)) {
      forall i | 0 <= i < |s| - 1 ensures Less(key(s[i]), key(s[i + 1])) {
        assert Keys(s, key)[i] == key(s[i]) && Keys(s, key)[i + 1] == key(s[i + 1]);
      }
    }
  }

  ghost predicate AttributeDescribed(x: Xattr) {
    1 <= |x.name| <= 255 && 0 !in x.name && |x.extents| <= 0xFFFF_FFFF_FFFF_FFFF && EndToEnd(x.extents)
  }

  ghost predicate MetaDescribed(m: NodeMeta) {
    && |m.xattrs| <= 0xFFFF_FFFF && InByteOrder(Keys(m.xattrs, XattrName))
    && forall i :: 0 <= i < |m.xattrs| ==> AttributeDescribed(m.xattrs[i])
  }

  /** What the format documents of a tree whose root is `above` components down: at most 2048 of them to any name. */
  ghost predicate Described(n: Node, above: nat)
    decreases n
  {
    if n.File? then |n.extents| <= 0xFFFF_FFFF_FFFF_FFFF && EndToEnd(n.extents) else
    && |n.entries| <= 0xFFFF_FFFF_FFFF_FFFF && InByteOrder(Keys(n.entries, EntryName))
    && (n.entries != [] ==> above + 1 <= 2048)
    && forall i :: 0 <= i < |n.entries| ==>
      && IsName(n.entries[i].name) && MetaDescribed(n.entries[i].meta) && Described(n.entries[i].node, above + 1)
      && (n.entries[i].node.File? ==> LastEnd(n.entries[i].node.extents) == n.entries[i].meta.size)
  }

  lemma {:induction false} MetaIff(m: NodeMeta)
    ensures MetaCanonical(m) <==> MetaDescribed(m)
  {
    hide Tiles, EndToEnd, Increasing, InByteOrder;
    IncreasingIff(m.xattrs, XattrName);
    forall i | 0 <= i < |m.xattrs| ensures XattrCanonical(m.xattrs[i]) <==> AttributeDescribed(m.xattrs[i]) {
      TilesIff(m.xattrs[i].extents);
    }
  }

  lemma {:induction false} CanonicalIff(n: Node, open: nat)
    ensures NodeCanonical(n, open) <==> Described(n, open)
    decreases n
  {
    hide Tiles, EndToEnd, Increasing, InByteOrder, MetaCanonical, MetaDescribed, IsName, ValidComponent, Utf8;
    if n.File? {
      TilesIff(n.extents);
    } else {
      IncreasingIff(n.entries, EntryName);
      forall i | 0 <= i < |n.entries|
        ensures EntryCanonical(n.entries[i], open + 1) <==> EntryDescribed(n.entries[i], open + 1)
      {
        EntryIff(n.entries[i], open + 1);
      }
    }
  }

  ghost predicate EntryDescribed(e: Entry, above: nat) {
    && IsName(e.name) && MetaDescribed(e.meta) && Described(e.node, above)
    && (e.node.File? ==> LastEnd(e.node.extents) == e.meta.size)
  }

  lemma {:induction false} EntryIff(e: Entry, open: nat)
    ensures EntryCanonical(e, open) <==> EntryDescribed(e, open)
    decreases e
  {
    hide Tiles, EndToEnd, Increasing, InByteOrder, MetaCanonical, MetaDescribed, IsName, ValidComponent, Utf8;
    NameIff(e.name);
    MetaIff(e.meta);
    CanonicalIff(e.node, open);
    if e.node.File? {
      TilesIff(e.node.extents);
    }
  }

  /**
   * `Node::decode` accepts exactly the encodings of the trees the format describes, each as itself: nothing else is
   * accepted, and no such tree is refused.
   */
  lemma {:induction false} DecodeIffDescribed(b: Bytes, n: Node)
    ensures Decoded(b) == Ok(n) <==> Described(n, 0) && b == Encode(n)
  {
    hide Decoded, Described, Encode, NodeCanonical;
    DecodeIffCanonicalEncoding(b, n);
    CanonicalIff(n, 0);
  }
}
