// The manifest tree and its canonical encoding (crates/archive/src/manifest.rs):
// the recursive writer, the grammar of what a reader accepts as a recursive
// descent, and the proof that the two are inverse on canonical trees.

module Manifest {
  import opened Wire
  import opened Sorting

  const KIND_DIRECTORY: Byte := 0
  const KIND_FILE: Byte := 1
  const PATH_MAX_BYTES := 4096
  const MAX_DEPTH := PATH_MAX_BYTES / 2
  const NAME_MAX_BYTES := 255
  const XATTR_NAME_MAX_BYTES := 255
  const EXTENT_BYTES := 8 + 8 + 32 + 8
  const META_BYTES := 8 + 4 + 8 + 8 + 8 + 8 + 8 + 4 + 4 + 4 + 4
  const MIN_XATTR_BYTES := 4 + 1 + 8
  const MIN_ENTRY_BYTES := 4 + META_BYTES + 1 + 8

  /** `len` bytes at `offset` of a file come from `chunk` at `chunkOffset`; a hole names the zero chunk. */
  datatype Extent = Extent(offset: U64, len: U64, chunk: Hash, chunkOffset: U64)

  datatype Xattr = Xattr(name: Bytes, extents: seq<Extent>)

  datatype NodeMeta = NodeMeta(
    ino: U64, mode: U32, atime: I64, mtime: I64, ctime: I64, btime: I64,
    size: U64, nlink: U32, uid: U32, gid: U32, xattrs: seq<Xattr>)

  datatype Entry = Entry(name: Bytes, meta: NodeMeta, node: Node)

  datatype Node = Directory(entries: seq<Entry>) | File(extents: seq<Extent>)

  function EntryName(e: Entry): Bytes { e.name }

  function XattrName(x: Xattr): Bytes { x.name }

  // ------------------------------------------------------------------- names

  predicate Within(x: int, lo: int, hi: int) { lo <= x <= hi }

  /** The length of the UTF-8 scalar at the head of `b` (Unicode 15, table 3-7), or zero. */
  function ScalarLength(b: Bytes): (n: nat)
    ensures n <= |b|
  {
    if b == [] then 0
    else if b[0] < 0x80 then 1
    else if |b| >= 2 && Within(b[0], 0xC2, 0xDF) && Within(b[1], 0x80, 0xBF) then 2
    else if |b| >= 3 && Within(b[2], 0x80, 0xBF)
      && ((b[0] == 0xE0 && Within(b[1], 0xA0, 0xBF))
        || (Within(b[0], 0xE1, 0xEC) && Within(b[1], 0x80, 0xBF))
        || (b[0] == 0xED && Within(b[1], 0x80, 0x9F))
        || (Within(b[0], 0xEE, 0xEF) && Within(b[1], 0x80, 0xBF))) then 3
    else if |b| >= 4 && Within(b[2], 0x80, 0xBF) && Within(b[3], 0x80, 0xBF)
      && ((b[0] == 0xF0 && Within(b[1], 0x90, 0xBF))
        || (Within(b[0], 0xF1, 0xF3) && Within(b[1], 0x80, 0xBF))
        || (b[0] == 0xF4 && Within(b[1], 0x80, 0x8F))) then 4
    else 0
  }

  predicate Utf8(b: Bytes)
    decreases |b|
  {
    b == [] || (var n := ScalarLength(b); n > 0 && Utf8(b[n..]))
  }

  const DOT: Byte := 0x2E
  const SLASH: Byte := 0x2F
  const BACKSLASH: Byte := 0x5C

  /** One valid path component. */
  predicate ValidComponent(name: Bytes) {
    && name != []
    && |name| <= NAME_MAX_BYTES
    && name != [DOT]
    && name != [DOT, DOT]
    && SLASH !in name && BACKSLASH !in name && 0 !in name
  }

  // ----------------------------------------------------------------- extents

  /** Where the extents' lengths end when laid one after the other. */
  function End(es: seq<Extent>): nat {
    if es == [] then 0 else End(es[..|es| - 1]) + es[|es| - 1].len
  }

  predicate ExtentTiles(es: seq<Extent>, i: nat)
    requires i < |es|
  {
    && es[i].offset == End(es[..i])
    && es[i].len > 0
    && (es[i].chunk == HOLE ==> es[i].chunkOffset == 0)
  }

  /** The extents tile a body from offset zero, with no gap, overlap or empty extent. */
  predicate Tiles(es: seq<Extent>) {
    (forall i :: 0 <= i < |es| ==> ExtentTiles(es, i)) && End(es) <= U64_MAX
  }

  function TiledLength(es: seq<Extent>): Result<U64> {
    if Tiles(es) then Ok(End(es)) else Err(BadExtents)
  }

  lemma {:induction false} EndMonotone(es: seq<Extent>, i: nat)
    requires i <= |es|
    ensures End(es[..i]) <= End(es)
    decreases |es|
  {
    if i < |es| {
      EndMonotone(es[..|es| - 1], i);
      assert es[..|es| - 1][..i] == es[..i];
    } else {
      assert es[..i] == es;
    }
  }

  /** The loop of `tiled_length`: each extent is compared with a running, overflow-checked end. */
  method ComputeTiledLength(es: seq<Extent>) returns (r: Result<U64>)
    ensures r == TiledLength(es)
  {
    var end: U64 := 0;
    for i := 0 to |es|
      invariant end == End(es[..i])
      invariant forall j :: 0 <= j < i ==> ExtentTiles(es, j)
    {
      var e := es[i];
      var holeOffset := e.chunk == HOLE && e.chunkOffset != 0;
      if e.offset != end || e.len == 0 || holeOffset {
        assert !ExtentTiles(es, i);
        return Err(BadExtents);
      }
      assert es[..i + 1][..i] == es[..i];
      if end + e.len > U64_MAX {
        EndMonotone(es, i + 1);
        return Err(BadExtents);
      }
      end := end + e.len;
    }
    assert es[..|es|] == es;
    return Ok(end);
  }

  // --------------------------------------------------------- canonical trees

  predicate XattrCanonical(x: Xattr) {
    && 0 < |x.name| <= XATTR_NAME_MAX_BYTES
    && 0 !in x.name
    && |x.extents| <= U64_MAX
    && Tiles(x.extents)
  }

  predicate MetaCanonical(m: NodeMeta) {
    && |m.xattrs| <= U32_MAX
    && (forall i :: 0 <= i < |m.xattrs| ==> XattrCanonical(m.xattrs[i]))
    && Increasing(m.xattrs, XattrName)
  }

  predicate EntryCanonical(e: Entry, open: nat)
    decreases e
  {
    && ValidComponent(e.name) && Utf8(e.name)
    && MetaCanonical(e.meta)
    && NodeCanonical(e.node, open)
    && (e.node.File? ==> End(e.node.extents) == e.meta.size)
  }

  /** Canonical below `open` directories: what every decoded tree is. */
  predicate NodeCanonical(n: Node, open: nat)
    decreases n
  {
    if n.File? then |n.extents| <= U64_MAX && Tiles(n.extents) else
    && |n.entries| <= U64_MAX
    && (n.entries != [] ==> open < MAX_DEPTH)
    && Increasing(n.entries, EntryName)
    && forall i :: 0 <= i < |n.entries| ==> EntryCanonical(n.entries[i], open + 1)
  }

  predicate Canonical(n: Node) { NodeCanonical(n, 0) }

  // ------------------------------------------------------------------ writer

  function PutExtent(e: Extent, rest: Bytes): (b: Bytes)
    ensures |b| == EXTENT_BYTES + |rest|
  {
    PutU64(e.offset, PutU64(e.len, PutHash(e.chunk, PutU64(e.chunkOffset, rest))))
  }

  function PutExtents(es: seq<Extent>, rest: Bytes): (b: Bytes)
    ensures |b| == EXTENT_BYTES * |es| + |rest|
  {
    if es == [] then rest else PutExtent(es[0], PutExtents(es[1..], rest))
  }

  function PutExtentList(es: seq<Extent>, rest: Bytes): (b: Bytes)
    ensures |b| == 8 + EXTENT_BYTES * |es| + |rest|
  {
    PutU64(Min(|es|, U64_MAX), PutExtents(es, rest))
  }

  function PutXattr(x: Xattr, rest: Bytes): (b: Bytes)
    ensures |b| >= 12 + |x.name| + |rest|
  {
    PutU32(Min(|x.name|, U32_MAX), PutRaw(x.name, PutExtentList(x.extents, rest)))
  }

  function PutXattrs(xs: seq<Xattr>, rest: Bytes): (b: Bytes)
    ensures |b| >= |rest|
  {
    if xs == [] then rest else PutXattr(xs[0], PutXattrs(xs[1..], rest))
  }

  lemma {:induction false} PutXattrsLength(xs: seq<Xattr>, rest: Bytes)
    requires forall i :: 0 <= i < |xs| ==> XattrCanonical(xs[i])
    ensures |PutXattrs(xs, rest)| >= MIN_XATTR_BYTES * |xs| + |rest|
  {
    hide PutXattr, XattrCanonical;
    if xs != [] {
      PutXattrsLength(xs[1..], rest);
      PutXattrLength(xs[0], PutXattrs(xs[1..], rest));
    }
  }

  lemma {:induction false} PutXattrLength(x: Xattr, rest: Bytes)
    requires XattrCanonical(x)
    ensures |PutXattr(x, rest)| >= MIN_XATTR_BYTES + |rest|
  {
    hide PutU32, PutRaw, PutExtentList, Tiles;
  }

  /** The metadata's fixed fields. */
  function PutFixed(m: NodeMeta, rest: Bytes): (b: Bytes)
    ensures |b| == META_BYTES - 4 + |rest|
  {
    PutU64(m.ino, PutU32(m.mode,
      PutI64(m.atime, PutI64(m.mtime, PutI64(m.ctime, PutI64(m.btime,
        PutU64(m.size, PutU32(m.nlink, PutU32(m.uid, PutU32(m.gid, rest))))))))))
  }

  function PutMeta(m: NodeMeta, rest: Bytes): (b: Bytes)
    ensures |b| >= META_BYTES + |rest|
  {
    PutFixed(m, PutU32(Min(|m.xattrs|, U32_MAX), PutXattrs(SortBy(m.xattrs, XattrName), rest)))
  }

  /** `Node::write`: the node's bytes, children inlined in sorted order, then `rest`. */
  function PutNode(n: Node, rest: Bytes): Bytes
    decreases n, 1, 0
  {
    if n.File? then PutU8(KIND_FILE, PutExtentList(n.extents, rest)) else
    PutU8(KIND_DIRECTORY,
      PutU64(Min(|n.entries|, U64_MAX), PutEntries(n, SortBy(n.entries, EntryName), rest)))
  }

  ghost predicate EntriesOf(parent: Node, es: seq<Entry>) {
    parent.Directory? && forall e :: e in es ==> e in parent.entries
  }

  function PutEntries(ghost parent: Node, es: seq<Entry>, rest: Bytes): Bytes
    requires EntriesOf(parent, es)
    decreases parent, 0, |es|
  {
    if es == [] then rest else
    assert es[0] in parent.entries;
    PutEntryHeader(es[0].name, es[0].meta, PutNode(es[0].node, PutEntries(parent, es[1..], rest)))
  }

  function PutEntryHeader(name: Bytes, meta: NodeMeta, rest: Bytes): (b: Bytes)
    ensures |b| >= 4 + META_BYTES + |rest|
  {
    PutU32(Min(|name|, U32_MAX), PutRaw(name, PutMeta(meta, rest)))
  }

  lemma {:induction false} PutNodeLength(n: Node, rest: Bytes)
    ensures |PutNode(n, rest)| >= 9 + |rest|
    decreases n, 1, 0
  {
    hide PutU64, PutExtentList, PutEntries, SortBy;
    if n.Directory? {
      PutEntriesLength(n, SortBy(n.entries, EntryName), rest);
    }
  }

  /** An entry takes at least `MIN_ENTRY_BYTES`, so the count check never refuses what was written. */
  lemma {:induction false} PutEntriesLength(parent: Node, es: seq<Entry>, rest: Bytes)
    requires EntriesOf(parent, es)
    ensures |PutEntries(parent, es, rest)| >= MIN_ENTRY_BYTES * |es| + |rest|
    decreases parent, 0, |es|
  {
    hide PutEntryHeader, PutNode;
    if es != [] {
      assert es[0] in parent.entries;
      PutEntriesLength(parent, es[1..], rest);
      PutNodeLength(es[0].node, PutEntries(parent, es[1..], rest));
    }
  }

  /** `Node::encode`. */
  function Encode(n: Node): Bytes { PutNode(n, []) }

  // ----------------------------------------------------------------- grammar

  function GetExtent(b: Bytes): Read<Extent> {
    var (offset, b1) :- GetU64(b);
    var (len, b2) :- GetU64(b1);
    var (chunk, b3) :- GetHash(b2);
    var (chunkOffset, b4) :- GetU64(b3);
    Got(Extent(offset, len, chunk, chunkOffset), b4)
  }

  function GetExtents(b: Bytes, n: nat, done: seq<Extent>): Read<seq<Extent>>
    decreases n
  {
    if n == 0 then Got(done, b) else
    var (e, b1) :- GetExtent(b);
    GetExtents(b1, n - 1, done + [e])
  }

  /** A count, refused when the bytes left could not hold that many extents, then the extents. */
  function GetExtentList(b: Bytes): Read<seq<Extent>> {
    var (count, b1) :- GetU64(b);
    if count > |b1| / EXTENT_BYTES then Refused(BadNode) else GetExtents(b1, count, [])
  }

  function GetXattr(b: Bytes, done: seq<Xattr>): Read<Xattr> {
    var (nameLen, b1) :- GetU32(b);
    if nameLen == 0 || nameLen > XATTR_NAME_MAX_BYTES then Refused(BadXattr) else
    var (name, b2) :- GetRaw(b1, nameLen);
    if 0 in name || (done != [] && !Less(done[|done| - 1].name, name)) then Refused(BadXattr) else
    var (extents, b3) :- GetExtentList(b2);
    if TiledLength(extents).Err? then Refused(BadExtents) else Got(Xattr(name, extents), b3)
  }

  function GetXattrs(b: Bytes, n: nat, done: seq<Xattr>): Read<seq<Xattr>>
    decreases n
  {
    if n == 0 then Got(done, b) else
    var (x, b1) :- GetXattr(b, done);
    GetXattrs(b1, n - 1, done + [x])
  }

  function GetXattrList(b: Bytes): Read<seq<Xattr>> {
    var (count, b1) :- GetU32(b);
    if count > |b1| / MIN_XATTR_BYTES then Refused(BadNode) else GetXattrs(b1, count, [])
  }

  function GetFixed(b: Bytes): Read<NodeMeta> {
    var (ino, b1) :- GetU64(b);
    var (mode, b2) :- GetU32(b1);
    var (atime, b3) :- GetI64(b2);
    var (mtime, b4) :- GetI64(b3);
    var (ctime, b5) :- GetI64(b4);
    var (btime, b6) :- GetI64(b5);
    var (size, b7) :- GetU64(b6);
    var (nlink, b8) :- GetU32(b7);
    var (uid, b9) :- GetU32(b8);
    var (gid, b10) :- GetU32(b9);
    Got(NodeMeta(ino, mode, atime, mtime, ctime, btime, size, nlink, uid, gid, []), b10)
  }

  function GetMeta(b: Bytes): Read<NodeMeta> {
    var (fixed, b1) :- GetFixed(b);
    var (xattrs, b2) :- GetXattrList(b1);
    Got(fixed.(xattrs := xattrs), b2)
  }

  datatype Header = FileHeader(extents: seq<Extent>) | DirectoryHeader(count: nat)

  function GetHeader(b: Bytes): Read<Header> {
    var (kind, b1) :- GetU8(b);
    if kind != KIND_DIRECTORY && kind != KIND_FILE then Refused(BadKind(kind))
    else if kind == KIND_FILE then
      var (extents, b2) :- GetExtentList(b1);
      Got(FileHeader(extents), b2)
    else
      var (count, b2) :- GetU64(b1);
      if count > |b2| / MIN_ENTRY_BYTES then Refused(BadNode) else Got(DirectoryHeader(count), b2)
  }

  datatype Named = Named(name: Bytes, meta: NodeMeta)

  function GetEntryHeader(b: Bytes, done: seq<Entry>): Read<Named> {
    var (nameLen, b1) :- GetU32(b);
    var (name, b2) :- GetRaw(b1, nameLen);
    if !Utf8(name) then Refused(BadNode)
    else if !ValidComponent(name) then Refused(BadName)
    else if done != [] && !Less(done[|done| - 1].name, name) then Refused(Unordered)
    else
      var (meta, b3) :- GetMeta(b2);
      Got(Named(name, meta), b3)
  }

  /** A file just read: its extents tile it, and it has the size its entry records. */
  function CheckFile(extents: seq<Extent>, named: Option<Named>): Result<Node> {
    var length :- TiledLength(extents);
    if named.Some? && named.value.meta.size != length then Err(SizeMismatch) else Ok(File(extents))
  }

  /** One node, named by its entry header, below `open` open directories. */
  function GetNode(b: Bytes, named: Option<Named>, open: nat): (r: Read<Node>)
    ensures r.Got? ==> |r.rest| < |b|
    decreases |b|
  {
    HeaderShrinks(b);
    var (header, b1) :- GetHeader(b);
    match header
    case FileHeader(extents) =>
      (match CheckFile(extents, named)
       case Err(error) => Refused(error)
       case Ok(node) => Got(node, b1))
    case DirectoryHeader(count) =>
      var (entries, b2) :- GetEntries(b1, count, [], open + 1);
      Got(Directory(entries), b2)
  }

  /** The `n` entries left of the directory whose entries so far are `done`. */
  function GetEntries(b: Bytes, n: nat, done: seq<Entry>, open: nat): (r: Read<seq<Entry>>)
    ensures r.Got? ==> |r.rest| <= |b|
    decreases |b|
  {
    hide GetU64, GetU32, GetI64, GetHash, GetRaw, Le, FromLe, GetExtentList, PutExtentList;
    if n == 0 then Got(done, b)
    else if open > MAX_DEPTH then Refused(TooDeep)
    else
      EntryHeaderShrinks(b, done);
      var (named, b1) :- GetEntryHeader(b, done);
      var (node, b2) :- GetNode(b1, Some(named), open);
      GetEntries(b2, n - 1, done + [Entry(named.name, named.meta, node)], open)
  }

  /** What `Node::decode` answers: a tree, with nothing after it. */
  function Decoded(b: Bytes): Result<Node> {
    match GetNode(b, None, 0)
    case Refused(error) => Err(error)
    case Got(node, rest) => if rest != [] then Err(TrailingBytes) else Ok(node)
  }

  // ------------------------------------------------- reading what was written

  lemma {:induction false} ExtentComplete(e: Extent, rest: Bytes)
    ensures GetExtent(PutExtent(e, rest)) == Got(e, rest)
  {
    hide GetEntryHeader, PutEntryHeader;
    hide GetU64, GetU32, GetI64, GetHash, GetRaw, Le, FromLe, PutU64, PutU32, PutI64, PutHash, PutRaw;
  }

  lemma {:induction false} ExtentsComplete(es: seq<Extent>, rest: Bytes, done: seq<Extent>)
    ensures GetExtents(PutExtents(es, rest), |es|, done) == Got(done + es, rest)
    decreases |es|
  {
    hide PutExtent, GetExtent;
    if es == [] {
      assert done + es == done;
    } else {
      ExtentComplete(es[0], PutExtents(es[1..], rest));
      ExtentsComplete(es[1..], rest, done + [es[0]]);
      assert done + [es[0]] + es[1..] == done + es;
    }
  }

  lemma {:induction false} ExtentListComplete(es: seq<Extent>, rest: Bytes)
    requires |es| <= U64_MAX
    ensures GetExtentList(PutExtentList(es, rest)) == Got(es, rest)
  {
    hide PutExtents, GetExtents, GetU64, PutU64;
    ExtentsComplete(es, rest, []);
    assert [] + es == es;
  }

  lemma {:induction false} XattrComplete(x: Xattr, rest: Bytes, done: seq<Xattr>)
    requires XattrCanonical(x)
    requires done != [] ==> Less(done[|done| - 1].name, x.name)
    ensures GetXattr(PutXattr(x, rest), done) == Got(x, rest)
  {
    hide GetU64, GetU32, GetI64, GetHash, GetRaw, Le, FromLe, PutU64, PutU32, PutI64, PutHash, PutRaw, PutExtentList,
      GetExtentList;
    ExtentListComplete(x.extents, rest);
  }

  lemma {:induction false} XattrsComplete(xs: seq<Xattr>, k: nat, rest: Bytes)
    requires k <= |xs| && Increasing(xs, XattrName)
    requires forall i :: 0 <= i < |xs| ==> XattrCanonical(xs[i])
    ensures GetXattrs(PutXattrs(xs[k..], rest), |xs| - k, xs[..k]) == Got(xs, rest)
    decreases |xs| - k
  {
    hide PutXattr, GetXattr, XattrCanonical;
    if k == |xs| {
      assert xs[..k] == xs;
    } else {
      assert k > 0 ==> Less(XattrName(xs[k - 1]), XattrName(xs[k - 1 + 1]));
      XattrComplete(xs[k], PutXattrs(xs[k + 1..], rest), xs[..k]);
      assert xs[k..][1..] == xs[k + 1..] && xs[..k] + [xs[k]] == xs[..k + 1];
      XattrsComplete(xs, k + 1, rest);
    }
  }

  lemma {:induction false} FixedComplete(m: NodeMeta, rest: Bytes)
    ensures GetFixed(PutFixed(m, rest)) == Got(m.(xattrs := []), rest)
  {
    hide GetU64, GetU32, GetI64, GetHash, GetRaw, Le, FromLe, PutU64, PutU32, PutI64, PutHash, PutRaw;
  }

  lemma {:induction false} MetaComplete(m: NodeMeta, rest: Bytes)
    requires MetaCanonical(m)
    ensures GetMeta(PutMeta(m, rest)) == Got(m, rest)
  {
    hide GetU64, GetU32, GetI64, GetHash, GetRaw, Le, FromLe, PutU64, PutU32, PutI64, PutHash, PutRaw, PutFixed,
      GetFixed, PutXattrs, GetXattrs, SortBy;
    var xs := m.xattrs;
    SortOfIncreasing(xs, XattrName);
    XattrsComplete(xs, 0, rest);
    PutXattrsLength(xs, rest);
    assert xs[0..] == xs && xs[..0] == [];
    FixedComplete(m, PutU32(|xs|, PutXattrs(xs, rest)));
  }

  lemma {:induction false} EntryHeaderComplete(e: Entry, rest: Bytes, done: seq<Entry>, open: nat)
    requires EntryCanonical(e, open)
    requires done != [] ==> Less(done[|done| - 1].name, e.name)
    ensures GetEntryHeader(PutEntryHeader(e.name, e.meta, rest), done) == Got(Named(e.name, e.meta), rest)
  {
    hide GetU64, GetU32, GetI64, GetHash, GetRaw, Le, FromLe, PutU64, PutU32, PutI64, PutHash, PutRaw, PutMeta,
      GetMeta, MetaCanonical, NodeCanonical;
    MetaComplete(e.meta, rest);
  }

  lemma {:induction false} NodeComplete(n: Node, named: Option<Named>, open: nat, rest: Bytes)
    requires NodeCanonical(n, open)
    requires n.File? && named.Some? ==> End(n.extents) == named.value.meta.size
    ensures GetNode(PutNode(n, rest), named, open) == Got(n, rest)
    decreases n, 1, 0
  {
    hide GetU64, GetU32, GetI64, GetHash, GetRaw, Le, FromLe, PutU64, PutU32, PutI64, PutHash, PutRaw, PutExtentList,
      GetExtentList, PutEntries, GetEntries, SortBy, EntryCanonical;
    match n
    case File(es) =>
      ExtentListComplete(es, rest);
    case Directory(es) =>
      SortOfIncreasing(es, EntryName);
      EntriesComplete(n, 0, open + 1, rest);
      PutEntriesLength(n, es, rest);
      assert es[0..] == es && es[..0] == [];
  }

  lemma {:induction false} EntriesComplete(n: Node, k: nat, open: nat, rest: Bytes)
    requires n.Directory? && k <= |n.entries| && Increasing(n.entries, EntryName)
    requires n.entries != [] ==> open <= MAX_DEPTH
    requires forall i :: 0 <= i < |n.entries| ==> EntryCanonical(n.entries[i], open)
    ensures GetEntries(PutEntries(n, n.entries[k..], rest), |n.entries| - k, n.entries[..k], open)
      == Got(n.entries, rest)
    decreases n, 0, |n.entries| - k
  {
    hide PutEntryHeader, GetEntryHeader, PutNode, GetNode, Less, MetaCanonical, NodeCanonical, ValidComponent, Utf8;
    var es := n.entries;
    if k == |es| {
      assert es[..k] == es;
    } else {
      var e := es[k];
      assert e in es;
      assert k > 0 ==> Less(EntryName(es[k - 1]), EntryName(es[k - 1 + 1]));
      assert es[k..][1..] == es[k + 1..] && es[..k] + [e] == es[..k + 1];
      var tail := PutEntries(n, es[k + 1..], rest);
      EntryHeaderComplete(e, PutNode(e.node, tail), es[..k], open);
      NodeComplete(e.node, Some(Named(e.name, e.meta)), open, tail);
      EntriesComplete(n, k + 1, open, rest);
    }
  }

  // --------------------------------------------- what is read was so written

  lemma {:induction false} ExtentSound(b: Bytes)
    requires GetExtent(b).Got?
    ensures b == PutExtent(GetExtent(b).value, GetExtent(b).rest)
  {
    hide GetU64, GetU32, GetI64, GetHash, GetRaw, Le, FromLe;
  }

  lemma {:induction false} ExtentsSound(b: Bytes, n: nat, done: seq<Extent>)
    requires GetExtents(b, n, done).Got?
    ensures var r := GetExtents(b, n, done);
      |r.value| == |done| + n && done <= r.value && b == PutExtents(r.value[|done|..], r.rest)
    decreases n
  {
    hide GetExtent, PutExtent;
    var r := GetExtents(b, n, done);
    if n > 0 {
      ExtentSound(b);
      var e := GetExtent(b);
      ExtentsSound(e.rest, n - 1, done + [e.value]);
      assert r.value[|done|] == e.value;
      assert r.value[|done|..][1..] == r.value[|done| + 1..];
    }
  }

  lemma {:induction false} ExtentListSound(b: Bytes)
    requires GetExtentList(b).Got?
    ensures var r := GetExtentList(b);
      |r.value| <= U64_MAX && b == PutExtentList(r.value, r.rest)
  {
    hide GetU64, Le, GetExtents, PutExtents;
    var c := GetU64(b);
    ExtentsSound(c.rest, c.value, []);
    var r := GetExtentList(b);
    assert r.value[0..] == r.value;
  }

  lemma {:induction false} XattrSound(b: Bytes, done: seq<Xattr>)
    requires GetXattr(b, done).Got?
    ensures var r := GetXattr(b, done);
      && XattrCanonical(r.value)
      && (done != [] ==> Less(done[|done| - 1].name, r.value.name))
      && b == PutXattr(r.value, r.rest)
  {
    hide GetU64, GetU32, GetI64, GetHash, GetRaw, Le, FromLe, GetExtentList, PutExtentList;
    var c := GetU32(b);
    var name := GetRaw(c.rest, c.value);
    ExtentListSound(name.rest);
  }

  lemma {:induction false} XattrsSound(b: Bytes, n: nat, done: seq<Xattr>)
    requires GetXattrs(b, n, done).Got?
    requires Increasing(done, XattrName)
    requires forall i :: 0 <= i < |done| ==> XattrCanonical(done[i])
    ensures var r := GetXattrs(b, n, done);
      && |r.value| == |done| + n && done <= r.value
      && Increasing(r.value, XattrName)
      && (forall i :: 0 <= i < |r.value| ==> XattrCanonical(r.value[i]))
      && b == PutXattrs(r.value[|done|..], r.rest)
    decreases n
  {
    hide GetXattr, PutXattr, XattrCanonical;
    if n > 0 {
      XattrSound(b, done);
      var x := GetXattr(b, done);
      XattrsSound(x.rest, n - 1, done + [x.value]);
      var r := GetXattrs(b, n, done);
      assert r.value[|done|] == x.value;
      assert r.value[|done|..][1..] == r.value[|done| + 1..];
    }
  }

  lemma {:induction false} FixedSound(b: Bytes)
    requires GetFixed(b).Got?
    ensures var r := GetFixed(b);
      r.value.xattrs == [] && b == PutFixed(r.value, r.rest)
  {
    hide GetU64, GetU32, GetI64, GetHash, GetRaw, Le, FromLe;
  }

  lemma {:induction false} MetaSound(b: Bytes)
    requires GetMeta(b).Got?
    ensures var r := GetMeta(b);
      MetaCanonical(r.value) && b == PutMeta(r.value, r.rest)
  {
    hide GetU64, GetU32, GetI64, GetHash, GetRaw, Le, FromLe, GetFixed, GetXattrs, PutXattrs, SortBy, XattrCanonical,
      PutU64, PutI64;
    FixedSound(b);
    var f := GetFixed(b);
    var c := GetU32(f.rest);
    XattrsSound(c.rest, c.value, []);
    var xs := GetXattrList(f.rest).value;
    assert xs[0..] == xs;
    SortOfIncreasing(xs, XattrName);
  }

  lemma {:induction false} EntryHeaderSound(b: Bytes, done: seq<Entry>)
    requires GetEntryHeader(b, done).Got?
    ensures var r := GetEntryHeader(b, done);
      && ValidComponent(r.value.name) && Utf8(r.value.name) && MetaCanonical(r.value.meta)
      && (done != [] ==> Less(done[|done| - 1].name, r.value.name))
      && b == PutEntryHeader(r.value.name, r.value.meta, r.rest)
  {
    hide GetU64, GetU32, GetI64, GetHash, GetRaw, Le, FromLe, GetMeta, PutMeta, MetaCanonical, Utf8, ValidComponent;
    var c := GetU32(b);
    MetaSound(GetRaw(c.rest, c.value).rest);
  }

  /** A header consumes bytes, and the entries a directory declares fit in the bytes that are left. */
  lemma {:induction false} HeaderShrinks(b: Bytes)
    ensures GetHeader(b).Got? ==> |GetHeader(b).rest| + 9 <= |b|
    ensures GetHeader(b).Got? && GetHeader(b).value.DirectoryHeader? ==>
      GetHeader(b).value.count * MIN_ENTRY_BYTES <= |GetHeader(b).rest|
  {
    if GetHeader(b).Got? && GetU8(b).value == KIND_FILE {
      ExtentListSound(GetU8(b).rest);
    }
  }

  lemma {:induction false} EntryHeaderShrinks(b: Bytes, done: seq<Entry>)
    ensures GetEntryHeader(b, done).Got? ==> |GetEntryHeader(b, done).rest| < |b|
  {
    if GetEntryHeader(b, done).Got? {
      EntryHeaderSound(b, done);
    }
  }

  lemma {:induction false} NodeSound(b: Bytes, named: Option<Named>, open: nat)
    requires GetNode(b, named, open).Got?
    ensures var r := GetNode(b, named, open);
      && NodeCanonical(r.value, open)
      && (r.value.File? && named.Some? ==> End(r.value.extents) == named.value.meta.size)
      && b == PutNode(r.value, r.rest)
    decreases |b|
  {
    hide GetU64, GetU32, GetI64, GetHash, GetRaw, Le, FromLe, GetExtentList, PutExtentList, GetEntries, PutEntries,
      EntryCanonical, SortBy;
    HeaderShrinks(b);
    var h := GetHeader(b);
    match h.value
    case FileHeader(es) =>
      ExtentListSound(GetU8(b).rest);
    case DirectoryHeader(count) =>
      var n := GetNode(b, named, open).value;
      EntriesSound(n, h.rest, count, [], open + 1);
      assert n.entries[0..] == n.entries;
      SortOfIncreasing(n.entries, EntryName);
  }

  lemma {:induction false} EntriesSound(n: Node, b: Bytes, k: nat, done: seq<Entry>, open: nat)
    requires var r := GetEntries(b, k, done, open); r.Got? && n == Directory(r.value)
    requires Increasing(done, EntryName)
    requires forall i :: 0 <= i < |done| ==> EntryCanonical(done[i], open)
    ensures var es := n.entries;
      && |es| == |done| + k && done <= es
      && (k > 0 ==> open <= MAX_DEPTH)
      && Increasing(es, EntryName)
      && (forall i :: 0 <= i < |es| ==> EntryCanonical(es[i], open))
      && b == PutEntries(n, es[|done|..], GetEntries(b, k, done, open).rest)
    decreases |b|
  {
    hide GetEntryHeader, PutEntryHeader, GetNode, PutNode, NodeCanonical, MetaCanonical, Utf8, ValidComponent;
    if k > 0 {
      EntryHeaderSound(b, done);
      EntryHeaderShrinks(b, done);
      var h := GetEntryHeader(b, done);
      NodeSound(h.rest, Some(h.value), open);
      var c := GetNode(h.rest, Some(h.value), open);
      var e := Entry(h.value.name, h.value.meta, c.value);
      EntriesSound(n, c.rest, k - 1, done + [e], open);
      var es := n.entries;
      assert es[|done|] == e;
      assert es[|done|..][1..] == es[|done| + 1..];
    }
  }

  // ------------------------------------------------------------ main results

  /** The reader accepts exactly the encodings of canonical trees, and each is the encoding of the tree it yields. */
  lemma {:induction false} DecodeIffCanonicalEncoding(b: Bytes, n: Node)
    ensures Decoded(b) == Ok(n) <==> Canonical(n) && b == Encode(n)
  {
    if Decoded(b) == Ok(n) {
      NodeSound(b, None, 0);
    }
    if Canonical(n) && b == Encode(n) {
      NodeComplete(n, None, 0, []);
    }
  }

  /** `encode_root_meta` and `decode_root_meta`, whose second result is the bytes after the metadata. */
  lemma {:induction false} RootMetaIffCanonicalEncoding(b: Bytes, m: NodeMeta, rest: Bytes)
    ensures GetMeta(b) == Got(m, rest) <==> MetaCanonical(m) && b == PutMeta(m, rest)
  {
    if GetMeta(b) == Got(m, rest) {
      MetaSound(b);
    }
    if MetaCanonical(m) {
      MetaComplete(m, rest);
    }
  }
}
