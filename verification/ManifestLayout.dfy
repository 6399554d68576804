// Where every field of a manifest stands (crates/archive/src/manifest.rs), by byte
// offset, in the bytes the tree is stored as and in those its identity hashes.

module ManifestLayout {
  import opened Wire
  import opened Offsets
  import opened Sorting
  import opened Manifest
  import opened Merkle

  /** An extent is 56 bytes: its offset, its length, its chunk, the offset in the chunk. */
  lemma {:induction false} ExtentFields(e: Extent, rest: Bytes)
    ensures var b := PutExtent(e, rest);
      && HasWord(b, 0, e.offset, 8) && HasWord(b, 8, e.len, 8) && HasBytes(b, 16, e.chunk)
      && HasWord(b, 48, e.chunkOffset, 8) && b[56..] == rest
  {
    hide PutU64, PutHash, Le, HasWord, HasBytes;
    var b := PutExtent(e, rest);
    var b3 := PutU64(e.chunkOffset, rest);
    var b2 := PutHash(e.chunk, b3);
    var b1 := PutU64(e.len, b2);
    PutU64Is(e.offset, b1);
    PutU64Is(e.len, b2);
    PutHashIs(e.chunk, b3);
    PutU64Is(e.chunkOffset, rest);
    assert b[0..] == b;
    PeelWord(b, 0, e.offset, 8, b1);
    PeelWord(b, 8, e.len, 8, b2);
    PeelBytes(b, 16, e.chunk, b3);
    PeelWord(b, 48, e.chunkOffset, 8, rest);
  }

  /** A list of extents is their count and then each, 56 bytes apart. */
  lemma {:induction false} ExtentListFields(es: seq<Extent>, i: nat, rest: Bytes)
    requires |es| <= U64_MAX && i <= |es|
    ensures HasWord(PutExtentList(es, rest), 0, |es|, 8)
    ensures 8 + 56 * i <= |PutExtentList(es, rest)|
    ensures PutExtentList(es, rest)[8 + 56 * i..] == PutExtents(es[i..], rest)
  {
    hide PutU64, PutExtents, Le, HasWord, HasBytes;
    var b := PutExtentList(es, rest);
    PutU64Is(|es|, PutExtents(es, rest));
    assert b[0..] == b;
    PeelWord(b, 0, |es|, 8, PutExtents(es, rest));
    ExtentsFrom(es, i, rest);
    assert b[8..][56 * i..] == b[8 + 56 * i..];
  }

  lemma {:induction false} ExtentsFrom(es: seq<Extent>, i: nat, rest: Bytes)
    requires i <= |es|
    ensures 56 * i <= |PutExtents(es, rest)| && PutExtents(es, rest)[56 * i..] == PutExtents(es[i..], rest)
  {
    hide PutExtent;
    if i == 0 {
      assert es[0..] == es;
    } else {
      ExtentsFrom(es, i - 1, rest);
      var tail := PutExtents(es[i - 1..], rest);
      assert es[i - 1..][1..] == es[i..];
      ExtentFields(es[i - 1], PutExtents(es[i..], rest));
      assert PutExtents(es, rest)[56 * (i - 1)..][56..] == PutExtents(es, rest)[56 * i..];
    }
  }

  /** A node's metadata: ten fields in 64 bytes, times in two's complement, then the attributes after their count. */
  lemma {:induction false} MetaFields(m: NodeMeta, rest: Bytes)
    requires |m.xattrs| <= U32_MAX
    ensures var b := PutMeta(m, rest);
      && HasWord(b, 0, m.ino, 8) && HasWord(b, 8, m.mode, 4) && HasWord(b, 12, Twos(m.atime), 8)
      && HasWord(b, 20, Twos(m.mtime), 8) && HasWord(b, 28, Twos(m.ctime), 8) && HasWord(b, 36, Twos(m.btime), 8)
      && HasWord(b, 44, m.size, 8) && HasWord(b, 52, m.nlink, 4) && HasWord(b, 56, m.uid, 4) && HasWord(b, 60, m.gid, 4)
      && HasWord(b, 64, |m.xattrs|, 4) && b[68..] == PutXattrs(SortBy(m.xattrs, XattrName), rest)
  {
    hide PutU64, PutU32, PutI64, PutXattrs, SortBy, Le, Twos, HasWord;
    var b := PutMeta(m, rest);
    var b11 := PutXattrs(SortBy(m.xattrs, XattrName), rest);
    var b10 := PutU32(|m.xattrs|, b11);
    var b9 := PutU32(m.gid, b10);
    var b8 := PutU32(m.uid, b9);
    var b7 := PutU32(m.nlink, b8);
    var b6 := PutU64(m.size, b7);
    var b5 := PutI64(m.btime, b6);
    var b4 := PutI64(m.ctime, b5);
    var b3 := PutI64(m.mtime, b4);
    var b2 := PutI64(m.atime, b3);
    var b1 := PutU32(m.mode, b2);
    PutU64Is(m.ino, b1);
    PutU32Is(m.mode, b2);
    PutI64Is(m.atime, b3);
    PutI64Is(m.mtime, b4);
    PutI64Is(m.ctime, b5);
    PutI64Is(m.btime, b6);
    PutU64Is(m.size, b7);
    PutU32Is(m.nlink, b8);
    PutU32Is(m.uid, b9);
    PutU32Is(m.gid, b10);
    PutU32Is(|m.xattrs|, b11);
    assert b[0..] == b;
    PeelWord(b, 0, m.ino, 8, b1);
    PeelWord(b, 8, m.mode, 4, b2);
    PeelWord(b, 12, Twos(m.atime), 8, b3);
    PeelWord(b, 20, Twos(m.mtime), 8, b4);
    PeelWord(b, 28, Twos(m.ctime), 8, b5);
    PeelWord(b, 36, Twos(m.btime), 8, b6);
    PeelWord(b, 44, m.size, 8, b7);
    PeelWord(b, 52, m.nlink, 4, b8);
    PeelWord(b, 56, m.uid, 4, b9);
    PeelWord(b, 60, m.gid, 4, b10);
    PeelWord(b, 64, |m.xattrs|, 4, b11);
  }

  /** An attribute is its name after the name's length, then its value's extents. */
  lemma {:induction false} AttributeFields(x: Xattr, rest: Bytes)
    requires |x.name| <= U32_MAX
    ensures var b := PutXattr(x, rest);
      HasWord(b, 0, |x.name|, 4) && HasBytes(b, 4, x.name) && b[4 + |x.name|..] == PutExtentList(x.extents, rest)
  {
    hide PutU32, PutRaw, PutExtentList, Le, HasWord, HasBytes;
    var b := PutXattr(x, rest);
    var b2 := PutExtentList(x.extents, rest);
    var b1 := PutRaw(x.name, b2);
    PutU32Is(|x.name|, b1);
    PutRawIs(x.name, b2);
    assert b[0..] == b;
    PeelWord(b, 0, |x.name|, 4, b1);
    PeelBytes(b, 4, x.name, b2);
  }

  /** A directory entry is its name after the name's length, then its metadata, then its node. */
  lemma {:induction false} EntryFields(name: Bytes, meta: NodeMeta, rest: Bytes)
    requires |name| <= U32_MAX
    ensures var b := PutEntryHeader(name, meta, rest);
      HasWord(b, 0, |name|, 4) && HasBytes(b, 4, name) && b[4 + |name|..] == PutMeta(meta, rest)
  {
    hide PutU32, PutRaw, PutMeta, Le, HasWord, HasBytes;
    var b := PutEntryHeader(name, meta, rest);
    var b2 := PutMeta(meta, rest);
    var b1 := PutRaw(name, b2);
    PutU32Is(|name|, b1);
    PutRawIs(name, b2);
    assert b[0..] == b;
    PeelWord(b, 0, |name|, 4, b1);
    PeelBytes(b, 4, name, b2);
  }

  /** A node is a zero byte, its count and its entries by name, or a one byte and its extents. */
  lemma {:induction false} NodeFields(n: Node, rest: Bytes)
    requires n.Directory? ==> |n.entries| <= U64_MAX
    ensures var b := PutNode(n, rest);
      if n.File? then b == [1] + PutExtentList(n.extents, rest)
      else b == [0] + Le(|n.entries|, 8) + PutEntries(n, SortBy(n.entries, EntryName), rest)
  {
    hide PutU64, PutExtentList, PutEntries, SortBy, Le, HasWord, HasBytes;
    if n.Directory? {
      PutU64Is(|n.entries|, PutEntries(n, SortBy(n.entries, EntryName), rest));
    }
  }

  /** What an identity hashes is the same but for each entry's node, in whose place stands that node's identity. */
  lemma {:induction false} HashedFields(H: Hasher, n: Node)
    requires n.Directory? ==> |n.entries| <= U64_MAX
    ensures var b := MerkleBytes(H, n);
      if n.File? then b == [1] + PutExtentList(n.extents, [])
      else b == [0] + Le(|n.entries|, 8) + MerkleEntries(H, n, SortBy(n.entries, EntryName))
  {
    hide PutU64, PutExtentList, SortBy, MerkleEntries, Le, HasWord, HasBytes;
    if n.Directory? {
      PutU64Is(|n.entries|, MerkleEntries(H, n, SortBy(n.entries, EntryName)));
    }
  }

  lemma {:induction false} HashedEntryFields(H: Hasher, n: Node, es: seq<Entry>)
    requires EntriesOf(n, es) && es != []
    ensures MerkleEntries(H, n, es) ==
      PutEntryHeader(es[0].name, es[0].meta, Identity(H, es[0].node) + MerkleEntries(H, n, es[1..]))
    ensures PutEntries(n, es, []) ==
      PutEntryHeader(es[0].name, es[0].meta, PutNode(es[0].node, PutEntries(n, es[1..], [])))
  {
    hide PutEntryHeader, PutHash, PutNode;
    assert es[0] in n.entries;
    PutHashIs(Identity(H, es[0].node), MerkleEntries(H, n, es[1..]));
  }

  /** The identity a header pins hashes the root's metadata and then the tree's identity. */
  lemma {:induction false} PinnedFields(H: Hasher, meta: NodeMeta, root: Node)
    ensures ManifestIdentity(H, meta, root) == H(PutMeta(meta, H(MerkleBytes(H, root))))
  {
    hide PutMeta, MerkleBytes;
    PutHashIs(Identity(H, root), []);
    assert Identity(H, root) + [] == Identity(H, root);
  }
}
