// The Merkle identity of a manifest (crates/archive/src/manifest.rs), over an
// arbitrary hash function `H`: it binds the tree it was computed from, up to a
// collision among the strings hashed for the two trees, and does not depend on
// the order entries were added in.

module Merkle {
  import opened Wire
  import opened Sorting
  import opened Manifest

  type Hasher = Bytes -> Hash

  /** The encoding a node's identity hashes: each child named by its own identity. */
  function MerkleBytes(H: Hasher, n: Node): Bytes
    decreases n, 1, 0
  {
    if n.File? then PutU8(KIND_FILE, PutExtentList(n.extents, [])) else
    PutU8(KIND_DIRECTORY,
      PutU64(Min(|n.entries|, U64_MAX), MerkleEntries(H, n, SortBy(n.entries, EntryName))))
  }

  function MerkleEntries(H: Hasher, ghost parent: Node, es: seq<Entry>): Bytes
    requires EntriesOf(parent, es)
    decreases parent, 0, |es|
  {
    if es == [] then [] else
    assert es[0] in parent.entries;
    PutEntryHeader(es[0].name, es[0].meta,
      PutHash(H(MerkleBytes(H, es[0].node)), MerkleEntries(H, parent, es[1..])))
  }

  /** `Node::identity`. */
  function Identity(H: Hasher, n: Node): Hash { H(MerkleBytes(H, n)) }

  function RootBytes(H: Hasher, rootMeta: NodeMeta, root: Node): Bytes {
    PutMeta(rootMeta, PutHash(Identity(H, root), []))
  }

  /** `manifest_identity`: the value an archive's header pins. */
  function ManifestIdentity(H: Hasher, rootMeta: NodeMeta, root: Node): Hash {
    H(RootBytes(H, rootMeta, root))
  }

  // ------------------------------------------------------------------ binding

  /** The byte strings hashed to compute a node's identity. */
  ghost function HashedForNode(H: Hasher, n: Node): set<Bytes>
    decreases n, 1, 0
  {
    if n.File? then {MerkleBytes(H, n)}
    else {MerkleBytes(H, n)} + HashedForEntries(H, n, n.entries)
  }

  ghost function HashedForEntries(H: Hasher, parent: Node, es: seq<Entry>): set<Bytes>
    requires EntriesOf(parent, es)
    decreases parent, 0, |es|
  {
    if es == [] then {} else
    assert es[0] in parent.entries;
    HashedForNode(H, es[0].node) + HashedForEntries(H, parent, es[1..])
  }

  ghost function HashedForManifest(H: Hasher, rootMeta: NodeMeta, root: Node): set<Bytes> {
    {RootBytes(H, rootMeta, root)} + HashedForNode(H, root)
  }

  ghost predicate InjectiveOn(H: Hasher, s: set<Bytes>) {
    forall x, y :: x in s && y in s && H(x) == H(y) ==> x == y
  }

  lemma {:induction false} EntryHeaderInjective(a: Entry, ra: Bytes, b: Entry, rb: Bytes, open: nat)
    requires EntryCanonical(a, open) && EntryCanonical(b, open)
    requires PutEntryHeader(a.name, a.meta, ra) == PutEntryHeader(b.name, b.meta, rb)
    ensures a.name == b.name && a.meta == b.meta && ra == rb
  {
    hide PutEntryHeader, GetEntryHeader, EntryCanonical;
    EntryHeaderComplete(a, ra, [], open);
    EntryHeaderComplete(b, rb, [], open);
  }

  lemma {:induction false} NodeBinding(H: Hasher, a: Node, b: Node, open: nat, s: set<Bytes>)
    requires NodeCanonical(a, open) && NodeCanonical(b, open)
    requires HashedForNode(H, a) <= s && HashedForNode(H, b) <= s && InjectiveOn(H, s)
    requires Identity(H, a) == Identity(H, b)
    ensures a == b
    decreases a, 1, 0
  {
    hide PutExtentList, GetExtentList, PutU64, GetU64, MerkleEntries, SortBy, EntryCanonical, HashedForEntries;
    assert MerkleBytes(H, a) == MerkleBytes(H, b);
    if a.File? {
      assert b.File? by { assert MerkleBytes(H, a)[0] == KIND_FILE; }
      assert PutExtentList(a.extents, []) == PutExtentList(b.extents, []) by {
        assert MerkleBytes(H, a)[1..] == PutExtentList(a.extents, []);
        assert MerkleBytes(H, b)[1..] == PutExtentList(b.extents, []);
      }
      ExtentListComplete(a.extents, []);
      ExtentListComplete(b.extents, []);
    } else {
      assert b.Directory? by { assert MerkleBytes(H, a)[0] == KIND_DIRECTORY; }
      SortOfIncreasing(a.entries, EntryName);
      SortOfIncreasing(b.entries, EntryName);
      var x := PutU64(|a.entries|, MerkleEntries(H, a, a.entries));
      var y := PutU64(|b.entries|, MerkleEntries(H, b, b.entries));
      assert MerkleBytes(H, a)[1..] == x && MerkleBytes(H, b)[1..] == y;
      assert GetU64(x) == GetU64(y);
      EntriesBinding(H, a, a.entries, b, b.entries, open + 1, s);
    }
  }

  lemma {:induction false} EntriesBinding(
    H: Hasher, a: Node, es: seq<Entry>, b: Node, fs: seq<Entry>, open: nat, s: set<Bytes>)
    requires EntriesOf(a, es) && EntriesOf(b, fs) && |es| == |fs|
    requires forall i :: 0 <= i < |es| ==> EntryCanonical(es[i], open) && EntryCanonical(fs[i], open)
    requires HashedForEntries(H, a, es) <= s && HashedForEntries(H, b, fs) <= s && InjectiveOn(H, s)
    requires MerkleEntries(H, a, es) == MerkleEntries(H, b, fs)
    ensures es == fs
    decreases a, 0, |es|
  {
    hide PutEntryHeader, PutHash, GetHash, MerkleBytes, HashedForNode, InjectiveOn;
    if es != [] {
      assert es[0] in a.entries && fs[0] in b.entries;
      var e := PutHash(Identity(H, es[0].node), MerkleEntries(H, a, es[1..]));
      var f := PutHash(Identity(H, fs[0].node), MerkleEntries(H, b, fs[1..]));
      EntryHeaderInjective(es[0], e, fs[0], f, open);
      assert GetHash(e) == GetHash(f);
      NodeBinding(H, es[0].node, fs[0].node, open, s);
      EntriesBinding(H, a, es[1..], b, fs[1..], open, s);
      assert es == [es[0]] + es[1..] && fs == [fs[0]] + fs[1..];
    }
  }

  /**
   * Two canonical manifests with one identity are equal, or `H` maps to one value two different
   * strings among those hashed for the two identities.
   */
  lemma {:induction false} ManifestBinding(H: Hasher, m1: NodeMeta, n1: Node, m2: NodeMeta, n2: Node)
    requires MetaCanonical(m1) && Canonical(n1) && MetaCanonical(m2) && Canonical(n2)
    requires ManifestIdentity(H, m1, n1) == ManifestIdentity(H, m2, n2)
    ensures (m1 == m2 && n1 == n2) ||
      exists x, y :: x in HashedForManifest(H, m1, n1) + HashedForManifest(H, m2, n2)
        && y in HashedForManifest(H, m1, n1) + HashedForManifest(H, m2, n2)
        && x != y && H(x) == H(y)
  {
    hide PutMeta, GetMeta, PutHash, GetHash, MetaCanonical, NodeCanonical, MerkleBytes, HashedForNode;
    var s := HashedForManifest(H, m1, n1) + HashedForManifest(H, m2, n2);
    if InjectiveOn(H, s) {
      var x, y := RootBytes(H, m1, n1), RootBytes(H, m2, n2);
      assert x in s && y in s && x == y;
      MetaComplete(m1, PutHash(Identity(H, n1), []));
      MetaComplete(m2, PutHash(Identity(H, n2), []));
      assert GetHash(PutHash(Identity(H, n1), [])) == GetHash(PutHash(Identity(H, n2), []));
      NodeBinding(H, n1, n2, 0, s);
    }
  }

  // -------------------------------------------------------------------- order

  /** The same metadata, its extended attributes in any order. */
  ghost predicate MetaReordered(a: NodeMeta, b: NodeMeta) {
    && b == a.(xattrs := b.xattrs)
    && multiset(a.xattrs) == multiset(b.xattrs)
    && DistinctKeys(a.xattrs, XattrName) && DistinctKeys(b.xattrs, XattrName)
  }

  /** The same tree, the distinct-named entries of every directory in any order. */
  ghost predicate Reordered(a: Node, b: Node)
    decreases a
  {
    if a.File? then a == b else
    && b.Directory?
    && |a.entries| == |b.entries|
    && DistinctKeys(a.entries, EntryName) && DistinctKeys(b.entries, EntryName)
    && KeysWithin(a.entries, b.entries, EntryName) && KeysWithin(b.entries, a.entries, EntryName)
    && forall i, j :: 0 <= i < |a.entries| && 0 <= j < |b.entries| && a.entries[i].name == b.entries[j].name ==>
      MetaReordered(a.entries[i].meta, b.entries[j].meta) && Reordered(a.entries[i].node, b.entries[j].node)
  }

  lemma {:induction false} MetaReorderedSameBytes(a: NodeMeta, b: NodeMeta, rest: Bytes)
    requires MetaReordered(a, b)
    ensures PutMeta(a, rest) == PutMeta(b, rest)
  {
    hide PutU64, PutU32, PutI64, PutXattrs, SortBy;
    SortOfPermutation(a.xattrs, b.xattrs, XattrName);
    assert |multiset(a.xattrs)| == |multiset(b.xattrs)|;
  }

  /** The entries of `es` and `fs` at each place are one entry, reordered below. */
  ghost predicate Paired(a: Node, es: seq<Entry>, b: Node, fs: seq<Entry>) {
    && EntriesOf(a, es) && EntriesOf(b, fs) && |es| == |fs|
    && forall i :: 0 <= i < |es| ==>
      es[i].name == fs[i].name && MetaReordered(es[i].meta, fs[i].meta) && Reordered(es[i].node, fs[i].node)
  }

  lemma {:induction false} SortedArePaired(a: Node, b: Node)
    requires a.Directory? && Reordered(a, b)
    ensures Paired(a, SortBy(a.entries, EntryName), b, SortBy(b.entries, EntryName))
  {
    hide SortBy, MetaReordered;
    var es, fs := SortBy(a.entries, EntryName), SortBy(b.entries, EntryName);
    SortIncreasing(a.entries, EntryName);
    SortIncreasing(b.entries, EntryName);
    WithinIfMembers(es, a.entries, EntryName);
    WithinIfMembers(b.entries, fs, EntryName);
    WithinTransitive(es, a.entries, b.entries, EntryName);
    WithinTransitive(es, b.entries, fs, EntryName);
    WithinIfMembers(fs, b.entries, EntryName);
    WithinIfMembers(a.entries, es, EntryName);
    WithinTransitive(fs, b.entries, a.entries, EntryName);
    WithinTransitive(fs, a.entries, es, EntryName);
    SameKeysSamePlaces(es, fs, EntryName);
    forall k | 0 <= k < |es|
      ensures es[k].name == fs[k].name && MetaReordered(es[k].meta, fs[k].meta) && Reordered(es[k].node, fs[k].node)
    {
      assert EntryName(es[k]) == EntryName(fs[k]);
      assert es[k] in a.entries && fs[k] in b.entries;
      var i :| 0 <= i < |a.entries| && a.entries[i] == es[k];
      var j :| 0 <= j < |b.entries| && b.entries[j] == fs[k];
      assert a.entries[i].name == b.entries[j].name;
    }
  }

  /** Reordering entries or attributes anywhere changes neither the identity nor the stored bytes. */
  lemma {:induction false} ReorderedSameIdentity(H: Hasher, a: Node, b: Node, rest: Bytes)
    requires Reordered(a, b)
    ensures Identity(H, a) == Identity(H, b)
    ensures PutNode(a, rest) == PutNode(b, rest)
    decreases a, 1, 0
  {
    hide PutExtentList, PutU64, SortBy, MerkleEntries, PutEntries, Paired;
    if a.Directory? {
      var es, fs := SortBy(a.entries, EntryName), SortBy(b.entries, EntryName);
      SortedArePaired(a, b);
      PairedSameBytes(H, a, es, b, fs, rest);
    }
  }

  lemma {:induction false} PairedSameBytes(H: Hasher, a: Node, es: seq<Entry>, b: Node, fs: seq<Entry>, rest: Bytes)
    requires Paired(a, es, b, fs)
    ensures EntriesOf(a, es) && EntriesOf(b, fs)
    ensures MerkleEntries(H, a, es) == MerkleEntries(H, b, fs)
    ensures PutEntries(a, es, rest) == PutEntries(b, fs, rest)
    decreases a, 0, |es|
  {
    hide PutHash, PutMeta, PutNode, MerkleBytes, MetaReordered, Reordered, PutU32, PutRaw;
    if es != [] {
      assert es[0] in a.entries;
      ghost var tail := PutEntries(a, es[1..], rest);
      PairedSameBytes(H, a, es[1..], b, fs[1..], rest);
      ReorderedSameIdentity(H, es[0].node, fs[0].node, tail);
      assert Identity(H, es[0].node) == Identity(H, fs[0].node);
      MetaReorderedSameBytes(es[0].meta, fs[0].meta, PutNode(es[0].node, tail));
      MetaReorderedSameBytes(es[0].meta, fs[0].meta,
        PutHash(H(MerkleBytes(H, es[0].node)), MerkleEntries(H, a, es[1..])));
    }
  }

  /** Distinct names in every directory and every attribute list. */
  ghost predicate DistinctTree(n: Node)
    decreases n
  {
    n.File? ||
    (DistinctKeys(n.entries, EntryName) &&
     forall i :: 0 <= i < |n.entries| ==>
       DistinctKeys(n.entries[i].meta.xattrs, XattrName) && DistinctTree(n.entries[i].node))
  }

  lemma {:induction false} ReorderedReflexive(n: Node)
    requires DistinctTree(n)
    ensures Reordered(n, n)
  {
    if n.Directory? {
      WithinIfMembers(n.entries, n.entries, EntryName);
      forall i, j | 0 <= i < |n.entries| && 0 <= j < |n.entries| && n.entries[i].name == n.entries[j].name
        ensures MetaReordered(n.entries[i].meta, n.entries[j].meta) && Reordered(n.entries[i].node, n.entries[j].node)
      {
        assert EntryName(n.entries[i]) == EntryName(n.entries[j]);
        assert i == j;
        ReorderedReflexive(n.entries[i].node);
      }
    }
  }

  /** Any permutation of one directory's entries is a reordering. */
  lemma {:induction false} PermutationIsReordering(es: seq<Entry>, fs: seq<Entry>)
    requires DistinctTree(Directory(es)) && DistinctKeys(fs, EntryName)
    requires multiset(es) == multiset(fs)
    ensures Reordered(Directory(es), Directory(fs))
  {
    MultisetFacts(es, fs);
    WithinIfMembers(es, fs, EntryName);
    WithinIfMembers(fs, es, EntryName);
    forall i, j | 0 <= i < |es| && 0 <= j < |fs| && es[i].name == fs[j].name
      ensures MetaReordered(es[i].meta, fs[j].meta) && Reordered(es[i].node, fs[j].node)
    {
      assert fs[j] in es;
      var k :| 0 <= k < |es| && es[k] == fs[j];
      assert EntryName(es[i]) == EntryName(es[k]);
      assert i == k;
      ReorderedReflexive(es[i].node);
    }
  }
}
