// The manifest reader as the code runs it (crates/archive/src/manifest.rs): loops
// over a cursor and an explicit stack of open directories, proved equal to the
// recursive grammar of Manifest.dfy; and the walk that lists referenced chunks.

module ManifestReader {
  import opened Wire
  import opened Sorting
  import opened Manifest

  method ReadExtents(b: Bytes) returns (r: Read<seq<Extent>>)
    ensures r == GetExtentList(b)
  {
    hide GetU64, GetExtent;
    var head :- GetU64(b);
    var count, cur := head.0, head.1;
    if count > |cur| / EXTENT_BYTES {
      return Refused(BadNode);
    }
    var extents := [];
    for i := 0 to count
      invariant GetExtentList(b) == GetExtents(cur, count - i, extents)
    {
      var one :- GetExtent(cur);
      extents, cur := extents + [one.0], one.1;
    }
    return Got(extents, cur);
  }

  /** One extended attribute after those in `done`. */
  method ReadXattr(b: Bytes, done: seq<Xattr>) returns (r: Read<Xattr>)
    ensures r == GetXattr(b, done)
  {
    hide GetU32, GetRaw, GetExtentList, Tiles, Less;
    var head :- GetU32(b);
    if head.0 == 0 || head.0 > XATTR_NAME_MAX_BYTES {
      return Refused(BadXattr);
    }
    var name :- GetRaw(head.1, head.0);
    if 0 in name.0 || (done != [] && !Less(done[|done| - 1].name, name.0)) {
      return Refused(BadXattr);
    }
    var listed := ReadExtents(name.1);
    var extents :- listed;
    var tiled := ComputeTiledLength(extents.0);
    if tiled.Err? {
      return Refused(BadExtents);
    }
    return Got(Xattr(name.0, extents.0), extents.1);
  }

  method ReadXattrs(b: Bytes) returns (r: Read<seq<Xattr>>)
    ensures r == GetXattrList(b)
  {
    hide GetU32, GetXattr;
    var head :- GetU32(b);
    var count, cur := head.0, head.1;
    if count > |cur| / MIN_XATTR_BYTES {
      return Refused(BadNode);
    }
    var xattrs := [];
    for i := 0 to count
      invariant GetXattrList(b) == GetXattrs(cur, count - i, xattrs)
    {
      var read := ReadXattr(cur, xattrs);
      var one :- read;
      xattrs, cur := xattrs + [one.0], one.1;
    }
    return Got(xattrs, cur);
  }

  method ReadMeta(b: Bytes) returns (r: Read<NodeMeta>)
    ensures r == GetMeta(b)
  {
    hide GetFixed, GetXattrList;
    var fixed :- GetFixed(b);
    var read := ReadXattrs(fixed.1);
    var xattrs :- read;
    return Got(fixed.0.(xattrs := xattrs.0), xattrs.1);
  }

  method ReadHeader(b: Bytes) returns (r: Read<Header>)
    ensures r == GetHeader(b)
  {
    hide GetU64, GetExtentList;
    var kind :- GetU8(b);
    if kind.0 != KIND_DIRECTORY && kind.0 != KIND_FILE {
      return Refused(BadKind(kind.0));
    }
    if kind.0 == KIND_FILE {
      var read := ReadExtents(kind.1);
      var extents :- read;
      return Got(FileHeader(extents.0), extents.1);
    }
    var count :- GetU64(kind.1);
    if count.0 > |count.1| / MIN_ENTRY_BYTES {
      return Refused(BadNode);
    }
    return Got(DirectoryHeader(count.0), count.1);
  }

  method ReadEntryHeader(b: Bytes, done: seq<Entry>) returns (r: Read<Named>)
    ensures r == GetEntryHeader(b, done)
  {
    hide GetU32, GetRaw, GetMeta, Utf8, ValidComponent, Less;
    var nameLen :- GetU32(b);
    var name :- GetRaw(nameLen.1, nameLen.0);
    if !Utf8(name.0) {
      return Refused(BadNode);
    }
    if !ValidComponent(name.0) {
      return Refused(BadName);
    }
    if done != [] && !Less(done[|done| - 1].name, name.0) {
      return Refused(Unordered);
    }
    var read := ReadMeta(name.1);
    var meta :- read;
    return Got(Named(name.0, meta.0), meta.1);
  }

  /** A directory being read: the header naming it, the entries read so far and how many remain. */
  datatype Open = Open(named: Option<Named>, entries: seq<Entry>, remaining: nat)

  function Push(s: seq<Open>, o: Open): seq<Open> { s + [o] }

  function Pop(s: seq<Open>): seq<Open>
    requires s != []
  {
    s[..|s| - 1]
  }

  function Top(s: seq<Open>): Open
    requires s != []
  {
    s[|s| - 1]
  }

  function Attach(open: Open, named: Named, node: Node): Open {
    open.(entries := open.entries + [Entry(named.name, named.meta, node)],
          remaining := if open.remaining == 0 then 0 else open.remaining - 1)
  }

  /** What the grammar makes of the rest once `node`, named `named`, is complete below `stack`. */
  ghost function AfterNode(stack: seq<Open>, named: Option<Named>, node: Node, b: Bytes): Read<Node>
    decreases |stack|, 0
  {
    if named.None? then Got(node, b)
    else if stack == [] then Refused(BadNode)
    else InDirectory(Pop(stack), Attach(Top(stack), named.value, node), b)
  }

  /** What the grammar makes of the rest inside the directory `open` on top of `below`. */
  ghost function InDirectory(below: seq<Open>, open: Open, b: Bytes): Read<Node>
    decreases |below|, 1
  {
    match GetEntries(b, open.remaining, open.entries, |below| + 1)
    case Refused(error) => Refused(error)
    case Got(entries, rest) => AfterNode(below, open.named, Directory(entries), rest)
  }

  /** What the grammar makes of the rest with the next node, named `named`, still to be read. */
  ghost function AtNode(stack: seq<Open>, named: Option<Named>, b: Bytes): Read<Node> {
    match GetNode(b, named, |stack|)
    case Refused(error) => Refused(error)
    case Got(node, rest) => AfterNode(stack, named, node, rest)
  }

  /** A header just read begins a directory: the rest is what the grammar makes of its entries. */
  lemma {:induction false} OpensDirectory(stack: seq<Open>, named: Option<Named>, b: Bytes)
    requires GetHeader(b).Got? && GetHeader(b).value.DirectoryHeader?
    ensures AtNode(stack, named, b)
      == InDirectory(stack, Open(named, [], GetHeader(b).value.count), GetHeader(b).rest)
  {
    hide GetHeader, GetEntries, AfterNode;
  }

  lemma {:induction false} EntriesStep(b: Bytes, n: nat, done: seq<Entry>, open: nat)
    requires n > 0 && open <= MAX_DEPTH && GetEntryHeader(b, done).Got?
    ensures var h := GetEntryHeader(b, done);
      GetEntries(b, n, done, open) ==
        match GetNode(h.rest, Some(h.value), open)
        case Refused(error) => Refused(error)
        case Got(node, b2) =>
          GetEntries(b2, n - 1, done + [Entry(h.value.name, h.value.meta, node)], open)
  {
    hide GetEntryHeader, GetNode;
  }

  lemma {:induction false} AttachesTo(below: seq<Open>, open: Open, named: Named, node: Node, b: Bytes)
    ensures AfterNode(below + [open], Some(named), node, b) == InDirectory(below, Attach(open, named, node), b)
  {
    hide InDirectory;
    var stack := below + [open];
    assert Pop(stack) == below && Top(stack) == open;
  }

  /** An entry header just read: the rest is what the grammar makes of the node it names. */
  lemma {:induction false} EntersEntry(below: seq<Open>, open: Open, b: Bytes)
    requires open.remaining > 0 && |below| + 1 <= MAX_DEPTH
    requires GetEntryHeader(b, open.entries).Got?
    ensures var h := GetEntryHeader(b, open.entries);
      InDirectory(below, open, b) == AtNode(below + [open], Some(h.value), h.rest)
  {
    hide GetEntryHeader, GetNode, GetEntries, AfterNode;
    var h := GetEntryHeader(b, open.entries);
    EntriesStep(b, open.remaining, open.entries, |below| + 1);
    var c := GetNode(h.rest, Some(h.value), |below| + 1);
    if c.Got? {
      AttachesTo(below, open, h.value, c.value, c.rest);
    }
  }

  /** A node without a name is the whole tree. */
  lemma {:induction false} RootDone(stack: seq<Open>, node: Node, b: Bytes)
    ensures AfterNode(stack, None, node, b) == Got(node, b)
  {
  }

  /** What a directory decides before its next entry is read: it is complete, too deep, or the entry is refused. */
  lemma {:induction false} DirectoryDecides(below: seq<Open>, open: Open, b: Bytes)
    ensures open.remaining == 0 ==>
      InDirectory(below, open, b) == AfterNode(below, open.named, Directory(open.entries), b)
    ensures open.remaining > 0 && |below| + 1 > MAX_DEPTH ==> InDirectory(below, open, b) == Refused(TooDeep)
    ensures open.remaining > 0 && |below| + 1 <= MAX_DEPTH && GetEntryHeader(b, open.entries).Refused? ==>
      InDirectory(below, open, b) == Refused(GetEntryHeader(b, open.entries).error)
  {
    hide GetEntryHeader, GetEntries, AfterNode;
    EntriesOfDirectory(b, open.remaining, open.entries, |below| + 1);
  }

  /** What the attaching loop ends with: the tree, a refusal, or the next entry to read. */
  datatype Next = Finished(answer: Read<Node>) | AtEntry(stack: seq<Open>, named: Named, cur: Bytes)

  /**
   * The inner loop of `read_tree`: attaches what completed to its parent, closing every directory
   * whose entries are all read, then reads the next entry header of the innermost one still open.
   */
  method NextEntry(stack0: seq<Open>, completed0: Option<(Option<Named>, Node)>, cur: Bytes, ghost answer: Read<Node>)
    returns (next: Next)
    requires Rooted(stack0)
    requires completed0.Some? ==>
      && (completed0.value.0.None? <==> stack0 == [])
      && AfterNode(stack0, completed0.value.0, completed0.value.1, cur) == answer
    requires completed0.None? ==> stack0 != [] && InDirectory(Pop(stack0), Top(stack0), cur) == answer
    ensures next.Finished? ==> next.answer == answer
    ensures next.AtEntry? ==>
      && next.stack != [] && Rooted(next.stack) && |next.cur| < |cur|
      && AtNode(next.stack, Some(next.named), next.cur) == answer
  {
    hide GetEntryHeader, GetEntries, AtNode, InDirectory, AfterNode;
    var stack, completed := stack0, completed0;
    while true
      invariant completed.Some? ==>
        && (completed.value.0.None? <==> stack == [])
        && AfterNode(stack, completed.value.0, completed.value.1, cur) == answer
      invariant completed.None? ==> stack != [] && InDirectory(Pop(stack), Top(stack), cur) == answer
      invariant Rooted(stack)
      decreases |stack|, completed.Some?
    {
      if completed.Some? {
        var (entry, node) := completed.value;
        RootDone(stack, node, cur);
        if entry.None? {
          return Finished(Got(node, cur));
        }
        var below, open := Pop(stack), Top(stack);
        assert stack == below + [open];
        AttachesTo(below, open, entry.value, node, cur);
        stack := Push(below, Attach(open, entry.value, node));
        assert Pop(stack) == below;
        completed := None;
      }
      var open := Top(stack);
      DirectoryDecides(Pop(stack), open, cur);
      if open.remaining > 0 {
        if |stack| > MAX_DEPTH {
          return Finished(Refused(TooDeep));
        }
        var read := ReadEntryHeader(cur, open.entries);
        if read.Refused? {
          return Finished(Refused(read.error));
        }
        EntersEntry(Pop(stack), open, cur);
        EntryHeaderShrinks(cur, open.entries);
        assert Pop(stack) + [open] == stack;
        return AtEntry(stack, read.value, read.rest);
      }
      stack := Pop(stack);
      completed := Some((open.named, Directory(open.entries)));
    }
  }

  /** `read_tree`: the explicit-stack reader computes the recursive grammar, refusal for refusal. */
  method ReadTree(b: Bytes) returns (r: Read<Node>)
    ensures r == GetNode(b, None, 0)
  {
    hide GetHeader, GetNode, InDirectory, AtNode, AfterNode, TiledLength;
    NothingOpen(b);
    var stack: seq<Open> := [];
    var named: Option<Named> := None;
    var cur := b;
    ghost var answer := GetNode(b, None, 0);
    while true
      invariant AtNode(stack, named, cur) == answer
      invariant named.None? <==> stack == []
      invariant Rooted(stack)
      decreases |cur|
    {
      HeaderShrinks(cur);
      HeaderDecides(stack, named, cur);
      var read := ReadHeader(cur);
      var header :- read;
      var completed: Option<(Option<Named>, Node)>;
      match header.0 {
        case FileHeader(extents) =>
          var length := ComputeTiledLength(extents);
          if length.Err? {
            return Refused(BadExtents);
          }
          if named.Some? && named.value.meta.size != length.value {
            return Refused(SizeMismatch);
          }
          completed := Some((named, File(extents)));
        case DirectoryHeader(count) =>
          OpensDirectory(stack, named, cur);
          ghost var below := stack;
          stack := Push(stack, Open(named, [], count));
          assert Pop(stack) == below;
          completed := None;
      }
      var next := NextEntry(stack, completed, header.1, answer);
      if next.Finished? {
        return next.answer;
      }
      stack, named, cur := next.stack, Some(next.named), next.cur;
    }
  }

  lemma {:induction false} NothingOpen(b: Bytes)
    ensures AtNode([], None, b) == GetNode(b, None, 0)
  {
    hide GetNode;
  }

  /** What the header of the next node decides: a refusal, or a file that completes. */
  lemma {:induction false} HeaderDecides(stack: seq<Open>, named: Option<Named>, b: Bytes)
    ensures GetHeader(b).Refused? ==> AtNode(stack, named, b) == Refused(GetHeader(b).error)
    ensures GetHeader(b).Got? && GetHeader(b).value.FileHeader? ==>
      var es := GetHeader(b).value.extents;
      AtNode(stack, named, b) ==
        if TiledLength(es).Err? then Refused(BadExtents)
        else if named.Some? && named.value.meta.size != TiledLength(es).value then Refused(SizeMismatch)
        else AfterNode(stack, named, File(es), GetHeader(b).rest)
  {
    hide GetHeader, GetNode, AfterNode, Tiles;
    NodeOfHeader(b, named, |stack|);
  }

  /** Only the bottom directory is unnamed. */
  ghost predicate Rooted(stack: seq<Open>) {
    forall i :: 0 <= i < |stack| ==> (stack[i].named.None? <==> i == 0)
  }

  /** The grammar's choice at a node, from its header alone. */
  lemma {:induction false} NodeOfHeader(b: Bytes, named: Option<Named>, open: nat)
    ensures GetHeader(b).Refused? ==> GetNode(b, named, open) == Refused(GetHeader(b).error)
    ensures GetHeader(b).Got? && GetHeader(b).value.FileHeader? ==>
      var h := GetHeader(b);
      GetNode(b, named, open) ==
        match CheckFile(h.value.extents, named)
        case Err(error) => Refused(error)
        case Ok(node) => Got(node, h.rest)
  {
    hide GetHeader, GetEntries, CheckFile;
  }

  /** The grammar's choice inside a directory. */
  lemma {:induction false} EntriesOfDirectory(b: Bytes, n: nat, done: seq<Entry>, open: nat)
    ensures n == 0 ==> GetEntries(b, n, done, open) == Got(done, b)
    ensures n > 0 && open > MAX_DEPTH ==> GetEntries(b, n, done, open) == Refused(TooDeep)
    ensures n > 0 && open <= MAX_DEPTH && GetEntryHeader(b, done).Refused? ==>
      GetEntries(b, n, done, open) == Refused(GetEntryHeader(b, done).error)
  {
    hide GetEntryHeader, GetNode;
  }

  /** `Node::decode`. */
  method Decode(b: Bytes) returns (r: Result<Node>)
    ensures r == Decoded(b)
    ensures r.Ok? ==> Canonical(r.value) && b == Encode(r.value)
    ensures forall n :: Canonical(n) && b == Encode(n) ==> r == Ok(n)
  {
    hide GetNode, Canonical, Encode;
    forall n ensures Decoded(b) == Ok(n) <==> Canonical(n) && b == Encode(n) {
      DecodeIffCanonicalEncoding(b, n);
    }
    var tree := ReadTree(b);
    match tree {
      case Refused(error) => return Err(error);
      case Got(node, rest) =>
        if rest != [] {
          return Err(TrailingBytes);
        }
        return Ok(node);
    }
  }

  // ------------------------------------------------------- referenced chunks

  /** The value extents of a node's extended attributes, in order. */
  function XattrExtents(xs: seq<Xattr>): seq<Extent> {
    if xs == [] then [] else xs[0].extents + XattrExtents(xs[1..])
  }

  function MetaExtents(es: seq<Entry>): seq<Extent> {
    if es == [] then [] else XattrExtents(es[0].meta.xattrs) + MetaExtents(es[1..])
  }

  /** Every extent of a tree in visiting order: a directory's attribute values, then its children. */
  function TreeExtents(n: Node): seq<Extent>
    decreases n, 1, 0
  {
    if n.File? then n.extents else MetaExtents(n.entries) + ChildExtents(n, n.entries)
  }

  function ChildExtents(ghost parent: Node, es: seq<Entry>): seq<Extent>
    requires EntriesOf(parent, es)
    decreases parent, 0, |es|
  {
    if es == [] then [] else
    assert es[0] in parent.entries;
    TreeExtents(es[0].node) + ChildExtents(parent, es[1..])
  }

  /** Every extent an archive's manifest names: the root's attribute values, then the tree's. */
  function AllExtents(rootMeta: NodeMeta, root: Node): seq<Extent> {
    XattrExtents(rootMeta.xattrs) + TreeExtents(root)
  }

  /** The distinct chunks of `es`, holes apart, in order of first reference. */
  function Distinct(es: seq<Extent>): seq<Hash> {
    if es == [] then [] else
    var before := Distinct(es[..|es| - 1]);
    var c := es[|es| - 1].chunk;
    if c == HOLE || c in before then before else before + [c]
  }

  predicate Names(es: seq<Extent>, c: Hash) {
    exists i :: 0 <= i < |es| && es[i].chunk == c
  }

  /** Each chunk an extent names is listed once, and nothing else is. */
  lemma {:induction false} DistinctListsEachOnce(es: seq<Extent>)
    ensures forall c :: c in Distinct(es) <==> c != HOLE && Names(es, c)
    ensures forall i, j :: 0 <= i < j < |Distinct(es)| ==> Distinct(es)[i] != Distinct(es)[j]
  {
    if es != [] {
      var front := es[..|es| - 1];
      DistinctListsEachOnce(front);
      forall c ensures c in Distinct(es) <==> c != HOLE && Names(es, c) {
        if Names(front, c) {
          var i :| 0 <= i < |front| && front[i].chunk == c;
          assert es[i].chunk == c;
        }
        if Names(es, c) && c != es[|es| - 1].chunk {
          var i :| 0 <= i < |es| && es[i].chunk == c;
          assert front[i].chunk == c;
        }
      }
    }
  }

  lemma {:induction false} DistinctSnoc(done: seq<Extent>, e: Extent)
    ensures Distinct([]) == []
    ensures Distinct(done + [e]) ==
      if e.chunk == HOLE || e.chunk in Distinct(done) then Distinct(done) else Distinct(done) + [e.chunk]
  {
    assert (done + [e])[..|done|] == done;
  }

  /** The walk's accumulators after the extents `done`. */
  ghost predicate Taken(done: seq<Extent>, seen: set<Hash>, out: seq<Hash>) {
    out == Distinct(done) && forall c :: c in seen <==> c in out
  }

  method TakeChunks(es: seq<Extent>, ghost done: seq<Extent>, seen: set<Hash>, out: seq<Hash>)
    returns (seen': set<Hash>, out': seq<Hash>)
    requires Taken(done, seen, out)
    ensures Taken(done + es, seen', out')
  {
    hide Distinct;
    seen', out' := seen, out;
    assert done + es[..0] == done;
    for i := 0 to |es|
      invariant Taken(done + es[..i], seen', out')
    {
      DistinctSnoc(done + es[..i], es[i]);
      assert done + es[..i + 1] == done + es[..i] + [es[i]];
      if es[i].chunk != HOLE && es[i].chunk !in seen' {
        seen', out' := seen' + {es[i].chunk}, out' + [es[i].chunk];
      }
    }
    assert es[..|es|] == es;
  }

  method TakeXattrs(xs: seq<Xattr>, ghost done: seq<Extent>, seen: set<Hash>, out: seq<Hash>)
    returns (seen': set<Hash>, out': seq<Hash>)
    requires Taken(done, seen, out)
    ensures Taken(done + XattrExtents(xs), seen', out')
  {
    hide Taken;
    seen', out' := seen, out;
    assert done + XattrExtents(xs[..0]) == done;
    for i := 0 to |xs|
      invariant Taken(done + XattrExtents(xs[..i]), seen', out')
    {
      seen', out' := TakeChunks(xs[i].extents, done + XattrExtents(xs[..i]), seen', out');
      XattrExtentsSnoc(xs, i);
      assert done + XattrExtents(xs[..i + 1]) == done + XattrExtents(xs[..i]) + xs[i].extents;
    }
    assert xs[..|xs|] == xs;
  }

  /** The extents still to visit, the top of the stack first. */
  ghost function PendingExtents(pending: seq<Node>): seq<Extent> {
    if pending == [] then []
    else TreeExtents(pending[|pending| - 1]) + PendingExtents(pending[..|pending| - 1])
  }

  ghost function TreeSize(n: Node): nat
    decreases n, 1, 0
  {
    if n.File? then 1 else 1 + EntriesSize(n, n.entries)
  }

  ghost function EntriesSize(parent: Node, es: seq<Entry>): nat
    requires EntriesOf(parent, es)
    decreases parent, 0, |es|
  {
    if es == [] then 0 else
    assert es[0] in parent.entries;
    TreeSize(es[0].node) + EntriesSize(parent, es[1..])
  }

  ghost function PendingSize(pending: seq<Node>): nat {
    if pending == [] then 0
    else TreeSize(pending[|pending| - 1]) + PendingSize(pending[..|pending| - 1])
  }

  /** Pushes a directory's children in reverse, so they are visited in their order. */
  method PushChildren(node: Node, below: seq<Node>) returns (pending: seq<Node>)
    requires node.Directory?
    ensures PendingExtents(pending) == ChildExtents(node, node.entries) + PendingExtents(below)
    ensures PendingSize(pending) == EntriesSize(node, node.entries) + PendingSize(below)
  {
    hide TreeExtents, TreeSize;
    pending := below;
    var k := |node.entries|;
    assert node.entries[k..] == [];
    while k > 0
      invariant 0 <= k <= |node.entries|
      invariant PendingExtents(pending) == ChildExtents(node, node.entries[k..]) + PendingExtents(below)
      invariant PendingSize(pending) == EntriesSize(node, node.entries[k..]) + PendingSize(below)
    {
      k := k - 1;
      ghost var tail := node.entries[k..];
      assert tail[0] == node.entries[k] && tail[1..] == node.entries[k + 1..];
      ghost var was := pending;
      pending := pending + [node.entries[k].node];
      assert pending[..|pending| - 1] == was;
    }
    assert node.entries[0..] == node.entries;
  }

  /** `referenced_chunks`: the explicit-stack walk visits the tree in the recursive order. */
  method ReferencedChunks(rootMeta: NodeMeta, root: Node) returns (out: seq<Hash>)
    ensures out == Distinct(AllExtents(rootMeta, root))
  {
    hide Distinct, TreeExtents, TreeSize, PendingExtents, PendingSize, ChildExtents, EntriesSize, Taken, XattrExtents,
      MetaExtents;
    var seen: set<Hash> := {};
    NothingTaken();
    NoMetaExtents();
    ghost var done := XattrExtents(rootMeta.xattrs);
    ghost var all := AllExtents(rootMeta, root);
    seen, out := TakeXattrs(rootMeta.xattrs, [], seen, []);
    assert [] + done == done;
    var pending := [root];
    PendingTop(pending);
    while pending != []
      invariant done + PendingExtents(pending) == all
      invariant Taken(done, seen, out)
      decreases PendingSize(pending)
    {
      var node := pending[|pending| - 1];
      PendingTop(pending);
      TreeExtentsOf(node);
      pending := pending[..|pending| - 1];
      if node.File? {
        seen, out := TakeChunks(node.extents, done, seen, out);
        assert done + node.extents + PendingExtents(pending) == all;
        done := done + node.extents;
      } else {
        ghost var below := pending;
        pending := PushChildren(node, pending);
        ghost var before := done;
        assert done + MetaExtents(node.entries[..0]) == done;
        for i := 0 to |node.entries|
          invariant done == before + MetaExtents(node.entries[..i])
          invariant Taken(done, seen, out)
        {
          var xattrs := node.entries[i].meta.xattrs;
          seen, out := TakeXattrs(xattrs, done, seen, out);
          MetaExtentsSnoc(node.entries, i);
          done := done + XattrExtents(xattrs);
        }
        assert node.entries[..|node.entries|] == node.entries;
        assert done + PendingExtents(pending) == all;
      }
    }
    PendingTop([]);
    assert done + [] == done;
    TakenIsDistinct(done, seen, out);
  }

  lemma {:induction false} NothingTaken()
    ensures Taken([], {}, [])
  {
    DistinctSnoc([], Extent(0, 0, HOLE, 0));
  }

  lemma {:induction false} TakenIsDistinct(done: seq<Extent>, seen: set<Hash>, out: seq<Hash>)
    requires Taken(done, seen, out)
    ensures out == Distinct(done)
  {
  }

  lemma {:induction false} NoMetaExtents()
    ensures MetaExtents([]) == []
  {
  }

  lemma {:induction false} PendingTop(pending: seq<Node>)
    ensures PendingExtents([]) == []
    ensures pending != [] ==>
      var top, below := pending[|pending| - 1], pending[..|pending| - 1];
      && PendingExtents(pending) == TreeExtents(top) + PendingExtents(below)
      && PendingSize(pending) == TreeSize(top) + PendingSize(below)
    ensures |pending| == 1 ==> PendingExtents(pending) == TreeExtents(pending[0])
  {
    hide TreeExtents, TreeSize;
  }

  lemma {:induction false} TreeExtentsOf(n: Node)
    ensures n.File? ==> TreeExtents(n) == n.extents && TreeSize(n) == 1
    ensures n.Directory? ==> TreeExtents(n) == MetaExtents(n.entries) + ChildExtents(n, n.entries)
    ensures n.Directory? ==> TreeSize(n) == 1 + EntriesSize(n, n.entries)
  {
  }

  lemma {:induction false} XattrExtentsSnoc(xs: seq<Xattr>, i: nat)
    requires i < |xs|
    ensures XattrExtents(xs[..i + 1]) == XattrExtents(xs[..i]) + xs[i].extents
  {
    if i > 0 {
      XattrExtentsSnoc(xs[1..], i - 1);
      assert xs[..i + 1][1..] == xs[1..][..i] && xs[..i][1..] == xs[1..][..i - 1];
    } else {
      assert xs[..1][1..] == [];
    }
  }

  lemma {:induction false} MetaExtentsSnoc(es: seq<Entry>, i: nat)
    requires i < |es|
    ensures MetaExtents(es[..i + 1]) == MetaExtents(es[..i]) + XattrExtents(es[i].meta.xattrs)
  {
    if i > 0 {
      MetaExtentsSnoc(es[1..], i - 1);
      assert es[..i + 1][1..] == es[1..][..i] && es[..i][1..] == es[1..][..i - 1];
    } else {
      assert es[..1][1..] == [];
    }
  }
}
