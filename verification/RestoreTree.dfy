// What a restore gives back, said by path (crates/archive/src/restore.rs): walking
// the archive's tree by names and looking the joined path up in what was restored
// find the same things, and neither finds anything else.

module RestoreTree {
  import opened Wire
  import opened Sorting
  import opened Manifest
  import opened ManifestReader
  import opened CanonicalForm
  import opened Container
  import opened ContainerProofs
  import opened RestorePlan
  import opened RestorePaths
  import opened RestoreExtents
  import opened Sparse
  import opened Restore

  // -------------------------------------------------------------------- paths

  /** The names from the top down lead to the entry. */
  ghost predicate Leads(n: Node, names: seq<Bytes>, e: Entry)
    decreases n
  {
    n.Directory? && names != [] && exists i :: 0 <= i < |n.entries| && LeadsBy(n.entries[i], names, e)
  }

  /** They do so by this entry first. */
  ghost predicate LeadsBy(first: Entry, names: seq<Bytes>, e: Entry)
    requires names != []
    decreases first
  {
    first.name == names[0] && if |names| == 1 then first == e else Leads(first.node, names[1..], e)
  }

  /** The names with a slash between each two. */
  function Joined(names: seq<Bytes>): Bytes {
    if names == [] then [] else if |names| == 1 then names[0] else names[0] + ['/' as int] + Joined(names[1..])
  }

  /** Down from `path` by the names. */
  function Under(path: Bytes, names: seq<Bytes>): Bytes
    decreases |names|
  {
    if names == [] then path else Under(Child(path, names[0]), names[1..])
  }

  lemma {:induction false} UnderIsJoined(path: Bytes, names: seq<Bytes>)
    requires names != [] && (forall i :: 0 <= i < |names| ==> names[i] != [])
    ensures Under(path, names) == if path == [] then Joined(names) else path + ['/' as int] + Joined(names)
    decreases |names|
  {
    if |names| > 1 {
      UnderIsJoined(Child(path, names[0]), names[1..]);
    } else {
      assert Under(Child(path, names[0]), names[1..]) == Child(path, names[0]);
    }
  }

  /** What an entry at a path says is there. */
  ghost predicate Says(p: Bytes, e: Entry, f: Fact) {
    || f == MetaFact(p, e.meta)
    || (exists x :: 0 <= x < |e.meta.xattrs| && f == BodyFact(XattrBody(p, e.meta.xattrs[x])))
    || (e.node.File? && f == BodyFact(FileBody(p, e.node.extents)))
    || (e.node.Directory? && p != [] && f == DirFact(p))
  }

  /** What a node says of itself. */
  ghost predicate SaysItself(path: Bytes, n: Node, f: Fact) {
    || (n.File? && f == BodyFact(FileBody(path, n.extents)))
    || (n.Directory? && path != [] && f == DirFact(path))
  }

  ghost predicate SaidBelow(path: Bytes, n: Node, f: Fact) {
    exists names, e :: Leads(n, names, e) && Says(Under(path, names), e, f)
  }

  lemma {:induction false} XattrSaid(path: Bytes, xs: seq<Xattr>, f: Fact)
    ensures f in XattrFacts(path, xs) <==> exists x :: 0 <= x < |xs| && f == BodyFact(XattrBody(path, xs[x]))
  {
    if xs != [] {
      var front := xs[..|xs| - 1];
      XattrSaid(path, front, f);
      assert forall x :: 0 <= x < |front| ==> front[x] == xs[x];
    }
  }

  ghost predicate SaidByEntry(path: Bytes, e: Entry, f: Fact) {
    f in EntryOwnFacts(path, e) || f in Facts(Child(path, e.name), e.node)
  }

  lemma {:induction false} EntriesSaid(n: Node, path: Bytes, k: nat, f: Fact)
    requires n.Directory? && k <= |n.entries|
    ensures EntriesOf(n, n.entries[..k])
    ensures f in EntriesFacts(n, path, n.entries[..k]) <==>
      exists i :: 0 <= i < k && SaidByEntry(path, n.entries[i], f)
  {
    hide Facts, EntryOwnFacts, EntriesFacts;
    EntriesStart(n, path);
    if k == 0 {
      assert n.entries[..0] == [];
    } else {
      EntriesSaid(n, path, k - 1, f);
      EntriesSnoc(n, path, k - 1);
      if f in EntriesFacts(n, path, n.entries[..k]) && f !in EntriesFacts(n, path, n.entries[..k - 1]) {
        assert SaidByEntry(path, n.entries[k - 1], f);
      }
    }
  }

  /** The facts of a tree are what its entries say at the paths their names join to, and what it says of itself. */
  lemma {:induction false} FactsAreSaid(path: Bytes, n: Node, f: Fact)
    ensures f in Facts(path, n) <==> SaysItself(path, n, f) || SaidBelow(path, n, f)
    decreases n
  {
    hide EntriesFacts, SaidBelow, SaidByEntry;
    if n.Directory? {
      EntriesSaid(n, path, |n.entries|, f);
      assert n.entries[..|n.entries|] == n.entries;
      if f in EntriesFacts(n, path, n.entries) {
        var i :| 0 <= i < |n.entries| && SaidByEntry(path, n.entries[i], f);
        EntrySaid(path, n.entries[i], f);
        SaidThrough(path, n, i, f);
      }
      if SaidBelow(path, n, f) {
        var i := SaidBy(path, n, f);
        EntrySaid(path, n.entries[i], f);
      }
    } else {
      NothingBelow(path, n, f);
    }
  }

  lemma {:induction false} NothingBelow(path: Bytes, n: Node, f: Fact)
    requires n.File?
    ensures !SaidBelow(path, n, f)
  {
  }

  /** An entry's facts are what it says and what is said below it. */
  lemma {:induction false} EntrySaid(path: Bytes, e: Entry, f: Fact)
    ensures SaidByEntry(path, e, f) <==> Says(Child(path, e.name), e, f) || SaidBelow(Child(path, e.name), e.node, f)
    decreases e
  {
    hide SaidBelow, XattrFacts;
    var c := Child(path, e.name);
    FactsAreSaid(c, e.node, f);
    XattrSaid(c, e.meta.xattrs, f);
  }

  lemma {:induction false} SaidThrough(path: Bytes, n: Node, i: nat, f: Fact)
    requires n.Directory? && i < |n.entries|
    requires Says(Child(path, n.entries[i].name), n.entries[i], f)
      || SaidBelow(Child(path, n.entries[i].name), n.entries[i].node, f)
    ensures SaidBelow(path, n, f)
  {
    hide Says;
    var e := n.entries[i];
    if Says(Child(path, e.name), e, f) {
      var names := [e.name];
      assert LeadsBy(e, names, e) && Leads(n, names, e);
      assert names[1..] == [] && Under(path, names) == Under(Child(path, e.name), []);
    } else {
      var names, d :| Leads(e.node, names, d) && Says(Under(Child(path, e.name), names), d, f);
      var more := [e.name] + names;
      assert more[1..] == names;
      assert LeadsBy(e, more, d) && Leads(n, more, d);
      assert Under(path, more) == Under(Child(path, e.name), names);
    }
  }

  lemma {:induction false} SaidBy(path: Bytes, n: Node, f: Fact) returns (i: nat)
    requires SaidBelow(path, n, f)
    ensures n.Directory? && i < |n.entries|
    ensures Says(Child(path, n.entries[i].name), n.entries[i], f)
      || SaidBelow(Child(path, n.entries[i].name), n.entries[i].node, f)
  {
    hide Says;
    var names, e :| Leads(n, names, e) && Says(Under(path, names), e, f);
    i :| 0 <= i < |n.entries| && LeadsBy(n.entries[i], names, e);
    if |names| == 1 {
      assert names[1..] == [] && Under(path, names) == Under(Child(path, names[0]), []);
    } else {
      assert Under(path, names) == Under(Child(path, names[0]), names[1..]);
      assert Leads(n.entries[i].node, names[1..], e);
      assert Says(Under(Child(path, n.entries[i].name), names[1..]), e, f);
    }
  }

  // -------------------------------------------------------------------- names

  /** Of a canonical tree every name on the way is a name, and there are at most 2048. */
  lemma {:induction false} LedByNames(n: Node, open: nat, names: seq<Bytes>, e: Entry)
    requires NodeCanonical(n, open) && Leads(n, names, e)
    ensures forall i :: 0 <= i < |names| ==> IsName(names[i])
    ensures open + |names| <= 2048
    decreases n
  {
    hide IsName, ValidComponent, Utf8, MetaCanonical, Increasing;
    var i :| 0 <= i < |n.entries| && LeadsBy(n.entries[i], names, e);
    assert EntryCanonical(n.entries[i], open + 1);
    NameIff(names[0]);
    if |names| > 1 {
      LedByNames(n.entries[i].node, open + 1, names[1..], e);
      forall k | 0 <= k < |names| ensures IsName(names[k]) {
        assert k > 0 ==> names[k] == names[1..][k - 1];
      }
    }
  }

  lemma {:induction false} NameFacts(name: Bytes)
    requires IsName(name)
    ensures name != [] && '/' as int !in name && name != ['.' as int] && name != ['.' as int, '.' as int]
    ensures 0 !in name && '\\' as int !in name && |name| <= 255
  {
    NameIff(name);
  }

  /** A joined path gives its names back: two ways to one path are one way. */
  lemma {:induction false} JoinedOnce(a: seq<Bytes>, b: seq<Bytes>)
    requires forall i :: 0 <= i < |a| ==> IsName(a[i])
    requires forall i :: 0 <= i < |b| ==> IsName(b[i])
    requires Joined(a) == Joined(b)
    ensures a == b
    decreases |a|
  {
    hide IsName;
    if a == [] || b == [] {
      JoinedSomething(a);
      JoinedSomething(b);
    } else {
      var x, y := JoinedRest(a), JoinedRest(b);
      FirstOfJoined(a);
      FirstOfJoined(b);
      assert x == Joined(a)[|a[0]|..] && y == Joined(b)[|b[0]|..];
      if |a| > 1 && |b| > 1 {
        assert Joined(a[1..]) == x[1..] && Joined(b[1..]) == y[1..];
        JoinedOnce(a[1..], b[1..]);
      }
      assert a == [a[0]] + a[1..] && b == [b[0]] + b[1..];
    }
  }

  lemma {:induction false} JoinedSomething(a: seq<Bytes>)
    requires forall i :: 0 <= i < |a| ==> IsName(a[i])
    ensures Joined(a) == [] <==> a == []
  {
    hide IsName;
    if a != [] {
      NameFacts(a[0]);
    }
  }

  function JoinedRest(a: seq<Bytes>): Bytes
    requires a != []
  {
    if |a| == 1 then [] else ['/' as int] + Joined(a[1..])
  }

  lemma {:induction false} FirstOfJoined(a: seq<Bytes>)
    requires a != [] && IsName(a[0])
    ensures Joined(a) == a[0] + JoinedRest(a) && ToSlash(Joined(a)) == a[0]
  {
    hide IsName;
    NameFacts(a[0]);
    assert Joined(a) == a[0] + JoinedRest(a);
    ToSlashOfName(a[0], JoinedRest(a));
  }

  // ------------------------------------------------------------- what can plan

  /** A path component: bytes a host takes as one name. */
  predicate OneComponent(name: Bytes) {
    && 1 <= |name| <= 255 && '/' as int !in name && '\\' as int !in name && 0 !in name
    && name != ['.' as int] && name != ['.' as int, '.' as int]
  }

  /** Nothing about an entry keeps a tree from being planned. */
  ghost predicate Plannable(e: Entry) {
    && OneComponent(e.name)
    && (e.node.File? ==> EndToEnd(e.node.extents) && LastEnd(e.node.extents) == e.meta.size)
    && forall x :: 0 <= x < |e.meta.xattrs| ==> EndToEnd(e.meta.xattrs[x].extents)
  }

  lemma {:induction false} EntryPlansIff(e: Entry)
    ensures EntryPlans(e) && (e.node.File? ==> Tiles(e.node.extents)) <==> Plannable(e)
  {
    hide Tiles, EndToEnd;
    if e.node.File? {
      TilesIff(e.node.extents);
    }
    forall x | 0 <= x < |e.meta.xattrs|
      ensures Tiles(e.meta.xattrs[x].extents) <==> EndToEnd(e.meta.xattrs[x].extents)
    {
      TilesIff(e.meta.xattrs[x].extents);
    }
  }

  /** Every entry the tree leads to is plannable. */
  ghost predicate AllBelow(n: Node) { forall names, e :: Leads(n, names, e) ==> Plannable(e) }

  /** A tree plans, but for repeated paths, exactly when every entry in it is plannable. */
  lemma {:induction false} TreePlansIff(n: Node)
    ensures TreePlans(n) <==> (n.File? ==> EndToEnd(n.extents)) && AllBelow(n)
    decreases n
  {
    hide Tiles, EndToEnd, Plannable, EntryPlans, AllBelow;
    if n.File? {
      TilesIff(n.extents);
      NoWay(n);
    } else {
      forall i | 0 <= i < |n.entries|
        ensures EntryPlans(n.entries[i]) && TreePlans(n.entries[i].node) <==>
          Plannable(n.entries[i]) && AllBelow(n.entries[i].node)
      {
        EntryTreePlans(n.entries[i]);
      }
      WaysThrough(n);
    }
  }

  lemma {:induction false} NoWay(n: Node)
    requires n.File?
    ensures AllBelow(n)
  {
  }

  lemma {:induction false} EntryTreePlans(first: Entry)
    ensures EntryPlans(first) && TreePlans(first.node) <==> Plannable(first) && AllBelow(first.node)
    decreases first
  {
    hide Tiles, EndToEnd, AllBelow, EntryPlans, Plannable, TreePlans;
    EntryPlansIff(first);
    TreePlansIff(first.node);
    if first.node.File? {
      TilesIff(first.node.extents);
      if Plannable(first) {
        PlannableFile(first);
      }
    }
  }

  lemma {:induction false} PlannableFile(e: Entry)
    requires Plannable(e) && e.node.File?
    ensures EndToEnd(e.node.extents)
  {
  }

  lemma {:induction false} WaysThrough(n: Node)
    requires n.Directory?
    ensures AllBelow(n) <==>
      forall i :: 0 <= i < |n.entries| ==> Plannable(n.entries[i]) && AllBelow(n.entries[i].node)
  {
    hide Plannable;
    if forall i :: 0 <= i < |n.entries| ==> Plannable(n.entries[i]) && AllBelow(n.entries[i].node) {
      forall names, e | Leads(n, names, e) ensures Plannable(e) {
        var i :| 0 <= i < |n.entries| && LeadsBy(n.entries[i], names, e);
        assert |names| > 1 ==> Leads(n.entries[i].node, names[1..], e);
      }
    }
    if AllBelow(n) {
      forall i | 0 <= i < |n.entries| ensures Plannable(n.entries[i]) && AllBelow(n.entries[i].node) {
        var first := n.entries[i];
        assert LeadsBy(first, [first.name], first) && Leads(n, [first.name], first);
        forall names, e | Leads(first.node, names, e) ensures Plannable(e) {
          var more := [first.name] + names;
          assert more[1..] == names;
          LeadsSomewhere(first.node, names, e);
          assert LeadsBy(first, more, e) && Leads(n, more, e);
        }
      }
    }
  }

  // ----------------------------------------------------------------- restored

  /** The file stands for the bytes its extents read. */
  ghost predicate StandsFor(store: Store, f: RestoredFile, es: seq<Extent>) {
    && f.len == LastEnd(es) && InOrder(f.pieces, f.len)
    && forall d: Bytes :: Represents(f.pieces, d) && |d| == f.len ==> ReadsBytes(store, es, d)
  }

  ghost predicate HasValue(store: Store, v: Restored, p: Bytes, x: Xattr) {
    p in v.xattrs && x.name in v.xattrs[p] && ReadsBytes(store, x.extents, v.xattrs[p][x.name])
  }

  /** Everything an entry says is at the path: its metadata, its attributes, and itself. */
  ghost predicate IsThere(store: Store, v: Restored, p: Bytes, e: Entry) {
    && p in v.metadata && v.metadata[p] == e.meta
    && (forall x :: 0 <= x < |e.meta.xattrs| ==> HasValue(store, v, p, e.meta.xattrs[x]))
    && (e.node.Directory? ==> p in v.directories)
    && (e.node.File? ==> p in v.files && StandsFor(store, v.files[p], e.node.extents))
  }

  ghost predicate RestoredOf(C: Codecs, a: Archive, plan: Plan, v: Restored) {
    && Verified(C, a) && Planned(plan, AllFacts(a.rootMeta, a.manifest)) && IsRestored(C, a, plan, v)
    && AllRead(Contents(C, Index(a.chunks)), AllExtents(a.rootMeta, a.manifest))
  }

  lemma {:induction false} BodyOfFact(C: Codecs, a: Archive, plan: Plan, v: Restored, b: Body)
    requires RestoredOf(C, a, plan, v) && BodyFact(b) in AllFacts(a.rootMeta, a.manifest)
    ensures var store := Contents(C, Index(a.chunks));
      Delivers(store, b, v.files, v.xattrs) && Tiles(b.extents) && b.len == End(b.extents)
      && ReadsBytes(store, b.extents, Materialized(store, b.extents))
  {
    hide AllFacts, Plans, Verified, Index, Contents, AllExtents, OnlyBody, Unfillable, OnlyValues, Distinct, BodiesOk,
      Reads, ReadsBytes, AllRead, Tiles, Delivers, Materialized, End;
    var store := Contents(C, Index(a.chunks));
    AcceptedArchiveRestores(C, a, plan);
    PlannedBodiesOk(a.rootMeta, a.manifest, plan);
    ReadableByPlan(store, a.rootMeta, a.manifest, plan);
    BodyIsPlanned(plan, AllFacts(a.rootMeta, a.manifest), b);
    var i :| 0 <= i < |plan.bodies| && plan.bodies[i] == b;
    BodyReads(store, plan.bodies, i);
    MaterializedReads(store, b.extents);
  }

  lemma {:induction false} FileIsThere(C: Codecs, a: Archive, plan: Plan, v: Restored, p: Bytes, es: seq<Extent>)
    requires RestoredOf(C, a, plan, v) && BodyFact(FileBody(p, es)) in AllFacts(a.rootMeta, a.manifest)
    ensures p in v.files && StandsFor(Contents(C, Index(a.chunks)), v.files[p], es)
  {
    hide AllFacts, Verified, Index, Contents, AllExtents, AllRead, Planned, IsRestored, ReadsBytes, Represents, InOrder,
      EndToEnd, Tiles;
    var b := FileBody(p, es);
    BodyOfFact(C, a, plan, v, b);
    TilesIff(es);
    RestoredBytes(C, a, plan, v, b, []);
    forall d: Bytes | Represents(v.files[p].pieces, d) && |d| == b.len
      ensures ReadsBytes(Contents(C, Index(a.chunks)), es, d)
    {
      RestoredBytes(C, a, plan, v, b, d);
    }
  }

  /** An entry the tree leads to is restored, whole, at the path its names join to. */
  lemma {:induction false} EntryIsRestored(
    C: Codecs, a: Archive, plan: Plan, v: Restored, names: seq<Bytes>, e: Entry)
    requires RestoredOf(C, a, plan, v) && Leads(a.manifest, names, e)
    ensures (forall i :: 0 <= i < |names| ==> IsName(names[i])) && |names| <= 2048
    ensures IsThere(Contents(C, Index(a.chunks)), v, Joined(names), e)
  {
    hide Index, Contents, AllExtents, AllRead, StandsFor, ReadsBytes, IsName, XattrFacts, Facts, Leads, Delivers;
    var store, p := Contents(C, Index(a.chunks)), Joined(names);
    LedByNames(a.manifest, 0, names, e);
    PathOf(names);
    LeadsSomewhere(a.manifest, names, e);
    forall f | Says(p, e, f) ensures f in AllFacts(a.rootMeta, a.manifest) {
      FactsAreSaid([], a.manifest, f);
      assert SaidBelow([], a.manifest, f);
    }
    MetaIsThere(C, a, plan, v, p, e);
    forall x | 0 <= x < |e.meta.xattrs| ensures HasValue(store, v, p, e.meta.xattrs[x]) {
      assert Says(p, e, BodyFact(XattrBody(p, e.meta.xattrs[x])));
      ValueIsThere(C, a, plan, v, p, e.meta.xattrs[x]);
    }
    if e.node.File? {
      assert Says(p, e, BodyFact(FileBody(p, e.node.extents)));
      FileIsThere(C, a, plan, v, p, e.node.extents);
    } else {
      assert Says(p, e, DirFact(p));
    }
  }

  lemma {:induction false} LeadsSomewhere(n: Node, names: seq<Bytes>, e: Entry)
    requires Leads(n, names, e)
    ensures names != []
  {
  }

  lemma {:induction false} PathOf(names: seq<Bytes>)
    requires forall i :: 0 <= i < |names| ==> IsName(names[i])
    ensures names != [] ==> Under([], names) == Joined(names) != []
  {
    hide IsName;
    if names != [] {
      forall i | 0 <= i < |names| ensures names[i] != [] {
        NameFacts(names[i]);
      }
      UnderIsJoined([], names);
      JoinedSomething(names);
    }
  }

  lemma {:induction false} MetaIsThere(C: Codecs, a: Archive, plan: Plan, v: Restored, p: Bytes, e: Entry)
    requires RestoredOf(C, a, plan, v) && MetaFact(p, e.meta) in AllFacts(a.rootMeta, a.manifest)
    ensures p in v.metadata && v.metadata[p] == e.meta
    ensures DirFact(p) in AllFacts(a.rootMeta, a.manifest) ==> p in v.directories
  {
    hide AllFacts, Verified, AllRead, OnlyBody, Delivers, OnlyValues;
  }

  lemma {:induction false} ValueIsThere(C: Codecs, a: Archive, plan: Plan, v: Restored, p: Bytes, x: Xattr)
    requires RestoredOf(C, a, plan, v) && BodyFact(XattrBody(p, x)) in AllFacts(a.rootMeta, a.manifest)
    ensures HasValue(Contents(C, Index(a.chunks)), v, p, x)
  {
    hide AllFacts, Verified, AllRead, Planned, IsRestored, ReadsBytes;
    BodyOfFact(C, a, plan, v, XattrBody(p, x));
  }

  /** The root's own metadata and attributes are restored too, and a root that is a file. */
  lemma {:induction false} RootIsRestored(C: Codecs, a: Archive, plan: Plan, v: Restored)
    requires RestoredOf(C, a, plan, v)
    ensures v.root == a.rootMeta
    ensures var chunk := Contents(C, Index(a.chunks));
      && (forall x :: 0 <= x < |a.rootMeta.xattrs| ==> HasValue(chunk, v, [], a.rootMeta.xattrs[x]))
      && (a.manifest.File? ==> [] in v.files && StandsFor(chunk, v.files[[]], a.manifest.extents))
  {
    hide Index, Contents, AllExtents, AllRead, StandsFor, ReadsBytes, XattrFacts, Facts, Planned, Verified, OnlyBody,
      Delivers, OnlyValues;
    forall x | 0 <= x < |a.rootMeta.xattrs|
      ensures HasValue(Contents(C, Index(a.chunks)), v, [], a.rootMeta.xattrs[x])
    {
      var f := BodyFact(XattrBody([], a.rootMeta.xattrs[x]));
      XattrSaid([], a.rootMeta.xattrs, f);
      assert f in AllFacts(a.rootMeta, a.manifest);
      ValueIsThere(C, a, plan, v, [], a.rootMeta.xattrs[x]);
    }
    if a.manifest.File? {
      var f := BodyFact(FileBody([], a.manifest.extents));
      FactsAreSaid([], a.manifest, f);
      FileIsThere(C, a, plan, v, [], a.manifest.extents);
    }
  }

  // ------------------------------------------------------------ nothing besides

  /** Some names lead to an entry at the path. */
  ghost predicate Reaches(root: Node, p: Bytes, names: seq<Bytes>, e: Entry) {
    Leads(root, names, e) && p == Joined(names)
  }

  lemma {:induction false} SaidInTree(a: Archive, f: Fact)
    requires f in Facts([], a.manifest) && !SaysItself([], a.manifest, f)
    requires Canonical(a.manifest)
    ensures exists names, e :: Leads(a.manifest, names, e) && Says(Joined(names), e, f)
  {
    hide Facts, Leads, Says, SaysItself, IsName;
    FactsAreSaid([], a.manifest, f);
    var names, e :| Leads(a.manifest, names, e) && Says(Under([], names), e, f);
    LedByNames(a.manifest, 0, names, e);
    PathOf(names);
    LeadsSomewhere(a.manifest, names, e);
  }

  /** Whatever path is described, some entry of the tree is there. */
  lemma {:induction false} OnlyEntriesDescribed(C: Codecs, a: Archive, plan: Plan, v: Restored, p: Bytes)
    requires RestoredOf(C, a, plan, v) && p in v.metadata
    ensures exists names, e :: Reaches(a.manifest, p, names, e) && v.metadata[p] == e.meta
  {
    hide Index, Contents, AllExtents, AllRead, Facts, Leads, OnlyBody, Delivers, OnlyValues, MetaCanonical, ChunkOk,
      XattrFacts;
    var f := MetaFact(p, v.metadata[p]);
    XattrSaid([], a.rootMeta.xattrs, f);
    SaidInTree(a, f);
    var names, e :| Leads(a.manifest, names, e) && Says(Joined(names), e, f);
    assert Reaches(a.manifest, p, names, e);
  }

  lemma {:induction false} OnlyDirectoriesRestored(C: Codecs, a: Archive, plan: Plan, v: Restored, p: Bytes)
    requires RestoredOf(C, a, plan, v) && p in v.directories
    ensures exists names, e :: Reaches(a.manifest, p, names, e) && e.node.Directory?
  {
    hide Index, Contents, AllExtents, AllRead, Facts, Leads, OnlyBody, Delivers, OnlyValues, MetaCanonical, ChunkOk,
      XattrFacts;
    var f := DirFact(p);
    XattrSaid([], a.rootMeta.xattrs, f);
    SaidInTree(a, f);
    var names, e :| Leads(a.manifest, names, e) && Says(Joined(names), e, f);
    assert Reaches(a.manifest, p, names, e);
  }

  lemma {:induction false} OnlyFilesRestored(C: Codecs, a: Archive, plan: Plan, v: Restored, p: Bytes)
    requires RestoredOf(C, a, plan, v) && p in v.files
    ensures (p == [] && a.manifest.File?) || exists names, e :: Reaches(a.manifest, p, names, e) && e.node.File?
  {
    hide Index, Contents, AllExtents, AllRead, Facts, Leads, OnlyBody, Delivers, OnlyValues, MetaCanonical, ChunkOk,
      XattrFacts;
    var i :| 0 <= i < |plan.bodies| && plan.bodies[i].target == FileTarget(p);
    var f := BodyFact(plan.bodies[i]);
    assert plan.bodies[i] in multiset(plan.bodies);
    XattrSaid([], a.rootMeta.xattrs, f);
    if !(p == [] && a.manifest.File?) {
      assert !SaysItself([], a.manifest, f);
      SaidInTree(a, f);
      var names, e :| Leads(a.manifest, names, e) && Says(Joined(names), e, f);
      assert Reaches(a.manifest, p, names, e);
    }
  }

  predicate HasAttribute(m: NodeMeta, name: Bytes) { exists x :: 0 <= x < |m.xattrs| && m.xattrs[x].name == name }

  lemma {:induction false} OnlyValuesRestored(C: Codecs, a: Archive, plan: Plan, v: Restored, p: Bytes, name: Bytes)
    requires RestoredOf(C, a, plan, v) && p in v.xattrs && name in v.xattrs[p]
    ensures (p == [] && HasAttribute(a.rootMeta, name)) ||
      exists names, e :: Reaches(a.manifest, p, names, e) && HasAttribute(e.meta, name)
  {
    hide Index, Contents, AllExtents, AllRead, Facts, Leads, OnlyBody, Delivers, MetaCanonical, ChunkOk, XattrFacts;
    var i :| 0 <= i < |plan.bodies| && plan.bodies[i].target == XattrTarget(p, name);
    var f := BodyFact(plan.bodies[i]);
    assert plan.bodies[i] in multiset(plan.bodies);
    XattrSaid([], a.rootMeta.xattrs, f);
    if f !in XattrFacts([], a.rootMeta.xattrs) {
      SaidInTree(a, f);
      var names, e :| Leads(a.manifest, names, e) && Says(Joined(names), e, f);
      assert Reaches(a.manifest, p, names, e);
    }
  }
}
