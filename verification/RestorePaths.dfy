// Every tree the manifest reader accepts can be planned: slash-joined paths of
// valid components are injective, so no path and no restore target repeats.

module RestorePaths {
  import opened Wire
  import opened Sorting
  import opened Manifest
  import opened RestorePlan

  /** What a fact is about: two facts of a canonical tree are never about one thing. */
  datatype Key = MetaKey(path: Bytes) | DirKey(path: Bytes) | FileKey(path: Bytes) | XattrKey(path: Bytes, name: Bytes)

  function KeyOf(f: Fact): Key {
    match f
    case MetaFact(path, _) => MetaKey(path)
    case DirFact(path) => DirKey(path)
    case BodyFact(Body(FileTarget(path), _, _)) => FileKey(path)
    case BodyFact(Body(XattrTarget(path, name), _, _)) => XattrKey(path, name)
  }

  ghost predicate Keyed(facts: multiset<Fact>) {
    && (forall f :: facts[f] <= 1)
    && (forall f, g :: f in facts && g in facts && KeyOf(f) == KeyOf(g) ==> f == g)
  }

  ghost predicate Apart(a: multiset<Fact>, b: multiset<Fact>) {
    forall f, g :: f in a && g in b ==> KeyOf(f) != KeyOf(g)
  }

  lemma {:induction false} KeyedUnion(a: multiset<Fact>, b: multiset<Fact>)
    requires Keyed(a) && Keyed(b) && Apart(a, b)
    ensures Keyed(a + b)
  {
    forall f ensures (a + b)[f] <= 1 {
      assert !(f in a && f in b);
    }
    forall f, g | f in a + b && g in a + b && KeyOf(f) == KeyOf(g) ensures f == g {
      assert (f in a || f in b) && (g in a || g in b);
    }
  }

  lemma {:induction false} KeyedIsMetaDistinct(facts: multiset<Fact>)
    requires Keyed(facts)
    ensures MetaDistinct(facts)
  {
    forall p, m, m' | MetaFact(p, m) in facts && MetaFact(p, m') in facts ensures m == m' {
      assert KeyOf(MetaFact(p, m)) == KeyOf(MetaFact(p, m'));
    }
  }

  // -------------------------------------------------------------------- paths

  /** `p` is a path strictly below `path`. */
  predicate Beneath(path: Bytes, p: Bytes) {
    if path == [] then p != [] else |p| > |path| && p[..|path|] == path && p[|path|] == SLASH
  }

  function ToSlash(b: Bytes): Bytes {
    if b == [] || b[0] == SLASH then [] else [b[0]] + ToSlash(b[1..])
  }

  function Below(path: Bytes, p: Bytes): Bytes
    requires Beneath(path, p)
  {
    if path == [] then p else p[|path| + 1..]
  }

  /** The component of `p` right below `path`. */
  function Component(path: Bytes, p: Bytes): Bytes
    requires Beneath(path, p)
  {
    ToSlash(Below(path, p))
  }

  lemma {:induction false} ToSlashOfName(name: Bytes, rest: Bytes)
    requires SLASH !in name && (rest == [] || rest[0] == SLASH)
    ensures ToSlash(name + rest) == name
  {
    if name == [] {
      assert name + rest == rest;
    } else {
      assert (name + rest)[1..] == name[1..] + rest;
      assert name[0] in name && forall x :: x in name[1..] ==> x in name;
      ToSlashOfName(name[1..], rest);
      assert name == [name[0]] + name[1..];
    }
  }

  /** Joining is injective: everything at or below a child has the child's name as its next component. */
  lemma {:induction false} ComponentOfChild(path: Bytes, name: Bytes, p: Bytes)
    requires ValidComponent(name)
    requires p == Child(path, name) || Beneath(Child(path, name), p)
    ensures Beneath(path, p) && Component(path, p) == name
  {
    var c := Child(path, name);
    var rest := p[|c|..];
    assert p == c + rest;
    assert Below(path, p) == name + rest;
    ToSlashOfName(name, rest);
  }

  // ------------------------------------------------------------------- facts

  /** A fact about the node at `path` itself, made when it is visited. */
  predicate OwnKey(k: Key, path: Bytes) { k == DirKey(path) || k == FileKey(path) }

  ghost predicate FactsAt(path: Bytes, facts: multiset<Fact>) {
    forall f :: f in facts ==> OwnKey(KeyOf(f), path) || Beneath(path, KeyOf(f).path)
  }

  ghost predicate FactsBelow(path: Bytes, es: seq<Entry>, facts: multiset<Fact>) {
    forall f :: f in facts ==>
      Beneath(path, KeyOf(f).path) && HasKey(es, EntryName, Component(path, KeyOf(f).path))
  }

  lemma {:induction false} XattrFactsKeyed(path: Bytes, xs: seq<Xattr>)
    requires DistinctKeys(xs, XattrName)
    ensures Keyed(XattrFacts(path, xs))
    ensures forall f :: f in XattrFacts(path, xs) ==>
      KeyOf(f).XattrKey? && KeyOf(f).path == path && HasKey(xs, XattrName, KeyOf(f).name)
  {
    if xs != [] {
      var front, x := xs[..|xs| - 1], xs[|xs| - 1];
      XattrFactsKeyed(path, front);
      var a, b := XattrFacts(path, front), multiset{BodyFact(XattrBody(path, x))};
      forall f | f in a ensures HasKey(xs, XattrName, KeyOf(f).name) && KeyOf(f).name != x.name {
        var i :| 0 <= i < |front| && XattrName(front[i]) == KeyOf(f).name;
        assert xs[i] == front[i];
        assert XattrName(xs[i]) != XattrName(xs[|xs| - 1]);
      }
      assert XattrName(xs[|xs| - 1]) == x.name;
      KeyedUnion(a, b);
    }
  }

  lemma {:induction false} OwnFactsKeyed(path: Bytes, e: Entry)
    requires DistinctKeys(e.meta.xattrs, XattrName)
    ensures Keyed(EntryOwnFacts(path, e))
    ensures forall f :: f in EntryOwnFacts(path, e) ==>
      KeyOf(f).path == Child(path, e.name) && (KeyOf(f).MetaKey? || KeyOf(f).XattrKey?)
  {
    hide XattrFacts;
    var c := Child(path, e.name);
    XattrFactsKeyed(c, e.meta.xattrs);
    KeyedUnion(multiset{MetaFact(c, e.meta)}, XattrFacts(c, e.meta.xattrs));
  }

  lemma {:induction false} FactsKeyed(path: Bytes, n: Node, open: nat)
    requires NodeCanonical(n, open)
    ensures Keyed(Facts(path, n)) && FactsAt(path, Facts(path, n))
    decreases n, 1, 0
  {
    hide EntriesFacts;
    if n.Directory? {
      EntriesKeyed(n, path, |n.entries|, open + 1);
      assert n.entries[..|n.entries|] == n.entries;
      var d, e := DirFacts(path), EntriesFacts(n, path, n.entries);
      assert Apart(d, e);
      KeyedUnion(d, e);
    }
  }

  lemma {:induction false} EntriesKeyed(n: Node, path: Bytes, k: nat, open: nat)
    requires n.Directory? && k <= |n.entries| && Increasing(n.entries, EntryName)
    requires forall i :: 0 <= i < |n.entries| ==> EntryCanonical(n.entries[i], open)
    ensures EntriesOf(n, n.entries[..k])
    ensures var facts := EntriesFacts(n, path, n.entries[..k]);
      Keyed(facts) && FactsBelow(path, n.entries[..k], facts)
    decreases n, 0, k
  {
    hide Facts, EntryOwnFacts, EntriesFacts, NodeCanonical, Keyed, FactsAt, FactsBelow, ValidComponent, Utf8,
      Component, Beneath;
    EntriesStart(n, path);
    if k == 0 {
      assert n.entries[..0] == [];
      NothingBelow(path, []);
    } else {
      EntriesKeyed(n, path, k - 1, open);
      EntriesSnoc(n, path, k - 1);
      var e := n.entries[k - 1];
      assert e in n.entries;
      IncreasingDistinct(e.meta.xattrs, XattrName);
      IncreasingDistinct(n.entries, EntryName);
      OwnFactsKeyed(path, e);
      FactsKeyed(Child(path, e.name), e.node, open);
      EntryKeyed(n, path, k - 1);
    }
  }

  lemma {:induction false} NothingBelow(path: Bytes, es: seq<Entry>)
    ensures Keyed(multiset{}) && FactsBelow(path, es, multiset{})
  {
  }

  /** One more entry: its facts are apart from one another and from the earlier entries'. */
  lemma {:induction false} EntryKeyed(n: Node, path: Bytes, i: nat)
    requires n.Directory? && i < |n.entries| && DistinctKeys(n.entries, EntryName)
    requires ValidComponent(n.entries[i].name)
    requires EntriesOf(n, n.entries[..i]) && EntriesOf(n, n.entries[..i + 1])
    requires Keyed(EntriesFacts(n, path, n.entries[..i]))
    requires FactsBelow(path, n.entries[..i], EntriesFacts(n, path, n.entries[..i]))
    requires Keyed(EntryOwnFacts(path, n.entries[i]))
    requires forall f :: f in EntryOwnFacts(path, n.entries[i]) ==>
      KeyOf(f).path == Child(path, n.entries[i].name) && (KeyOf(f).MetaKey? || KeyOf(f).XattrKey?)
    requires var c := Child(path, n.entries[i].name);
      Keyed(Facts(c, n.entries[i].node)) && FactsAt(c, Facts(c, n.entries[i].node))
    ensures Keyed(EntriesFacts(n, path, n.entries[..i + 1]))
    ensures FactsBelow(path, n.entries[..i + 1], EntriesFacts(n, path, n.entries[..i + 1]))
  {
    hide EntriesFacts, EntryOwnFacts, Facts, Keyed, ValidComponent;
    var e := n.entries[i];
    var c := Child(path, e.name);
    var before, own, sub := EntriesFacts(n, path, n.entries[..i]), EntryOwnFacts(path, e), Facts(c, e.node);
    EntriesSnoc(n, path, i);
    NotBeneathItself(c);
    assert Apart(own, sub);
    KeyedUnion(own, sub);
    NextComponent(path, e.name, own + sub);
    BeforeElsewhere(n, path, i, before);
    assert Apart(before, own + sub);
    KeyedUnion(before, own + sub);
    assert before + (own + sub) == EntriesFacts(n, path, n.entries[..i + 1]);
    NamesGrow(n.entries, i, path, before, own + sub);
  }

  /** What earlier entries say is below names other than this one's. */
  lemma {:induction false} BeforeElsewhere(n: Node, path: Bytes, i: nat, before: multiset<Fact>)
    requires n.Directory? && i < |n.entries| && DistinctKeys(n.entries, EntryName)
    requires FactsBelow(path, n.entries[..i], before)
    ensures forall f :: f in before ==> Component(path, KeyOf(f).path) != n.entries[i].name
  {
    forall f | f in before ensures Component(path, KeyOf(f).path) != n.entries[i].name {
      var j :| 0 <= j < |n.entries[..i]| && EntryName(n.entries[..i][j]) == Component(path, KeyOf(f).path);
      assert EntryName(n.entries[j]) != EntryName(n.entries[i]);
    }
  }

  lemma {:induction false} NotBeneathItself(path: Bytes)
    ensures !Beneath(path, path)
  {
  }

  lemma {:induction false} NextComponent(path: Bytes, name: Bytes, facts: multiset<Fact>)
    requires ValidComponent(name)
    requires forall f :: f in facts ==> KeyOf(f).path == Child(path, name) || Beneath(Child(path, name), KeyOf(f).path)
    ensures forall f :: f in facts ==> Beneath(path, KeyOf(f).path) && Component(path, KeyOf(f).path) == name
  {
    hide ValidComponent, Child, Beneath, Component;
    forall f | f in facts ensures Beneath(path, KeyOf(f).path) && Component(path, KeyOf(f).path) == name {
      ComponentOfChild(path, name, KeyOf(f).path);
    }
  }

  lemma {:induction false} NamesGrow(es: seq<Entry>, i: nat, path: Bytes, before: multiset<Fact>, more: multiset<Fact>)
    requires i < |es| && FactsBelow(path, es[..i], before)
    requires forall f :: f in more ==> Beneath(path, KeyOf(f).path) && Component(path, KeyOf(f).path) == es[i].name
    ensures FactsBelow(path, es[..i + 1], before + more)
  {
    hide Beneath, Component;
    forall f | f in before + more
      ensures Beneath(path, KeyOf(f).path) && HasKey(es[..i + 1], EntryName, Component(path, KeyOf(f).path))
    {
      if f in before {
        var j :| 0 <= j < |es[..i]| && EntryName(es[..i][j]) == Component(path, KeyOf(f).path);
        assert es[..i + 1][j] == es[..i][j];
      } else {
        assert f in more;
        assert EntryName(es[..i + 1][i]) == Component(path, KeyOf(f).path);
      }
    }
  }

  // ------------------------------------------------------------ main results

  lemma {:induction false} CanonicalTreePlans(n: Node, open: nat)
    requires NodeCanonical(n, open)
    ensures TreePlans(n)
    decreases n
  {
    hide Tiles, ValidComponent, Utf8;
    if n.Directory? {
      forall i | 0 <= i < |n.entries| ensures EntryPlans(n.entries[i]) && TreePlans(n.entries[i].node) {
        assert EntryCanonical(n.entries[i], open + 1);
        CanonicalTreePlans(n.entries[i].node, open + 1);
      }
    }
  }

  /** Whatever the manifest reader accepts plans, and no two of its bodies have one target. */
  lemma {:induction false} CanonicalPlans(rootMeta: NodeMeta, root: Node)
    requires MetaCanonical(rootMeta) && Canonical(root)
    ensures Plans(rootMeta, root)
    ensures Keyed(AllFacts(rootMeta, root))
  {
    hide Facts, XattrFacts, Keyed, TreePlans, MetaDistinct, NodeCanonical, Tiles;
    CanonicalTreePlans(root, 0);
    IncreasingDistinct(rootMeta.xattrs, XattrName);
    XattrFactsKeyed([], rootMeta.xattrs);
    FactsKeyed([], root, 0);
    assert Apart(XattrFacts([], rootMeta.xattrs), Facts([], root));
    KeyedUnion(XattrFacts([], rootMeta.xattrs), Facts([], root));
    KeyedIsMetaDistinct(AllFacts(rootMeta, root));
  }
}
