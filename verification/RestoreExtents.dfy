// The extents a restore plan's bodies hold are the extents the manifest names
// (crates/archive/src/restore.rs, `plan`; crates/archive/src/manifest.rs,
// `referenced_chunks`), and every planned body tiles.

module RestoreExtents {
  import opened Wire
  import opened Manifest
  import opened ManifestReader
  import opened RestorePlan

  /** Some body of the facts has the extent. */
  ghost predicate Mentions(facts: multiset<Fact>, e: Extent) {
    exists b :: BodyFact(b) in facts && e in b.extents
  }

  /** Every body of the facts tiles, and its length is where its extents end. */
  ghost predicate BodiesTile(facts: multiset<Fact>) {
    forall b :: BodyFact(b) in facts ==> Tiles(b.extents) && b.len == End(b.extents)
  }

  lemma {:induction false} MentionsUnion(a: multiset<Fact>, b: multiset<Fact>, e: Extent)
    ensures Mentions(a + b, e) <==> Mentions(a, e) || Mentions(b, e)
  {
    if Mentions(a, e) {
      var x :| BodyFact(x) in a && e in x.extents;
      assert BodyFact(x) in a + b;
    }
    if Mentions(b, e) {
      var x :| BodyFact(x) in b && e in x.extents;
      assert BodyFact(x) in a + b;
    }
  }

  lemma {:induction false} MentionsOne(b: Body, e: Extent)
    ensures Mentions(multiset{BodyFact(b)}, e) <==> e in b.extents
  {
    assert BodyFact(b) in multiset{BodyFact(b)};
  }

  lemma {:induction false} XattrMentions(path: Bytes, xs: seq<Xattr>, e: Extent)
    ensures Mentions(XattrFacts(path, xs), e) <==> e in XattrExtents(xs)
    ensures XattrsTile(xs) ==> BodiesTile(XattrFacts(path, xs))
  {
    if xs != [] {
      var k := |xs| - 1;
      XattrMentions(path, xs[..k], e);
      XattrExtentsSnoc(xs, k);
      assert xs[..k + 1] == xs;
      MentionsUnion(XattrFacts(path, xs[..k]), multiset{BodyFact(XattrBody(path, xs[k]))}, e);
      MentionsOne(XattrBody(path, xs[k]), e);
    }
  }

  lemma {:induction false} ChildExtentsSnoc(parent: Node, es: seq<Entry>)
    requires es != [] && EntriesOf(parent, es)
    ensures ChildExtents(parent, es) == ChildExtents(parent, es[..|es| - 1]) + TreeExtents(es[|es| - 1].node)
    decreases |es|
  {
    hide TreeExtents;
    if |es| > 1 {
      ChildExtentsSnoc(parent, es[1..]);
      assert es[1..][..|es| - 2] == es[..|es| - 1][1..];
    }
  }

  lemma {:induction false} FactsMention(path: Bytes, n: Node, e: Extent)
    ensures Mentions(Facts(path, n), e) <==> e in TreeExtents(n)
    ensures TreePlans(n) ==> BodiesTile(Facts(path, n))
    decreases n, 1, 0
  {
    hide Mentions, XattrFacts;
    if n.File? {
      MentionsOne(FileBody(path, n.extents), e);
    } else {
      EntriesMention(n, path, n.entries, e);
      MentionsUnion(DirFacts(path), EntriesFacts(n, path, n.entries), e);
      NoBodies(DirFacts(path), e);
    }
  }

  lemma {:induction false} NoBodies(facts: multiset<Fact>, e: Extent)
    requires forall b :: BodyFact(b) !in facts
    ensures !Mentions(facts, e) && BodiesTile(facts)
  {
  }

  lemma {:induction false} BodiesTileUnion(a: multiset<Fact>, b: multiset<Fact>)
    requires BodiesTile(a) && BodiesTile(b)
    ensures BodiesTile(a + b)
  {
  }

  ghost predicate EntriesPlan(es: seq<Entry>) {
    forall i :: 0 <= i < |es| ==> EntryPlans(es[i]) && TreePlans(es[i].node)
  }

  lemma {:induction false} EntriesMention(parent: Node, path: Bytes, es: seq<Entry>, e: Extent)
    requires EntriesOf(parent, es)
    ensures Mentions(EntriesFacts(parent, path, es), e) <==> e in MetaExtents(es) || e in ChildExtents(parent, es)
    ensures EntriesPlan(es) ==> BodiesTile(EntriesFacts(parent, path, es))
    decreases parent, 0, |es|
  {
    hide Mentions, BodiesTile, Facts, XattrFacts, TreeExtents, XattrExtents, XattrsTile, TreePlans;
    if es == [] {
      NoBodies(multiset{}, e);
    } else {
      var front, last := es[..|es| - 1], es[|es| - 1];
      var child := Child(path, last.name);
      assert last in parent.entries;
      EntriesMention(parent, path, front, e);
      FactsMention(child, last.node, e);
      XattrMentions(child, last.meta.xattrs, e);
      MetaExtentsSnoc(es, |es| - 1);
      assert es[..|es|] == es;
      ChildExtentsSnoc(parent, es);
      var meta, own := multiset{MetaFact(child, last.meta)}, EntryOwnFacts(path, last);
      NoBodies(meta, e);
      MentionsUnion(meta, XattrFacts(child, last.meta.xattrs), e);
      MentionsUnion(EntriesFacts(parent, path, front), own, e);
      MentionsUnion(EntriesFacts(parent, path, front) + own, Facts(child, last.node), e);
      if EntriesPlan(es) {
        assert EntriesPlan(front) && EntryPlans(last) && TreePlans(last.node);
        BodiesTileUnion(meta, XattrFacts(child, last.meta.xattrs));
        BodiesTileUnion(EntriesFacts(parent, path, front), own);
        BodiesTileUnion(EntriesFacts(parent, path, front) + own, Facts(child, last.node));
      }
    }
  }

  /** The plan's bodies hold exactly the extents the manifest names. */
  lemma {:induction false} PlanMentions(rootMeta: NodeMeta, root: Node, e: Extent)
    ensures Mentions(AllFacts(rootMeta, root), e) <==> e in AllExtents(rootMeta, root)
  {
    hide Mentions, XattrFacts, Facts;
    XattrMentions([], rootMeta.xattrs, e);
    FactsMention([], root, e);
    MentionsUnion(XattrFacts([], rootMeta.xattrs), Facts([], root), e);
  }

  lemma {:induction false} PlannedBodiesTile(rootMeta: NodeMeta, root: Node)
    requires Plans(rootMeta, root)
    ensures BodiesTile(AllFacts(rootMeta, root))
  {
    hide XattrFacts, Facts, BodiesTile, TreePlans, MetaDistinct;
    var e := Extent(0, 0, HOLE, 0);
    XattrMentions([], rootMeta.xattrs, e);
    FactsMention([], root, e);
    BodiesTileUnion(XattrFacts([], rootMeta.xattrs), Facts([], root));
  }
}
