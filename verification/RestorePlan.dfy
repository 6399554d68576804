// Planning a restore (crates/archive/src/restore.rs, `plan`): the tree is walked
// once, without reading a chunk, into bodies, directories and metadata by path.
// The plan is specified by the multiset of facts a recursive reading of the tree
// gives, so the order the explicit stack visits nodes in does not matter.

module RestorePlan {
  import opened Wire
  import opened Sorting
  import opened Manifest

  datatype Target = FileTarget(path: Bytes) | XattrTarget(path: Bytes, name: Bytes)

  /** One body to restore, a file or an attribute value: its extents and the length they tile. */
  datatype Body = Body(target: Target, extents: seq<Extent>, len: nat)

  datatype Plan = Plan(bodies: seq<Body>, directories: set<Bytes>, metadata: map<Bytes, NodeMeta>)

  function Child(path: Bytes, name: Bytes): Bytes {
    if path == [] then name else path + [SLASH] + name
  }

  /** One thing a tree says is to be restored. */
  datatype Fact =
    | BodyFact(body: Body)
    | DirFact(path: Bytes)
    | MetaFact(path: Bytes, meta: NodeMeta)

  function FileBody(path: Bytes, es: seq<Extent>): Body { Body(FileTarget(path), es, End(es)) }

  function XattrBody(path: Bytes, x: Xattr): Body { Body(XattrTarget(path, x.name), x.extents, End(x.extents)) }

  ghost function XattrFacts(path: Bytes, xs: seq<Xattr>): multiset<Fact> {
    if xs == [] then multiset{} else
    XattrFacts(path, xs[..|xs| - 1]) + multiset{BodyFact(XattrBody(path, xs[|xs| - 1]))}
  }

  /** What the tree `n` at `path` says, itself included. */
  ghost function Facts(path: Bytes, n: Node): multiset<Fact>
    decreases n, 1, 0
  {
    if n.File? then multiset{BodyFact(FileBody(path, n.extents))}
    else DirFacts(path) + EntriesFacts(n, path, n.entries)
  }

  ghost function DirFacts(path: Bytes): multiset<Fact> {
    if path == [] then multiset{} else multiset{DirFact(path)}
  }

  ghost function EntriesFacts(parent: Node, path: Bytes, es: seq<Entry>): multiset<Fact>
    requires EntriesOf(parent, es)
    decreases parent, 0, |es|
  {
    if es == [] then multiset{} else
    assert es[|es| - 1] in parent.entries;
    EntriesFacts(parent, path, es[..|es| - 1])
      + EntryOwnFacts(path, es[|es| - 1])
      + Facts(Child(path, es[|es| - 1].name), es[|es| - 1].node)
  }

  /** What an entry says of its child before the child itself is visited. */
  ghost function EntryOwnFacts(path: Bytes, e: Entry): multiset<Fact> {
    multiset{MetaFact(Child(path, e.name), e.meta)} + XattrFacts(Child(path, e.name), e.meta.xattrs)
  }

  ghost function AllFacts(rootMeta: NodeMeta, root: Node): multiset<Fact> {
    XattrFacts([], rootMeta.xattrs) + Facts([], root)
  }

  /** The plan holds exactly these facts. */
  ghost predicate Planned(plan: Plan, facts: multiset<Fact>) {
    && (forall b :: multiset(plan.bodies)[b] == facts[BodyFact(b)])
    && (forall p :: p in plan.directories <==> DirFact(p) in facts)
    && (forall p, m :: (p in plan.metadata && plan.metadata[p] == m) <==> MetaFact(p, m) in facts)
  }

  /** No path is described twice. */
  ghost predicate MetaDistinct(facts: multiset<Fact>) {
    && (forall p, m :: facts[MetaFact(p, m)] <= 1)
    && (forall p, m, m' :: MetaFact(p, m) in facts && MetaFact(p, m') in facts ==> m == m')
  }

  // -------------------------------------------------------- when a tree plans

  predicate XattrsTile(xs: seq<Xattr>) {
    forall i :: 0 <= i < |xs| ==> Tiles(xs[i].extents)
  }

  predicate EntryPlans(e: Entry) {
    && ValidComponent(e.name)
    && (e.node.File? ==> TiledLength(e.node.extents) == Ok(e.meta.size))
    && XattrsTile(e.meta.xattrs)
  }

  predicate TreePlans(n: Node)
    decreases n
  {
    if n.File? then Tiles(n.extents) else
    forall i :: 0 <= i < |n.entries| ==> EntryPlans(n.entries[i]) && TreePlans(n.entries[i].node)
  }

  /** The condition under which `plan` succeeds. */
  ghost predicate Plans(rootMeta: NodeMeta, root: Node) {
    XattrsTile(rootMeta.xattrs) && TreePlans(root) && MetaDistinct(AllFacts(rootMeta, root))
  }

  // --------------------------------------------------------- the first refusal

  /** One entry met with the paths `seen` described already: the paths now described, or why it is refused. */
  function EntryWalk(seen: set<Bytes>, path: Bytes, e: Entry): Result<set<Bytes>> {
    if !ValidComponent(e.name) then Err(BadName)
    else if e.node.File? && TiledLength(e.node.extents) != Ok(e.meta.size) then Err(BadExtents)
    else if Child(path, e.name) in seen then Err(DuplicatePath)
    else if !XattrsTile(e.meta.xattrs) then Err(BadExtents)
    else Ok(seen + {Child(path, e.name)})
  }

  /** Entries in their order, to the first refused. */
  function EntriesWalk(seen: set<Bytes>, path: Bytes, es: seq<Entry>): Result<set<Bytes>> {
    if es == [] then Ok(seen) else
    var before :- EntriesWalk(seen, path, es[..|es| - 1]);
    EntryWalk(before, path, es[|es| - 1])
  }

  /** A tree: all of a directory's entries first, then its children from the last to the first. */
  function NodeWalk(seen: set<Bytes>, path: Bytes, n: Node): Result<set<Bytes>>
    decreases n, 1, 0
  {
    if n.File? then if Tiles(n.extents) then Ok(seen) else Err(BadExtents) else
    var listed :- EntriesWalk(seen, path, n.entries);
    ChildrenWalk(listed, path, n, n.entries)
  }

  function ChildrenWalk(seen: set<Bytes>, path: Bytes, ghost parent: Node, es: seq<Entry>): Result<set<Bytes>>
    requires EntriesOf(parent, es)
    decreases parent, 0, |es|
  {
    if es == [] then Ok(seen) else
    var e := es[|es| - 1];
    assert e in parent.entries;
    var after :- NodeWalk(seen, Child(path, e.name), e.node);
    ChildrenWalk(after, path, parent, es[..|es| - 1])
  }

  /** The whole archive's tree: every path it describes, or the first refusal of a walk over it. */
  function TreeWalk(rootMeta: NodeMeta, root: Node): Result<set<Bytes>> {
    if !XattrsTile(rootMeta.xattrs) then Err(BadExtents) else NodeWalk({}, [], root)
  }

  /** Every name is a component. */
  predicate NamesValid(n: Node)
    decreases n
  {
    n.Directory? ==>
      forall i :: 0 <= i < |n.entries| ==> ValidComponent(n.entries[i].name) && NamesValid(n.entries[i].node)
  }

  /** Every file tiles, and to its recorded size where it is named; every attribute value tiles. */
  predicate SizesFit(n: Node)
    decreases n
  {
    if n.File? then Tiles(n.extents) else
    forall i :: 0 <= i < |n.entries| ==> EntrySized(n.entries[i]) && SizesFit(n.entries[i].node)
  }

  predicate EntrySized(e: Entry) {
    (e.node.File? ==> TiledLength(e.node.extents) == Ok(e.meta.size)) && XattrsTile(e.meta.xattrs)
  }

  lemma {:induction false} EntriesWalkPrefix(seen: set<Bytes>, path: Bytes, es: seq<Entry>, i: nat)
    requires i <= |es| && EntriesWalk(seen, path, es[..i]).Err?
    ensures EntriesWalk(seen, path, es) == EntriesWalk(seen, path, es[..i])
    decreases |es|
  {
    hide EntryWalk;
    if i == |es| {
      assert es[..i] == es;
    } else {
      assert es[..|es| - 1][..i] == es[..i];
      EntriesWalkPrefix(seen, path, es[..|es| - 1], i);
    }
  }

  lemma {:induction false} EntriesWalkNext(seen: set<Bytes>, path: Bytes, es: seq<Entry>, i: nat)
    requires i < |es| && EntriesWalk(seen, path, es[..i]).Ok?
    ensures EntriesWalk(seen, path, es[..i + 1]) == EntryWalk(EntriesWalk(seen, path, es[..i]).value, path, es[i])
  {
    hide EntryWalk;
    assert es[..i + 1][..i] == es[..i];
  }

  /** A name is refused only where one is not a component, and extents only where some do not tile or fit. */
  lemma {:induction false} RefusalCause(rootMeta: NodeMeta, root: Node)
    ensures TreeWalk(rootMeta, root) == Err(BadName) ==> !NamesValid(root)
    ensures TreeWalk(rootMeta, root) == Err(BadExtents) ==> !XattrsTile(rootMeta.xattrs) || !SizesFit(root)
    ensures TreeWalk(rootMeta, root).Err? ==> TreeWalk(rootMeta, root).error in {BadName, BadExtents, DuplicatePath}
  {
    hide NodeWalk, NamesValid, SizesFit;
    NodeCause({}, [], root);
  }

  lemma {:induction false} NodeCause(seen: set<Bytes>, path: Bytes, n: Node)
    ensures NodeWalk(seen, path, n) == Err(BadName) ==> !NamesValid(n)
    ensures NodeWalk(seen, path, n) == Err(BadExtents) ==> !SizesFit(n)
    ensures NodeWalk(seen, path, n).Err? ==> NodeWalk(seen, path, n).error in {BadName, BadExtents, DuplicatePath}
    decreases n, 1, 0
  {
    hide ValidComponent, Tiles, EntryWalk, EntrySized;
    if n.Directory? {
      EntriesCause(seen, path, n.entries);
      var listed := EntriesWalk(seen, path, n.entries);
      if listed.Ok? {
        ChildrenCause(listed.value, path, n, n.entries);
      }
    }
  }

  lemma {:induction false} EntriesCause(seen: set<Bytes>, path: Bytes, es: seq<Entry>)
    ensures EntriesWalk(seen, path, es) == Err(BadName) ==> exists i :: 0 <= i < |es| && !ValidComponent(es[i].name)
    ensures EntriesWalk(seen, path, es) == Err(BadExtents) ==> exists i :: 0 <= i < |es| && !EntrySized(es[i])
    ensures EntriesWalk(seen, path, es).Err? ==>
      EntriesWalk(seen, path, es).error in {BadName, BadExtents, DuplicatePath}
  {
    hide ValidComponent, Tiles;
    if es != [] {
      var front := es[..|es| - 1];
      EntriesCause(seen, path, front);
      assert forall i :: 0 <= i < |front| ==> front[i] == es[i];
    }
  }

  lemma {:induction false} ChildrenCause(seen: set<Bytes>, path: Bytes, n: Node, es: seq<Entry>)
    requires EntriesOf(n, es)
    ensures ChildrenWalk(seen, path, n, es) == Err(BadName) ==> exists i :: 0 <= i < |es| && !NamesValid(es[i].node)
    ensures ChildrenWalk(seen, path, n, es) == Err(BadExtents) ==> exists i :: 0 <= i < |es| && !SizesFit(es[i].node)
    ensures ChildrenWalk(seen, path, n, es).Err? ==>
      ChildrenWalk(seen, path, n, es).error in {BadName, BadExtents, DuplicatePath}
    decreases n, 0, |es|
  {
    hide NodeWalk, NamesValid, SizesFit;
    if es != [] {
      var front, e := es[..|es| - 1], es[|es| - 1];
      assert e in n.entries;
      NodeCause(seen, Child(path, e.name), e.node);
      var after := NodeWalk(seen, Child(path, e.name), e.node);
      if after.Ok? {
        ChildrenCause(after.value, path, n, front);
        assert forall i :: 0 <= i < |front| ==> front[i] == es[i];
      }
    }
  }

  // ------------------------------------------------------------ the plan grows

  lemma {:induction false} AddBody(plan: Plan, facts: multiset<Fact>, b: Body)
    requires Planned(plan, facts)
    ensures Planned(plan.(bodies := plan.bodies + [b]), facts + multiset{BodyFact(b)})
    ensures MetaDistinct(facts) ==> MetaDistinct(facts + multiset{BodyFact(b)})
  {
  }

  lemma {:induction false} AddDir(plan: Plan, facts: multiset<Fact>, path: Bytes)
    requires Planned(plan, facts)
    ensures Planned(plan.(directories := plan.directories + {path}), facts + multiset{DirFact(path)})
    ensures MetaDistinct(facts) ==> MetaDistinct(facts + multiset{DirFact(path)})
  {
  }

  lemma {:induction false} AddMeta(plan: Plan, facts: multiset<Fact>, path: Bytes, meta: NodeMeta)
    requires Planned(plan, facts) && path !in plan.metadata
    ensures Planned(plan.(metadata := plan.metadata[path := meta]), facts + multiset{MetaFact(path, meta)})
    ensures MetaDistinct(facts) ==> MetaDistinct(facts + multiset{MetaFact(path, meta)})
  {
    forall m ensures MetaFact(path, m) !in facts {
    }
  }

  lemma {:induction false} SecondMeta(
    plan: Plan, facts: multiset<Fact>, path: Bytes, meta: NodeMeta, all: multiset<Fact>)
    requires Planned(plan, facts) && path in plan.metadata
    requires facts + multiset{MetaFact(path, meta)} <= all
    ensures !MetaDistinct(all)
  {
    var m := plan.metadata[path];
    assert MetaFact(path, m) in facts;
    if m == meta {
      assert (facts + multiset{MetaFact(path, meta)})[MetaFact(path, meta)] >= 2;
    } else {
      assert MetaFact(path, m) in all && MetaFact(path, meta) in all;
    }
  }

  lemma {:induction false} XattrFactsSnoc(path: Bytes, xs: seq<Xattr>, i: nat)
    requires i < |xs|
    ensures XattrFacts(path, xs[..i + 1]) == XattrFacts(path, xs[..i]) + multiset{BodyFact(XattrBody(path, xs[i]))}
  {
    assert xs[..i + 1][..i] == xs[..i];
  }

  lemma {:induction false} NoXattrFacts(path: Bytes)
    ensures XattrFacts(path, []) == multiset{}
  {
  }

  method PlanXattrs(plan0: Plan, path: Bytes, xs: seq<Xattr>, ghost facts: multiset<Fact>) returns (r: Result<Plan>)
    requires Planned(plan0, facts) && MetaDistinct(facts)
    ensures r.Ok? <==> XattrsTile(xs)
    ensures r.Err? ==> r.error == BadExtents
    ensures r.Ok? ==> Planned(r.value, facts + XattrFacts(path, xs)) && MetaDistinct(facts + XattrFacts(path, xs))
    ensures r.Ok? ==> r.value.metadata == plan0.metadata
  {
    hide Planned, MetaDistinct, Tiles, XattrFacts;
    var plan := plan0;
    ghost var sofar := facts;
    assert xs[..0] == [] && XattrFacts(path, []) == multiset{} by { NoXattrFacts(path); }
    assert facts + multiset{} == facts;
    for i := 0 to |xs|
      invariant forall j :: 0 <= j < i ==> Tiles(xs[j].extents)
      invariant sofar == facts + XattrFacts(path, xs[..i])
      invariant Planned(plan, sofar) && MetaDistinct(sofar)
      invariant plan.metadata == plan0.metadata
    {
      var len := ComputeTiledLength(xs[i].extents);
      if len.Err? {
        return Err(BadExtents);
      }
      var body := Body(XattrTarget(path, xs[i].name), xs[i].extents, len.value);
      AddBody(plan, sofar, body);
      plan := plan.(bodies := plan.bodies + [body]);
      XattrFactsSnoc(path, xs, i);
      sofar := sofar + multiset{BodyFact(body)};
    }
    assert xs[..|xs|] == xs;
    return Ok(plan);
  }

  datatype Pending = Pending(path: Bytes, node: Node)

  ghost function PendingFacts(pending: seq<Pending>): multiset<Fact> {
    if pending == [] then multiset{} else
    PendingFacts(pending[..|pending| - 1]) + Facts(pending[|pending| - 1].path, pending[|pending| - 1].node)
  }

  ghost predicate PendingPlans(pending: seq<Pending>) {
    forall i :: 0 <= i < |pending| ==> TreePlans(pending[i].node)
  }

  /** Nodes left to visit, counted with everything below them. */
  ghost function NodeCount(n: Node): nat
    decreases n, 1, 0
  {
    if n.File? then 1 else 1 + EntriesCount(n, n.entries)
  }

  ghost function EntriesCount(parent: Node, es: seq<Entry>): nat
    requires EntriesOf(parent, es)
    decreases parent, 0, |es|
  {
    if es == [] then 0 else
    assert es[|es| - 1] in parent.entries;
    EntriesCount(parent, es[..|es| - 1]) + NodeCount(es[|es| - 1].node)
  }

  ghost function PendingCount(pending: seq<Pending>): nat {
    if pending == [] then 0 else PendingCount(pending[..|pending| - 1]) + NodeCount(pending[|pending| - 1].node)
  }

  lemma {:induction false} PendingPush(pending: seq<Pending>, p: Pending)
    ensures PendingFacts(pending + [p]) == PendingFacts(pending) + Facts(p.path, p.node)
    ensures PendingCount(pending + [p]) == PendingCount(pending) + NodeCount(p.node)
  {
    hide Facts, NodeCount;
    assert (pending + [p])[..|pending|] == pending;
  }

  lemma {:induction false} EntriesSnoc(n: Node, path: Bytes, i: nat)
    requires n.Directory? && i < |n.entries|
    ensures EntriesOf(n, n.entries[..i]) && EntriesOf(n, n.entries[..i + 1])
    ensures EntriesFacts(n, path, n.entries[..i + 1]) ==
      EntriesFacts(n, path, n.entries[..i]) + EntryOwnFacts(path, n.entries[i])
        + Facts(Child(path, n.entries[i].name), n.entries[i].node)
    ensures EntriesCount(n, n.entries[..i + 1]) == EntriesCount(n, n.entries[..i]) + NodeCount(n.entries[i].node)
  {
    hide Facts, EntryOwnFacts, NodeCount, EntriesFacts;
    assert n.entries[..i + 1][..i] == n.entries[..i];
    EntriesFactsLast(n, path, n.entries[..i + 1]);
  }

  lemma {:induction false} EntriesFactsLast(n: Node, path: Bytes, es: seq<Entry>)
    requires n.Directory? && es != [] && EntriesOf(n, es) && EntriesOf(n, es[..|es| - 1])
    ensures var front, e := es[..|es| - 1], es[|es| - 1];
      EntriesFacts(n, path, es) ==
        EntriesFacts(n, path, front) + EntryOwnFacts(path, e) + Facts(Child(path, e.name), e.node)
  {
    hide Facts, EntryOwnFacts;
  }

  /** The facts of a directory's first `i` entries are among the tree's. */
  lemma {:induction false} EntriesFactsGrow(n: Node, path: Bytes, i: nat, j: nat)
    requires n.Directory? && i <= j <= |n.entries|
    ensures EntriesOf(n, n.entries[..i]) && EntriesOf(n, n.entries[..j])
    ensures EntriesFacts(n, path, n.entries[..i]) <= EntriesFacts(n, path, n.entries[..j])
    decreases j - i
  {
    hide EntriesFacts;
    if i < j {
      EntriesFactsGrow(n, path, i, j - 1);
      EntriesSnoc(n, path, j - 1);
    }
  }

  /** One entry of a directory being visited: checked, recorded, and its child left pending. */
  method PlanEntry(plan0: Plan, path: Bytes, e: Entry, ghost facts: multiset<Fact>, ghost all: multiset<Fact>)
    returns (r: Result<Plan>)
    requires Planned(plan0, facts) && MetaDistinct(facts)
    requires facts + EntryOwnFacts(path, e) <= all
    ensures r.Ok? ==> EntryPlans(e)
    ensures r.Ok? ==> Planned(r.value, facts + EntryOwnFacts(path, e)) && MetaDistinct(facts + EntryOwnFacts(path, e))
    ensures r.Err? ==> r.error in {BadName, BadExtents, DuplicatePath}
    ensures r.Err? ==> !EntryPlans(e) || !MetaDistinct(all)
    ensures r == Err(DuplicatePath) ==> !MetaDistinct(all)
    ensures EntryWalk(plan0.metadata.Keys, path, e) == if r.Ok? then Ok(r.value.metadata.Keys) else Err(r.error)
  {
    hide Planned, MetaDistinct, ValidComponent, Tiles;
    if !ValidComponent(e.name) {
      return Err(BadName);
    }
    var child := Child(path, e.name);
    if e.node.File? {
      var len := ComputeTiledLength(e.node.extents);
      if len != Ok(e.meta.size) {
        return Err(BadExtents);
      }
    }
    ghost var meta := multiset{MetaFact(child, e.meta)};
    assert facts + EntryOwnFacts(path, e) == facts + meta + XattrFacts(child, e.meta.xattrs);
    if child in plan0.metadata {
      assert facts + meta <= all;
      SecondMeta(plan0, facts, child, e.meta, all);
      return Err(DuplicatePath);
    }
    AddMeta(plan0, facts, child, e.meta);
    var plan := plan0.(metadata := plan0.metadata[child := e.meta]);
    assert plan.metadata.Keys == plan0.metadata.Keys + {child};
    r := PlanXattrs(plan, child, e.meta.xattrs, facts + meta);
  }

  /** The entries of the directory `node` at `path`, its own fact recorded already. */
  method PlanEntries(
    plan0: Plan, below: seq<Pending>, path: Bytes, node: Node, ghost facts: multiset<Fact>,
    ghost all: multiset<Fact>)
    returns (r: Result<Plan>, pending: seq<Pending>)
    requires node.Directory? && Planned(plan0, facts) && MetaDistinct(facts)
    requires facts + EntriesFacts(node, path, node.entries) + PendingFacts(below) <= all
    ensures r.Ok? ==> exists done: multiset<Fact> ::
      && Planned(r.value, done) && MetaDistinct(done)
      && done + PendingFacts(pending) == facts + EntriesFacts(node, path, node.entries) + PendingFacts(below)
    ensures r.Ok? ==> (forall i :: 0 <= i < |node.entries| ==> EntryPlans(node.entries[i]))
    ensures r.Ok? ==> (PendingPlans(pending) <==> PendingPlans(below) && TreePlans(node))
    ensures r.Ok? ==> PendingCount(pending) == PendingCount(below) + EntriesCount(node, node.entries)
    ensures r.Err? ==> r.error in {BadName, BadExtents, DuplicatePath} && (!TreePlans(node) || !MetaDistinct(all))
    ensures r == Err(DuplicatePath) ==> !MetaDistinct(all)
    ensures r.Ok? ==> pending == below + Children(path, node.entries)
    ensures EntriesWalk(plan0.metadata.Keys, path, node.entries) ==
      if r.Ok? then Ok(r.value.metadata.Keys) else Err(r.error)
  {
    hide Planned, MetaDistinct, EntryPlans, Facts, EntriesFacts, EntriesCount, NodeCount, PendingFacts, PendingCount,
      EntryOwnFacts, EntriesWalk, EntryWalk, Children;
    ghost var seen := plan0.metadata.Keys;
    NoChildren(seen, path);
    assert below + [] == below;
    var plan := plan0;
    pending := below;
    ghost var done := facts;
    var es := node.entries;
    EntriesStart(node, path);
    assert es[..0] == [];
    for i := 0 to |es|
      invariant Planned(plan, done) && MetaDistinct(done)
      invariant EntriesOf(node, es[..i])
      invariant done + PendingFacts(pending) == facts + EntriesFacts(node, path, es[..i]) + PendingFacts(below)
      invariant PendingCount(pending) == PendingCount(below) + EntriesCount(node, es[..i])
      invariant forall j :: 0 <= j < i ==> EntryPlans(es[j])
      invariant EntriesWalk(seen, path, es[..i]) == Ok(plan.metadata.Keys)
      invariant pending == below + Children(path, es[..i])
      invariant PendingPlans(pending) <==> PendingPlans(below) && forall j :: 0 <= j < i ==> TreePlans(es[j].node)
    {
      var e := es[i];
      EntriesSnoc(node, path, i);
      EntriesFactsGrow(node, path, i + 1, |es|);
      assert es[..|es|] == es;
      ghost var own, sub := EntryOwnFacts(path, e), Facts(Child(path, e.name), e.node);
      Regroup(done, PendingFacts(pending), facts, EntriesFacts(node, path, es[..i]), own, sub,
        EntriesFacts(node, path, es[..i + 1]), EntriesFacts(node, path, es), PendingFacts(below), all);
      var one := PlanEntry(plan, path, e, done, all);
      EntriesWalkNext(seen, path, es, i);
      if one.Err? {
        EntriesWalkPrefix(seen, path, es, i + 1);
        r := one;
        return;
      }
      done := done + EntryOwnFacts(path, e);
      plan := one.value;
      PendingPush(pending, Pending(Child(path, e.name), e.node));
      ghost var was := pending;
      pending := pending + [Pending(Child(path, e.name), e.node)];
      PendingPlansPush(was, pending[|was|]);
      ChildrenNext(path, es, i);
    }
    assert es[..|es|] == es;
    r := Ok(plan);
  }

  /** The children a directory leaves pending, in order. */
  function Children(path: Bytes, es: seq<Entry>): seq<Pending> {
    if es == [] then [] else
    Children(path, es[..|es| - 1]) + [Pending(Child(path, es[|es| - 1].name), es[|es| - 1].node)]
  }

  lemma {:induction false} NoChildren(seen: set<Bytes>, path: Bytes)
    ensures Children(path, []) == [] && EntriesWalk(seen, path, []) == Ok(seen)
  {
  }

  lemma {:induction false} ChildrenNext(path: Bytes, es: seq<Entry>, i: nat)
    requires i < |es|
    ensures Children(path, es[..i + 1]) == Children(path, es[..i]) + [Pending(Child(path, es[i].name), es[i].node)]
  {
    assert es[..i + 1][..i] == es[..i];
  }

  /** The walk over what is pending, the top first. */
  ghost function PendingWalk(seen: set<Bytes>, pending: seq<Pending>): Result<set<Bytes>>
    decreases |pending|
  {
    if pending == [] then Ok(seen) else
    var top := pending[|pending| - 1];
    var after :- NodeWalk(seen, top.path, top.node);
    PendingWalk(after, pending[..|pending| - 1])
  }

  lemma {:induction false} PendingWalkTop(seen: set<Bytes>, below: seq<Pending>, top: Pending)
    ensures PendingWalk(seen, below + [top]) == match NodeWalk(seen, top.path, top.node)
      case Err(error) => Err(error)
      case Ok(after) => PendingWalk(after, below)
  {
    hide NodeWalk;
    assert (below + [top])[..|below|] == below;
  }

  /** Children pushed in order are walked from the last to the first. */
  lemma {:induction false} PendingChildren(seen: set<Bytes>, path: Bytes, n: Node, es: seq<Entry>, below: seq<Pending>)
    requires EntriesOf(n, es)
    ensures PendingWalk(seen, below + Children(path, es)) == match ChildrenWalk(seen, path, n, es)
      case Err(error) => Err(error)
      case Ok(after) => PendingWalk(after, below)
    decreases |es|
  {
    hide NodeWalk, PendingWalk;
    if es == [] {
      assert below + [] == below;
    } else {
      var front, e := es[..|es| - 1], es[|es| - 1];
      var child := Pending(Child(path, e.name), e.node);
      assert below + Children(path, es) == below + Children(path, front) + [child];
      PendingWalkTop(seen, below + Children(path, front), child);
      var after := NodeWalk(seen, child.path, e.node);
      if after.Ok? {
        PendingChildren(after.value, path, n, front, below);
      }
    }
  }

  lemma {:induction false} Regroup(
    done: multiset<Fact>, left: multiset<Fact>, facts: multiset<Fact>, sofar: multiset<Fact>,
    own: multiset<Fact>, sub: multiset<Fact>, next: multiset<Fact>, whole: multiset<Fact>, below: multiset<Fact>,
    all: multiset<Fact>)
    requires done + left == facts + sofar + below
    requires next == sofar + own + sub && next <= whole && facts + whole + below <= all
    ensures done + own <= all
    ensures done + own + (left + sub) == facts + next + below
  {
    assert done <= facts + sofar + below;
    assert facts + next + below <= facts + whole + below;
  }

  lemma {:induction false} EntriesStart(n: Node, path: Bytes)
    requires n.Directory?
    ensures EntriesOf(n, []) && EntriesFacts(n, path, []) == multiset{} && EntriesCount(n, []) == 0
  {
  }

  lemma {:induction false} PendingPlansPush(pending: seq<Pending>, p: Pending)
    ensures PendingPlans(pending + [p]) <==> PendingPlans(pending) && TreePlans(p.node)
  {
    hide TreePlans;
    var t := pending + [p];
    assert t[|pending|] == p;
    if PendingPlans(t) {
      forall i | 0 <= i < |pending| ensures TreePlans(pending[i].node) {
        assert t[i] == pending[i];
      }
    }
  }

  /** A file at the top of the stack: one body. */
  method VisitFile(plan: Plan, below: seq<Pending>, top: Pending, ghost done: multiset<Fact>, ghost all: multiset<Fact>)
    returns (r: Result<Plan>, ghost done': multiset<Fact>)
    requires top.node.File? && Planned(plan, done) && MetaDistinct(done)
    requires done + PendingFacts(below + [top]) == all
    ensures r.Ok? <==> Tiles(top.node.extents)
    ensures r.Ok? ==> Planned(r.value, done') && MetaDistinct(done') && done' + PendingFacts(below) == all
    ensures r.Err? ==> r.error == BadExtents
    ensures r.Ok? ==> r.value.metadata == plan.metadata
  {
    hide Planned, MetaDistinct, Facts, PendingFacts, Tiles;
    var len := ComputeTiledLength(top.node.extents);
    if len.Err? {
      return Err(BadExtents), done;
    }
    PendingPush(below, top);
    FactsOf(top.path, top.node);
    var body := Body(FileTarget(top.path), top.node.extents, len.value);
    AddBody(plan, done, body);
    done' := done + multiset{BodyFact(body)};
    return Ok(plan.(bodies := plan.bodies + [body])), done';
  }

  /** A directory at the top of the stack: its own fact, then its entries. */
  method VisitDirectory(
    plan0: Plan, below: seq<Pending>, top: Pending, ghost done: multiset<Fact>, ghost all: multiset<Fact>)
    returns (r: Result<Plan>, pending: seq<Pending>, ghost done': multiset<Fact>)
    requires top.node.Directory? && Planned(plan0, done) && MetaDistinct(done)
    requires done + PendingFacts(below + [top]) == all
    ensures r.Ok? ==> Planned(r.value, done') && MetaDistinct(done') && done' + PendingFacts(pending) == all
    ensures r.Ok? ==> (PendingPlans(pending) <==> PendingPlans(below) && TreePlans(top.node))
    ensures r.Ok? ==> PendingCount(pending) == PendingCount(below) + EntriesCount(top.node, top.node.entries)
    ensures r.Err? ==> r.error in {BadName, BadExtents, DuplicatePath} && (!TreePlans(top.node) || !MetaDistinct(all))
    ensures r == Err(DuplicatePath) ==> !MetaDistinct(all)
    ensures PendingWalk(plan0.metadata.Keys, below + [top]) ==
      if r.Ok? then PendingWalk(r.value.metadata.Keys, pending) else Err(r.error)
  {
    hide Planned, MetaDistinct, Facts, EntriesFacts, NodeCount, EntriesCount, PendingFacts, PendingCount, EntryPlans,
      TreePlans, PendingPlans, ValidComponent, PendingWalk, EntriesWalk, NodeWalk, ChildrenWalk, Children;
    ghost var seen := plan0.metadata.Keys;
    PendingWalkTop(seen, below, top);
    DirectoryWalk(seen, top.path, top.node);
    PendingPush(below, top);
    FactsOf(top.path, top.node);
    var plan := plan0;
    if top.path != [] {
      AddDir(plan, done, top.path);
      plan := plan.(directories := plan.directories + {top.path});
    }
    ghost var facts := done + DirFacts(top.path);
    assert done + multiset{} == done;
    assert facts + EntriesFacts(top.node, top.path, top.node.entries) + PendingFacts(below) == all;
    r, pending := PlanEntries(plan, below, top.path, top.node, facts, all);
    done' := multiset{};
    if r.Ok? {
      done' :| Planned(r.value, done') && MetaDistinct(done') && done' + PendingFacts(pending) == all;
      PendingChildren(r.value.metadata.Keys, top.path, top.node, top.node.entries, below);
    }
  }

  lemma {:induction false} DirectoryWalk(seen: set<Bytes>, path: Bytes, n: Node)
    requires n.Directory?
    ensures NodeWalk(seen, path, n) == match EntriesWalk(seen, path, n.entries)
      case Err(error) => Err(error)
      case Ok(listed) => ChildrenWalk(listed, path, n, n.entries)
  {
    hide EntriesWalk, ChildrenWalk;
  }

  lemma {:induction false} FileWalk(seen: set<Bytes>, below: seq<Pending>, top: Pending)
    requires top.node.File?
    ensures PendingWalk(seen, below + [top]) ==
      if Tiles(top.node.extents) then PendingWalk(seen, below) else Err(BadExtents)
  {
    hide Tiles, PendingWalk;
    PendingWalkTop(seen, below, top);
  }

  /**
   * `plan`: succeeds exactly when the tree plans, and then holds what the tree says; otherwise refuses with the
   * first refusal of the walk over the tree, a duplicate path only where there is one.
   */
  method PlanTree(rootMeta: NodeMeta, root: Node) returns (r: Result<Plan>)
    ensures r.Ok? <==> Plans(rootMeta, root)
    ensures r.Ok? ==> Planned(r.value, AllFacts(rootMeta, root))
    ensures TreeWalk(rootMeta, root) == if r.Ok? then Ok(r.value.metadata.Keys) else Err(r.error)
    ensures r == Err(DuplicatePath) ==> !MetaDistinct(AllFacts(rootMeta, root))
  {
    hide Planned, MetaDistinct, Facts, EntriesFacts, NodeCount, EntriesCount, PendingFacts, PendingCount, XattrFacts,
      Tiles, PendingPlans, TreePlans, PendingWalk, NodeWalk;
    ghost var all := AllFacts(rootMeta, root);
    OnlyRoot(root);
    EmptyPlan();
    var first := PlanXattrs(Plan([], {}, map[]), [], rootMeta.xattrs, multiset{});
    if first.Err? {
      r := first;
      return;
    }
    var plan := first.value;
    assert plan.metadata.Keys == {};
    ghost var done := XattrFacts([], rootMeta.xattrs);
    assert multiset{} + done == done;
    var pending := [Pending([], root)];
    PendingPush([], pending[0]);
    PendingPlansPush([], pending[0]);
    NoPending();
    assert [] + pending == pending;
    while pending != []
      invariant Planned(plan, done) && MetaDistinct(done)
      invariant done + PendingFacts(pending) == all
      invariant PendingPlans(pending) <==> TreePlans(root)
      invariant PendingWalk(plan.metadata.Keys, pending) == NodeWalk({}, [], root)
      decreases PendingCount(pending)
    {
      var top := pending[|pending| - 1];
      var below := pending[..|pending| - 1];
      assert below + [top] == pending;
      PendingPush(below, top);
      PendingPlansPush(below, top);
      FactsOf(top.path, top.node);
      FilePlans(top.node);
      if top.node.File? {
        FileWalk(plan.metadata.Keys, below, top);
        var visited, next := VisitFile(plan, below, top, done, all);
        if visited.Err? {
          r := visited;
          return;
        }
        plan, pending, done := visited.value, below, next;
      } else {
        var visited, left, next := VisitDirectory(plan, below, top, done, all);
        if visited.Err? {
          r := visited;
          return;
        }
        plan, pending, done := visited.value, left, next;
      }
    }
    assert done + multiset{} == done;
    NothingPending(plan.metadata.Keys);
    r := Ok(plan);
  }

  lemma {:induction false} NothingPending(seen: set<Bytes>)
    ensures PendingWalk(seen, []) == Ok(seen)
  {
  }

  lemma {:induction false} OnlyRoot(root: Node)
    ensures PendingWalk({}, [Pending([], root)]) == NodeWalk({}, [], root)
  {
    hide NodeWalk, PendingWalk;
    PendingWalkTop({}, [], Pending([], root));
    assert [] + [Pending([], root)] == [Pending([], root)];
    forall seen ensures PendingWalk(seen, []) == Ok(seen) {
      NothingPending(seen);
    }
  }

  lemma {:induction false} FilePlans(n: Node)
    ensures n.File? ==> (TreePlans(n) <==> Tiles(n.extents))
  {
    hide Tiles;
  }

  lemma {:induction false} EmptyPlan()
    ensures Planned(Plan([], {}, map[]), multiset{}) && MetaDistinct(multiset{})
    ensures PendingFacts([]) == multiset{}
  {
  }

  lemma {:induction false} NoPending()
    ensures PendingFacts([]) == multiset{} && PendingPlans([])
  {
  }

  lemma {:induction false} FactsOf(path: Bytes, n: Node)
    ensures n.File? ==> Facts(path, n) == multiset{BodyFact(FileBody(path, n.extents))}
    ensures n.Directory? ==> Facts(path, n) == DirFacts(path) + EntriesFacts(n, path, n.entries)
    ensures n.Directory? ==> NodeCount(n) == 1 + EntriesCount(n, n.entries)
    ensures NodeCount(n) >= 1
  {
    hide EntriesFacts, EntriesCount;
  }
}
