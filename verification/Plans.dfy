/**
 Flattening plan trees and stage trees. A flattened plan keeps only a link to the parent's id; the question is
 when that determines the tree it came from.
 */
module Plans {
  import opened GoStrings
  import opened Descriptors

  datatype PlanTree = PlanTree(id: string, name: string, descriptor: map<string, string>, children: seq<PlanTree>)

  /** A plan tree as far as the output shows it: descriptors are rendered. */
  datatype Outline = Outline(id: string, name: string, detail: string, children: seq<Outline>)

  datatype PlanNode = PlanNode(id: string, parentId: string, stageId: string, name: string, detail: string)

  ghost function OutlineOf(t: PlanTree): Outline
    decreases t, 0
  {
    Outline(t.id, t.name, Describe(t.descriptor), OutlinesOf(t.children))
  }

  ghost function OutlinesOf(ts: seq<PlanTree>): (os: seq<Outline>)
    decreases ts, 0
  {
    if ts == [] then [] else [OutlineOf(ts[0])] + OutlinesOf(ts[1..])
  }

  // ---- preorder ----

  function Entry(o: Outline, parent: string, stage: string): PlanNode {
    PlanNode(o.id, parent, stage, o.name, o.detail)
  }

  function Flatten(o: Outline, parent: string, stage: string): seq<PlanNode>
    decreases o, 0
  {
    [Entry(o, parent, stage)] + FlattenAll(o.children, o.id, stage)
  }

  function FlattenAll(os: seq<Outline>, parent: string, stage: string): seq<PlanNode>
    decreases os, 0
  {
    if os == [] then [] else Flatten(os[0], parent, stage) + FlattenAll(os[1..], parent, stage)
  }

  lemma {:induction false} FlattenAllConcat(a: seq<Outline>, b: seq<Outline>, parent: string, stage: string)
    ensures FlattenAll(a + b, parent, stage) == FlattenAll(a, parent, stage) + FlattenAll(b, parent, stage)
  {
    if a == [] {
      assert a + b == b;
    } else {
      assert (a + b)[1..] == a[1..] + b;
      FlattenAllConcat(a[1..], b, parent, stage);
    }
  }

  lemma {:induction false} OutlinesConcat(a: seq<PlanTree>, b: seq<PlanTree>)
    ensures OutlinesOf(a + b) == OutlinesOf(a) + OutlinesOf(b)
  {
    if a == [] {
      assert a + b == b;
    } else {
      assert (a + b)[1..] == a[1..] + b;
      OutlinesConcat(a[1..], b);
    }
  }

  lemma {:induction false} FlattenStage(o: Outline, parent: string, stage: string)
    ensures forall i :: 0 <= i < |Flatten(o, parent, stage)| ==> Flatten(o, parent, stage)[i].stageId == stage
    decreases o, 0
  {
    FlattenAllStage(o.children, o.id, stage);
  }

  lemma {:induction false} FlattenAllStage(os: seq<Outline>, parent: string, stage: string)
    ensures forall i :: 0 <= i < |FlattenAll(os, parent, stage)| ==> FlattenAll(os, parent, stage)[i].stageId == stage
    decreases os, 0
  {
    if os != [] {
      FlattenStage(os[0], parent, stage);
      FlattenAllStage(os[1..], parent, stage);
    }
  }

  /** A node of the plan and the id of the node above it, "" for none. */
  datatype Visit = Visit(node: PlanTree, parentId: string)

  /** The nodes in the order of the walk: a node, then the trees of its children one after the other. */
  function Visits(t: PlanTree, parent: string): seq<Visit>
    decreases t, 0
  {
    [Visit(t, parent)] + VisitsAll(t.children, t.id)
  }

  function VisitsAll(ts: seq<PlanTree>, parent: string): seq<Visit>
    decreases ts, 0
  {
    if ts == [] then [] else Visits(ts[0], parent) + VisitsAll(ts[1..], parent)
  }

  /** Entry by entry, the list carries the nodes of the plan. */
  ghost predicate Carries(list: seq<PlanNode>, visits: seq<Visit>, stage: string) {
    |list| == |visits| && forall i :: 0 <= i < |list| ==> CarriesAt(list[i], visits[i], stage)
  }

  ghost predicate CarriesAt(entry: PlanNode, v: Visit, stage: string) {
    && entry.id == v.node.id && entry.name == v.node.name && entry.detail == Describe(v.node.descriptor)
    && entry.parentId == v.parentId && entry.stageId == stage
  }

  lemma {:induction false} FlattenCarries(t: PlanTree, parent: string, stage: string)
    ensures Carries(Flatten(OutlineOf(t), parent, stage), Visits(t, parent), stage)
    decreases t, 0
  {
    FlattenAllCarries(t.children, t.id, stage);
  }

  lemma {:induction false} FlattenAllCarries(ts: seq<PlanTree>, parent: string, stage: string)
    ensures Carries(FlattenAll(OutlinesOf(ts), parent, stage), VisitsAll(ts, parent), stage)
    decreases ts, 0
  {
    if ts != [] {
      FlattenCarries(ts[0], parent, stage);
      FlattenAllCarries(ts[1..], parent, stage);
      assert OutlinesOf(ts)[1..] == OutlinesOf(ts[1..]);
    }
  }

  /** The list that the walks append to. */
  class PlanList {
    var items: seq<PlanNode>

    constructor ()
      ensures items == []
    {
      items := [];
    }
  }

  lemma NextChild(n: PlanTree, stage: string, i: nat)
    requires i < |n.children|
    ensures FlattenAll(OutlinesOf(n.children[..i + 1]), n.id, stage) ==
            FlattenAll(OutlinesOf(n.children[..i]), n.id, stage) + Flatten(OutlineOf(n.children[i]), n.id, stage)
  {
    var before, c := n.children[..i], n.children[i];
    assert n.children[..i + 1] == before + [c];
    OutlinesConcat(before, [c]);
    assert OutlinesOf([c]) == [OutlineOf(c)];
    FlattenAllConcat(OutlinesOf(before), [OutlineOf(c)], n.id, stage);
    var one := Flatten(OutlineOf(c), n.id, stage);
    assert one + [] == one;
  }

  method FlattenPlan(n: PlanTree, parentID: string, stageID: string, out: PlanList)
    modifies out
    ensures out.items == old(out.items) + Flatten(OutlineOf(n), parentID, stageID)
    ensures old(out.items) <= out.items && Carries(out.items[|old(out.items)|..], Visits(n, parentID), stageID)
    decreases n
  {
    FlattenCarries(n, parentID, stageID);
    var detail := DescribePlan(n.descriptor);
    out.items := out.items + [PlanNode(n.id, parentID, stageID, n.name, detail)];
    ghost var start, added: seq<PlanNode> := out.items, [];
    for i := 0 to |n.children|
      invariant added == FlattenAll(OutlinesOf(n.children[..i]), n.id, stageID) && out.items == start + added
    {
      ghost var child := Flatten(OutlineOf(n.children[i]), n.id, stageID);
      FlattenPlan(n.children[i], n.id, stageID, out);
      NextChild(n, stageID, i);
      Regroup(start, added, child);
      added := added + child;
    }
    assert n.children[..|n.children|] == n.children;
    Regroup(old(out.items), [Entry(OutlineOf(n), parentID, stageID)], added);
  }

  // ---- rebuilding a tree from the parent links ----

  /** The trees that the list starts with whose roots link to parent; an entry is taken as a child of the
      deepest node still open that it links to. */
  function Forest(list: seq<PlanNode>, parent: string): (r: (seq<Outline>, seq<PlanNode>))
    ensures |r.1| <= |list|
    decreases |list|
  {
    if list == [] || list[0].parentId != parent then ([], list)
    else
      var n := list[0];
      var (kids, rest) := Forest(list[1..], n.id);
      var (more, left) := Forest(rest, parent);
      ([Outline(n.id, n.name, n.detail, kids)] + more, left)
  }

  function Rebuild(list: seq<PlanNode>): Option<Outline> {
    if list == [] then None
    else
      var n := list[0];
      var (kids, left) := Forest(list[1..], n.id);
      if left == [] then Some(Outline(n.id, n.name, n.detail, kids)) else None
  }

  /** The ids on the way from o down its last children. */
  function Spine(o: Outline): set<string>
    decreases o
  {
    {o.id} + if o.children == [] then {} else Spine(o.children[|o.children| - 1])
  }

  function LastSpine(os: seq<Outline>): set<string> {
    if os == [] then {} else Spine(os[|os| - 1])
  }

  /** No node has the id of its parent on the spine of an earlier sibling: there the parent link of the next
      sibling would mean another node. */
  predicate DeepestLinked(o: Outline)
    decreases o, 0
  {
    AllDeepestLinked(o.children, o.id)
  }

  predicate AllDeepestLinked(os: seq<Outline>, parent: string)
    decreases os, 0
  {
    os == [] ||
    (DeepestLinked(os[0]) && (|os| > 1 ==> parent !in Spine(os[0])) && AllDeepestLinked(os[1..], parent))
  }

  /** The entry after a forest links to none of its open nodes. */
  predicate Detached(rest: seq<PlanNode>, os: seq<Outline>, parent: string) {
    rest == [] || (rest[0].parentId != parent && rest[0].parentId !in LastSpine(os))
  }

  lemma {:induction false} ForestOfFlattened(os: seq<Outline>, parent: string, stage: string, rest: seq<PlanNode>)
    requires AllDeepestLinked(os, parent) && Detached(rest, os, parent)
    ensures Forest(FlattenAll(os, parent, stage) + rest, parent) == (os, rest)
    decreases os
  {
    var list := FlattenAll(os, parent, stage) + rest;
    if os == [] {
      assert list == rest;
    } else {
      var o := os[0];
      var after := FlattenAll(os[1..], parent, stage) + rest;
      SplitForest(os, parent, stage, rest);
      assert list[1..] == FlattenAll(o.children, o.id, stage) + after;
      ForestOfFlattened(o.children, o.id, stage, after);
      ForestOfFlattened(os[1..], parent, stage, rest);
      assert os == [o] + os[1..];
    }
  }

  /** A flattened forest is the entry of its first root, its children, and the other trees. */
  lemma SplitForest(os: seq<Outline>, parent: string, stage: string, rest: seq<PlanNode>)
    requires os != [] && AllDeepestLinked(os, parent) && Detached(rest, os, parent)
    ensures var o, after := os[0], FlattenAll(os[1..], parent, stage) + rest;
      && FlattenAll(os, parent, stage) + rest ==
         [Entry(o, parent, stage)] + (FlattenAll(o.children, o.id, stage) + after)
      && Detached(after, o.children, o.id) && Detached(rest, os[1..], parent)
  {
    var o := os[0];
    var kids, sibs := FlattenAll(o.children, o.id, stage), FlattenAll(os[1..], parent, stage);
    RegroupFour([Entry(o, parent, stage)], kids, sibs, rest);
    if |os| > 1 {
      assert sibs == Flatten(os[1], parent, stage) + FlattenAll(os[1..][1..], parent, stage);
      assert (sibs + rest)[0] == Entry(os[1], parent, stage);
    } else {
      assert sibs + rest == rest;
    }
  }

  /** Whatever list it is given, the rebuilt forest links to the deepest open nodes. */
  lemma {:induction false} ForestDeepestLinked(list: seq<PlanNode>, parent: string)
    ensures var (os, left) := Forest(list, parent); AllDeepestLinked(os, parent) && Detached(left, os, parent)
    decreases |list|
  {
    if list != [] && list[0].parentId == parent {
      var n := list[0];
      var (kids, rest) := Forest(list[1..], n.id);
      var (more, left) := Forest(rest, parent);
      ForestDeepestLinked(list[1..], n.id);
      ForestDeepestLinked(rest, parent);
      var o := Outline(n.id, n.name, n.detail, kids);
      assert Spine(o) == {n.id} + LastSpine(kids);
      assert ([o] + more)[1..] == more;
      if more != [] {
        assert rest != [] && rest[0].parentId == parent;
        assert LastSpine([o] + more) == LastSpine(more);
      }
    }
  }

  /** A flattened plan gives its tree back exactly when every link of it is to the deepest
      open node of that id. */
  lemma RebuildExact(o: Outline, stage: string)
    ensures Rebuild(Flatten(o, "", stage)) == Some(o) <==> DeepestLinked(o)
  {
    var list := Flatten(o, "", stage);
    assert list[1..] == FlattenAll(o.children, o.id, stage) + [];
    if DeepestLinked(o) {
      ForestOfFlattened(o.children, o.id, stage, []);
    }
    if Rebuild(list) == Some(o) {
      ForestDeepestLinked(list[1..], o.id);
    }
  }

  // ---- unique ids ----

  predicate DistinctIds(list: seq<PlanNode>) {
    forall i, j :: 0 <= i < j < |list| ==> list[i].id != list[j].id
  }

  predicate HasId(list: seq<PlanNode>, id: string) {
    exists i :: 0 <= i < |list| && list[i].id == id
  }

  lemma DistinctParts(a: seq<PlanNode>, b: seq<PlanNode>)
    requires DistinctIds(a + b)
    ensures DistinctIds(a) && DistinctIds(b)
    ensures forall id :: HasId(a, id) ==> !HasId(b, id)
  {
    assert forall i :: 0 <= i < |a| ==> (a + b)[i] == a[i];
    assert forall i :: 0 <= i < |b| ==> (a + b)[|a| + i] == b[i];
  }

  lemma HasIdConcat(a: seq<PlanNode>, b: seq<PlanNode>, id: string)
    ensures HasId(a + b, id) <==> HasId(a, id) || HasId(b, id)
  {
    assert forall i :: 0 <= i < |a| ==> (a + b)[i] == a[i];
    assert forall i :: 0 <= i < |b| ==> (a + b)[|a| + i] == b[i];
    if HasId(a + b, id) {
      var i :| 0 <= i < |a + b| && (a + b)[i].id == id;
      assert i >= |a| ==> b[i - |a|].id == id;
    }
  }

  lemma {:induction false} SpineListed(o: Outline, parent: string, stage: string)
    ensures forall id :: id in Spine(o) ==> HasId(Flatten(o, parent, stage), id)
    decreases o
  {
    var head, tail := [Entry(o, parent, stage)], FlattenAll(o.children, o.id, stage);
    forall id | id in Spine(o) ensures HasId(Flatten(o, parent, stage), id) {
      HasIdConcat(head, tail, id);
      if id == o.id {
        assert head[0].id == id;
      } else {
        var n := |o.children| - 1;
        SpineListed(o.children[n], o.id, stage);
        assert o.children == o.children[..n] + [o.children[n]];
        FlattenAllConcat(o.children[..n], [o.children[n]], o.id, stage);
        var last := Flatten(o.children[n], o.id, stage);
        assert FlattenAll([o.children[n]], o.id, stage) == last + [];
        HasIdConcat(FlattenAll(o.children[..n], o.id, stage), last, id);
        assert last + [] == last;
      }
    }
  }

  lemma {:induction false} DistinctAllDeepestLinked(os: seq<Outline>, parent: string, stage: string)
    requires DistinctIds(FlattenAll(os, parent, stage)) && !HasId(FlattenAll(os, parent, stage), parent)
    ensures AllDeepestLinked(os, parent)
    decreases os, 0
  {
    if os != [] {
      var first, rest := Flatten(os[0], parent, stage), FlattenAll(os[1..], parent, stage);
      DistinctParts(first, rest);
      HasIdConcat(first, rest, parent);
      DistinctDeepestLinked(os[0], parent, stage);
      SpineListed(os[0], parent, stage);
      DistinctAllDeepestLinked(os[1..], parent, stage);
    }
  }

  /** With unique ids every link is to the deepest open node of its id: there is only one. */
  lemma {:induction false} DistinctDeepestLinked(o: Outline, parent: string, stage: string)
    requires DistinctIds(Flatten(o, parent, stage))
    ensures DeepestLinked(o)
    decreases o, 0
  {
    var head, tail := [Entry(o, parent, stage)], FlattenAll(o.children, o.id, stage);
    DistinctParts(head, tail);
    assert head[0].id == o.id;
    assert HasId(head, o.id);
    DistinctAllDeepestLinked(o.children, o.id, stage);
  }

  /** With unique ids, equal lists come from equal trees: shape, ids, names, details and order of children. */
  lemma FlattenInjective(o1: Outline, o2: Outline, stage: string)
    requires Flatten(o1, "", stage) == Flatten(o2, "", stage) && DistinctIds(Flatten(o1, "", stage))
    ensures o1 == o2 && Rebuild(Flatten(o1, "", stage)) == Some(o1)
  {
    DistinctDeepestLinked(o1, "", stage);
    DistinctDeepestLinked(o2, "", stage);
    RebuildExact(o1, stage);
    RebuildExact(o2, stage);
  }

  /** Among the trees whose links are all to the deepest open node, no two have the same list. */
  lemma DeepestLinkedInjective(o1: Outline, o2: Outline, stage: string)
    requires DeepestLinked(o1) && DeepestLinked(o2) && Flatten(o1, "", stage) == Flatten(o2, "", stage)
    ensures o1 == o2
  {
    RebuildExact(o1, stage);
    RebuildExact(o2, stage);
  }

  // ---- with the descriptors ----

  /** Every descriptor of the tree can be read back from its description. */
  predicate AllSeparable(t: PlanTree)
    decreases t, 0
  {
    Separable(t.descriptor) && EachSeparable(t.children)
  }

  predicate EachSeparable(ts: seq<PlanTree>)
    decreases ts, 0
  {
    ts == [] || (AllSeparable(ts[0]) && EachSeparable(ts[1..]))
  }

  lemma {:induction false} OutlineInjective(t1: PlanTree, t2: PlanTree)
    requires AllSeparable(t1) && AllSeparable(t2) && OutlineOf(t1) == OutlineOf(t2)
    ensures t1 == t2
    decreases t1, 0
  {
    DescribeInjective(t1.descriptor, t2.descriptor);
    OutlinesInjective(t1.children, t2.children);
  }

  lemma {:induction false} OutlinesInjective(ts1: seq<PlanTree>, ts2: seq<PlanTree>)
    requires EachSeparable(ts1) && EachSeparable(ts2) && OutlinesOf(ts1) == OutlinesOf(ts2)
    ensures ts1 == ts2
    decreases ts1, 0
  {
    if ts1 != [] && ts2 != [] {
      assert OutlinesOf(ts1)[0] == OutlineOf(ts1[0]) && OutlinesOf(ts1)[1..] == OutlinesOf(ts1[1..]);
      assert OutlinesOf(ts2)[0] == OutlineOf(ts2[0]) && OutlinesOf(ts2)[1..] == OutlinesOf(ts2[1..]);
      OutlineInjective(ts1[0], ts2[0]);
      OutlinesInjective(ts1[1..], ts2[1..]);
      assert ts1 == [ts1[0]] + ts1[1..] && ts2 == [ts2[0]] + ts2[1..];
    }
  }

  /** With unique ids and separable descriptors, the list determines the whole plan that the engine sent. */
  lemma PlanInjective(t1: PlanTree, t2: PlanTree, stage: string)
    requires AllSeparable(t1) && AllSeparable(t2) && DistinctIds(Flatten(OutlineOf(t1), "", stage))
    requires Flatten(OutlineOf(t1), "", stage) == Flatten(OutlineOf(t2), "", stage)
    ensures t1 == t2
  {
    FlattenInjective(OutlineOf(t1), OutlineOf(t2), stage);
    OutlineInjective(t1, t2);
  }

  // ---- a rebuild loses no entry ----

  lemma {:induction false} ForestCounts(list: seq<PlanNode>, parent: string, stage: string)
    ensures var (os, left) := Forest(list, parent); |FlattenAll(os, parent, stage)| + |left| == |list|
    decreases |list|
  {
    if list != [] && list[0].parentId == parent {
      var n := list[0];
      var (kids, rest) := Forest(list[1..], n.id);
      var (more, left) := Forest(rest, parent);
      ForestCounts(list[1..], n.id, stage);
      ForestCounts(rest, parent, stage);
      var o := Outline(n.id, n.name, n.detail, kids);
      assert ([o] + more)[1..] == more;
    }
  }

  lemma RebuildCounts(list: seq<PlanNode>, o: Outline, stage: string)
    requires Rebuild(list) == Some(o)
    ensures |Flatten(o, "", stage)| == |list|
  {
    ForestCounts(list[1..], list[0].id, stage);
  }
}
