/**
 When a flattened plan has only one tree. The nodes from the root to the last entry read so far are open; the
 next entry hangs from an open node whose id it links to. Every way of hanging the whole list is a tree, so the
 list determines its tree exactly when there is one way only, and that can be read off the ids.
 */
module Ambiguity {
  import opened GoStrings
  import opened Plans

  /** The deepest node of an open path that carries id, -1 if none does. */
  function Deepest(path: seq<string>, id: string): (d: int)
    ensures -1 <= d < |path|
    ensures d >= 0 ==> path[d] == id
    ensures forall j :: d < j < |path| ==> path[j] != id
  {
    if path == [] then -1
    else if path[|path| - 1] == id then |path| - 1
    else Deepest(path[..|path| - 1], id)
  }

  /** The open path after an entry was hung from its node d. */
  function Hang(path: seq<string>, d: nat, id: string): seq<string>
    requires d < |path|
  {
    path[..d + 1] + [id]
  }

  /** The rest of the list can be hung from the open path. */
  predicate Hangs(path: seq<string>, rest: seq<PlanNode>)
    decreases |rest|
  {
    rest == [] ||
    var d := Deepest(path, rest[0].parentId);
    d >= 0 && Hangs(Hang(path, d, rest[0].id), rest[1..])
  }

  /** There is only one way: at no entry does a second open node carry the parent's id from which, with this
      entry hung there, the rest of the list could still be hung. */
  predicate OneWay(path: seq<string>, rest: seq<PlanNode>)
    decreases |rest|
  {
    rest == [] ||
    var d := Deepest(path, rest[0].parentId);
    && d >= 0
    && (var second := Deepest(path[..d], rest[0].parentId);
        second < 0 || !Hangs(Hang(path, second, rest[0].id), rest[1..]))
    && OneWay(Hang(path, d, rest[0].id), rest[1..])
  }

  /** The list has one tree only, by a check of its ids and parent links. */
  predicate OneTree(list: seq<PlanNode>) {
    list != [] && OneWay([list[0].id], list[1..])
  }

  // ---- ways of hanging a list ----

  /** A way: for every open node the further children it gets. Their entries come deepest node first. */
  function Hung(ways: seq<seq<Outline>>, path: seq<string>, stage: string): seq<PlanNode>
    requires |ways| == |path|
  {
    if path == [] then []
    else
      var n := |path| - 1;
      FlattenAll(ways[n], path[n], stage) + Hung(ways[..n], path[..n], stage)
  }

  predicate IsWay(ways: seq<seq<Outline>>, path: seq<string>, rest: seq<PlanNode>, stage: string) {
    |ways| == |path| && Hung(ways, path, stage) == rest
  }

  lemma {:induction false} HungConcat(w1: seq<seq<Outline>>, w2: seq<seq<Outline>>,
                                      p1: seq<string>, p2: seq<string>, stage: string)
    requires |w1| == |p1| && |w2| == |p2|
    ensures Hung(w1 + w2, p1 + p2, stage) == Hung(w2, p2, stage) + Hung(w1, p1, stage)
    decreases |p2|
  {
    if p2 == [] {
      assert w1 + w2 == w1 && p1 + p2 == p1;
    } else {
      var n := |p2| - 1;
      assert (w1 + w2)[..|p1| + n] == w1 + w2[..n] && (p1 + p2)[..|p1| + n] == p1 + p2[..n];
      HungConcat(w1, w2[..n], p1, p2[..n], stage);
      Regroup(FlattenAll(w2[n], p2[n], stage), Hung(w2[..n], p2[..n], stage), Hung(w1, p1, stage));
    }
  }

  lemma HungOne(w: seq<Outline>, id: string, stage: string)
    ensures Hung([w], [id], stage) == FlattenAll(w, id, stage)
  {
    assert [w][..0] == [] && [id][..0] == [];
    assert FlattenAll(w, id, stage) + [] == FlattenAll(w, id, stage);
  }

  /** No children for each of n nodes. */
  function Barren(n: nat): (ways: seq<seq<Outline>>)
    ensures |ways| == n && forall i :: 0 <= i < n ==> ways[i] == []
  {
    seq(n, _ => [])
  }

  lemma {:induction false} HungBarren(path: seq<string>, stage: string)
    ensures Hung(Barren(|path|), path, stage) == []
  {
    if path != [] {
      var n := |path| - 1;
      assert Barren(|path|)[..n] == Barren(n);
      HungBarren(path[..n], stage);
    }
  }

  lemma FlattenAllEmpty(os: seq<Outline>, parent: string, stage: string)
    ensures FlattenAll(os, parent, stage) == [] <==> os == []
  {
  }

  lemma {:induction false} OnlyBarren(ways: seq<seq<Outline>>, path: seq<string>, stage: string)
    requires IsWay(ways, path, [], stage)
    ensures ways == Barren(|path|)
  {
    if path != [] {
      var n := |path| - 1;
      FlattenAllEmpty(ways[n], path[n], stage);
      OnlyBarren(ways[..n], path[..n], stage);
      assert ways == ways[..n] + [ways[n]];
    }
  }

  /** The way for a path from a way for the path behind its next entry: kids is the last component, and the
      entry becomes a further child of node d, in front of those it gets later. */
  function Place(ways: seq<seq<Outline>>, d: nat, e: PlanNode, length: nat): seq<seq<Outline>>
    requires |ways| == d + 2 && d < length
  {
    ways[..d] + [[Outline(e.id, e.name, e.detail, ways[d + 1])] + ways[d]] + Barren(length - d - 1)
  }

  lemma PlaceIsWay(ways: seq<seq<Outline>>, path: seq<string>, d: nat, rest: seq<PlanNode>, stage: string)
    requires rest != [] && d < |path| && path[d] == rest[0].parentId && rest[0].stageId == stage
    requires IsWay(ways, Hang(path, d, rest[0].id), rest[1..], stage)
    ensures IsWay(Place(ways, d, rest[0], |path|), path, rest, stage)
  {
    var e := rest[0];
    var front, kids, more := ways[..d], ways[d + 1], ways[d];
    var o := Outline(e.id, e.name, e.detail, kids);
    HungParts(front, more, kids, path[..d], path[d], e.id, stage);
    assert ways == front + [more] + [kids] && Hang(path, d, e.id) == path[..d] + [path[d]] + [e.id];
    HungPlaced(front, o, more, path, d, stage);
    assert rest == [e] + rest[1..];
  }

  lemma HungParts(front: seq<seq<Outline>>, more: seq<Outline>, kids: seq<Outline>,
                  path: seq<string>, parent: string, id: string, stage: string)
    requires |front| == |path|
    ensures Hung(front + [more] + [kids], path + [parent] + [id], stage) ==
            FlattenAll(kids, id, stage) + (FlattenAll(more, parent, stage) + Hung(front, path, stage))
  {
    HungConcat(front + [more], [kids], path + [parent], [id], stage);
    HungConcat(front, [more], path, [parent], stage);
    HungOne(kids, id, stage);
    HungOne(more, parent, stage);
  }

  /** Nothing hangs below node d, and its children come first. */
  lemma HungFrom(front: seq<seq<Outline>>, kids: seq<Outline>, path: seq<string>, d: nat, stage: string)
    requires |front| == d < |path|
    ensures Hung(front + [kids] + Barren(|path| - d - 1), path, stage) ==
            FlattenAll(kids, path[d], stage) + Hung(front, path[..d], stage)
  {
    var below := path[d + 1..];
    assert path == path[..d] + [path[d]] + below;
    HungConcat(front + [kids], Barren(|below|), path[..d] + [path[d]], below, stage);
    HungBarren(below, stage);
    HungConcat(front, [kids], path[..d], [path[d]], stage);
    HungOne(kids, path[d], stage);
  }

  lemma HungPlaced(front: seq<seq<Outline>>, o: Outline, more: seq<Outline>, path: seq<string>, d: nat, stage: string)
    requires |front| == d < |path|
    ensures Hung(front + [[o] + more] + Barren(|path| - d - 1), path, stage) ==
            [Entry(o, path[d], stage)]
            + (FlattenAll(o.children, o.id, stage) + (FlattenAll(more, path[d], stage) + Hung(front, path[..d], stage)))
  {
    HungFrom(front, [o] + more, path, d, stage);
    assert ([o] + more)[1..] == more;
    RegroupFour([Entry(o, path[d], stage)], FlattenAll(o.children, o.id, stage), FlattenAll(more, path[d], stage),
                Hung(front, path[..d], stage));
  }

  lemma TakeLast(ways: seq<seq<Outline>>, path: seq<string>, rest: seq<PlanNode>, stage: string)
    returns (tail: seq<seq<Outline>>)
    requires IsWay(ways, path, rest, stage) && path != [] && ways[|path| - 1] != []
    ensures rest != [] && path[|path| - 1] == rest[0].parentId && rest[0].stageId == stage
    ensures IsWay(tail, Hang(path, |path| - 1, rest[0].id), rest[1..], stage)
    ensures ways == Place(tail, |path| - 1, rest[0], |path|)
  {
    var n := |path| - 1;
    var o, more := ways[n][0], ways[n][1..];
    assert ways[n] == [o] + more;
    tail := ways[..n] + [more] + [o.children];
    assert ways == ways[..n] + [[o] + more] + Barren(0);
    HungPlaced(ways[..n], o, more, path, n, stage);
    HungParts(ways[..n], more, o.children, path[..n], path[n], o.id, stage);
    assert Hang(path, n, o.id) == path[..n] + [path[n]] + [o.id];
  }

  /** Every way for a path is placed from a way for the path behind its next entry. */
  lemma {:induction false} TakeEntry(ways: seq<seq<Outline>>, path: seq<string>, rest: seq<PlanNode>, stage: string)
    returns (d: nat, tail: seq<seq<Outline>>)
    requires IsWay(ways, path, rest, stage) && rest != []
    ensures d < |path| && path[d] == rest[0].parentId && rest[0].stageId == stage
    ensures IsWay(tail, Hang(path, d, rest[0].id), rest[1..], stage) && ways == Place(tail, d, rest[0], |path|)
  {
    var n := |path| - 1;
    if ways[n] == [] {
      d, tail := TakeEntry(ways[..n], path[..n], rest, stage);
      assert Hang(path[..n], d, rest[0].id) == Hang(path, d, rest[0].id);
      assert Barren(n - d - 1) + [[]] == Barren(n - d);
      assert ways == ways[..n] + [[]];
    } else {
      d := n;
      tail := TakeLast(ways, path, rest, stage);
    }
  }

  /** What can be hung from a path can be hung from a longer one: the further nodes stay without children. */
  lemma LongerPath(ways: seq<seq<Outline>>, path: seq<string>, i: nat, d: nat, id: string,
                   rest: seq<PlanNode>, stage: string) returns (longer: seq<seq<Outline>>)
    requires i <= d < |path| && IsWay(ways, Hang(path, i, id), rest, stage)
    ensures IsWay(longer, Hang(path, d, id), rest, stage)
  {
    var front, kids := ways[..i + 1], ways[i + 1];
    var upper, added := path[..i + 1], path[i + 1..d + 1];
    assert ways == front + [kids];
    HungConcat(front, [kids], upper, [id], stage);
    longer := (front + Barren(|added|)) + [kids];
    assert Hang(path, d, id) == (upper + added) + [id];
    HungConcat(front + Barren(|added|), [kids], upper + added, [id], stage);
    HungConcat(front, Barren(|added|), upper, added, stage);
    HungBarren(added, stage);
  }

  // ---- the checks are exact ----

  predicate OfStage(list: seq<PlanNode>, stage: string) {
    forall i :: 0 <= i < |list| ==> list[i].stageId == stage
  }

  lemma {:induction false} FindWay(path: seq<string>, rest: seq<PlanNode>, stage: string)
    returns (ways: seq<seq<Outline>>)
    requires Hangs(path, rest) && OfStage(rest, stage)
    ensures IsWay(ways, path, rest, stage)
    decreases |rest|
  {
    if rest == [] {
      ways := Barren(|path|);
      HungBarren(path, stage);
    } else {
      var d := Deepest(path, rest[0].parentId);
      var tail := FindWay(Hang(path, d, rest[0].id), rest[1..], stage);
      PlaceIsWay(tail, path, d, rest, stage);
      ways := Place(tail, d, rest[0], |path|);
    }
  }

  /** Hanging each entry from the deepest possible node succeeds whenever any way does. */
  lemma {:induction false} WayHangs(ways: seq<seq<Outline>>, path: seq<string>, rest: seq<PlanNode>, stage: string)
    requires IsWay(ways, path, rest, stage)
    ensures Hangs(path, rest)
    decreases |rest|
  {
    if rest != [] {
      var i, tail := TakeEntry(ways, path, rest, stage);
      var d := Deepest(path, rest[0].parentId);
      var longer := LongerPath(tail, path, i, d, rest[0].id, rest[1..], stage);
      WayHangs(longer, Hang(path, d, rest[0].id), rest[1..], stage);
    }
  }

  lemma {:induction false} OneWayIsOne(w1: seq<seq<Outline>>, w2: seq<seq<Outline>>, path: seq<string>,
                                       rest: seq<PlanNode>, stage: string)
    requires OneWay(path, rest) && IsWay(w1, path, rest, stage) && IsWay(w2, path, rest, stage)
    ensures w1 == w2
    decreases |rest|
  {
    if rest == [] {
      OnlyBarren(w1, path, stage);
      OnlyBarren(w2, path, stage);
    } else {
      var d := Deepest(path, rest[0].parentId);
      var d1, t1 := TakeEntry(w1, path, rest, stage);
      var d2, t2 := TakeEntry(w2, path, rest, stage);
      TakesDeepest(t1, path, d1, rest, stage);
      TakesDeepest(t2, path, d2, rest, stage);
      OneWayIsOne(t1, t2, Hang(path, d, rest[0].id), rest[1..], stage);
    }
  }

  lemma TakesDeepest(tail: seq<seq<Outline>>, path: seq<string>, i: nat, rest: seq<PlanNode>, stage: string)
    requires rest != [] && OneWay(path, rest) && i < |path| && path[i] == rest[0].parentId
    requires IsWay(tail, Hang(path, i, rest[0].id), rest[1..], stage)
    ensures i == Deepest(path, rest[0].parentId)
  {
    var d := Deepest(path, rest[0].parentId);
    var second := Deepest(path[..d], rest[0].parentId);
    if i < d {
      assert path[..d][i] == path[i];
      var longer := LongerPath(tail, path, i, second, rest[0].id, rest[1..], stage);
      WayHangs(longer, Hang(path, second, rest[0].id), rest[1..], stage);
    }
  }

  /** When the check fails there are two ways. */
  lemma {:induction false} TwoWays(path: seq<string>, rest: seq<PlanNode>, stage: string)
    returns (w1: seq<seq<Outline>>, w2: seq<seq<Outline>>)
    requires Hangs(path, rest) && !OneWay(path, rest) && OfStage(rest, stage)
    ensures IsWay(w1, path, rest, stage) && IsWay(w2, path, rest, stage) && w1 != w2
    decreases |rest|
  {
    var e := rest[0];
    var d := Deepest(path, e.parentId);
    var second := Deepest(path[..d], e.parentId);
    var t1, t2;
    if second >= 0 && Hangs(Hang(path, second, e.id), rest[1..]) {
      t1 := FindWay(Hang(path, d, e.id), rest[1..], stage);
      t2 := FindWay(Hang(path, second, e.id), rest[1..], stage);
      PlaceIsWay(t2, path, second, rest, stage);
      w2 := Place(t2, second, e, |path|);
      assert w2[d] == [];
    } else {
      t1, t2 := TwoWays(Hang(path, d, e.id), rest[1..], stage);
      PlaceIsWay(t2, path, d, rest, stage);
      w2 := Place(t2, d, e, |path|);
      PlaceInjective(t1, t2, d, e, |path|);
    }
    PlaceIsWay(t1, path, d, rest, stage);
    w1 := Place(t1, d, e, |path|);
    assert w1[d] != [];
  }

  lemma PlaceInjective(t1: seq<seq<Outline>>, t2: seq<seq<Outline>>, d: nat, e: PlanNode, length: nat)
    requires |t1| == |t2| == d + 2 && d < length
    ensures Place(t1, d, e, length) == Place(t2, d, e, length) ==> t1 == t2
  {
    var w1, w2 := Place(t1, d, e, length), Place(t2, d, e, length);
    if w1 == w2 {
      assert t1[..d] == w1[..d] == w2[..d] == t2[..d];
      assert w1[d][0] == w2[d][0] && w1[d][1..] == w2[d][1..];
      assert t1[d] == w1[d][1..] && t2[d] == w2[d][1..];
      assert t1 == t1[..d] + [t1[d]] + [t1[d + 1]] && t2 == t2[..d] + [t2[d]] + [t2[d + 1]];
    }
  }

  // ---- trees ----

  /** The trees of a list are its ways of hanging everything from the root. */
  lemma TreeIsWay(o: Outline, list: seq<PlanNode>, stage: string)
    requires list != [] && list[0] == Entry(o, "", stage)
    ensures Flatten(o, "", stage) == list <==> IsWay([o.children], [o.id], list[1..], stage)
  {
    HungOne(o.children, o.id, stage);
    assert list == [list[0]] + list[1..];
  }

  /** A flattened plan determines its tree exactly when its ids pass the check: no other tree has the same list. */
  lemma OneTreeExact(o: Outline, stage: string)
    ensures OneTree(Flatten(o, "", stage)) <==>
            forall other :: Flatten(other, "", stage) == Flatten(o, "", stage) ==> other == o
  {
    var list := Flatten(o, "", stage);
    TreeIsWay(o, list, stage);
    if OneTree(list) {
      forall other | Flatten(other, "", stage) == list ensures other == o {
        assert list[0] == Entry(other, "", stage) == Entry(o, "", stage);
        TreeIsWay(other, list, stage);
        OneWayIsOne([o.children], [other.children], [o.id], list[1..], stage);
        assert [o.children][0] == [other.children][0];
      }
    } else {
      FlattenKeepsStage(o, "", stage);
      WayHangs([o.children], [o.id], list[1..], stage);
      var w1, w2 := TwoWays([o.id], list[1..], stage);
      var o1, o2 := o.(children := w1[0]), o.(children := w2[0]);
      assert w1 == [w1[0]] && w2 == [w2[0]];
      TreeIsWay(o1, list, stage);
      TreeIsWay(o2, list, stage);
      assert o1 != o2;
    }
  }

  lemma FlattenKeepsStage(o: Outline, parent: string, stage: string)
    ensures OfStage(Flatten(o, parent, stage), stage)
  {
    FlattenStage(o, parent, stage);
  }

  /** Unique ids pass the check. */
  lemma DistinctOneTree(o: Outline, stage: string)
    requires DistinctIds(Flatten(o, "", stage))
    ensures OneTree(Flatten(o, "", stage))
  {
    forall other | Flatten(other, "", stage) == Flatten(o, "", stage) ensures other == o {
      FlattenInjective(o, other, stage);
    }
    OneTreeExact(o, stage);
  }

  // ---- the one tree is the one that a rebuild finds ----

  /** The ids on the way from node j down the last children, once every node has the children of its way. */
  function OpenSpine(ways: seq<seq<Outline>>, path: seq<string>, j: nat): set<string>
    requires |ways| == |path| && j <= |path|
    decreases |path| - j
  {
    if j == |path| then {}
    else {path[j]} + if ways[j] != [] then LastSpine(ways[j]) else OpenSpine(ways, path, j + 1)
  }

  /** Node i gets children whose links mean i and nothing below it. */
  predicate LinksDeepest(ways: seq<seq<Outline>>, path: seq<string>, i: nat)
    requires |ways| == |path| && i < |path|
  {
    AllDeepestLinked(ways[i], path[i]) && (ways[i] != [] ==> path[i] !in OpenSpine(ways, path, i + 1))
  }

  lemma {:induction false} BarrenSpine(ways: seq<seq<Outline>>, path: seq<string>, j: nat)
    requires |ways| == |path| && j <= |path| && forall i :: j <= i < |ways| ==> ways[i] == []
    ensures forall id :: id in OpenSpine(ways, path, j) ==> exists i :: j <= i < |path| && path[i] == id
    decreases |path| - j
  {
    if j < |path| {
      BarrenSpine(ways, path, j + 1);
    }
  }

  /** Placing an entry changes no spine above it. */
  lemma {:induction false} PlacedSpine(tail: seq<seq<Outline>>, path: seq<string>, d: nat, e: PlanNode, j: nat)
    requires |tail| == d + 2 && j <= d < |path|
    ensures OpenSpine(Place(tail, d, e, |path|), path, j) == OpenSpine(tail, Hang(path, d, e.id), j)
    decreases d - j
  {
    var ways, hung := Place(tail, d, e, |path|), Hang(path, d, e.id);
    if j < d {
      PlacedSpine(tail, path, d, e, j + 1);
    } else {
      var o := Outline(e.id, e.name, e.detail, tail[d + 1]);
      assert ways[d] == [o] + tail[d];
      assert OpenSpine(tail, hung, d + 2) == {};
      assert OpenSpine(tail, hung, d + 1) == {e.id} + LastSpine(tail[d + 1]) == Spine(o);
      assert LastSpine(ways[d]) == if tail[d] != [] then LastSpine(tail[d]) else Spine(o);
    }
  }

  lemma PlacedAbove(tail: seq<seq<Outline>>, path: seq<string>, d: nat, e: PlanNode, i: nat)
    requires |tail| == d + 2 && i < d < |path| && LinksDeepest(tail, Hang(path, d, e.id), i)
    ensures LinksDeepest(Place(tail, d, e, |path|), path, i)
  {
    PlacedSpine(tail, path, d, e, i + 1);
  }

  lemma PlacedAt(tail: seq<seq<Outline>>, path: seq<string>, d: nat, e: PlanNode)
    requires |tail| == d + 2 && d < |path| && forall j :: d < j < |path| ==> path[j] != path[d]
    requires LinksDeepest(tail, Hang(path, d, e.id), d) && LinksDeepest(tail, Hang(path, d, e.id), d + 1)
    ensures LinksDeepest(Place(tail, d, e, |path|), path, d)
  {
    var ways, hung := Place(tail, d, e, |path|), Hang(path, d, e.id);
    var kids, more := tail[d + 1], tail[d];
    var o := Outline(e.id, e.name, e.detail, kids);
    FirstChild(o, more, path[d]);
    assert OpenSpine(tail, hung, d + 2) == {};
    assert OpenSpine(tail, hung, d + 1) == Spine(o);
    assert ways[d] == [o] + more;
    BarrenSpine(ways, path, d + 1);
  }

  lemma FirstChild(o: Outline, more: seq<Outline>, parent: string)
    ensures AllDeepestLinked([o] + more, parent) <==>
            AllDeepestLinked(o.children, o.id) && AllDeepestLinked(more, parent) && (more != [] ==> parent !in Spine(o))
  {
    assert ([o] + more)[1..] == more;
  }

  lemma {:induction false} OneWayLinksDeepest(ways: seq<seq<Outline>>, path: seq<string>,
                                              rest: seq<PlanNode>, stage: string)
    requires OneWay(path, rest) && IsWay(ways, path, rest, stage)
    ensures forall i: nat :: i < |path| ==> LinksDeepest(ways, path, i)
    decreases |rest|
  {
    if rest == [] {
      OnlyBarren(ways, path, stage);
    } else {
      var d, tail := TakeEntry(ways, path, rest, stage);
      TakesDeepest(tail, path, d, rest, stage);
      OneWayLinksDeepest(tail, Hang(path, d, rest[0].id), rest[1..], stage);
      forall i: nat | i < |path| ensures LinksDeepest(ways, path, i) {
        if i < d {
          PlacedAbove(tail, path, d, rest[0], i);
        } else if i == d {
          PlacedAt(tail, path, d, rest[0]);
        }
      }
    }
  }

  /** When a list has one tree, rebuilding finds it. */
  lemma OneTreeRebuilt(o: Outline, stage: string)
    requires OneTree(Flatten(o, "", stage))
    ensures DeepestLinked(o) && Rebuild(Flatten(o, "", stage)) == Some(o)
  {
    var list := Flatten(o, "", stage);
    TreeIsWay(o, list, stage);
    OneWayLinksDeepest([o.children], [o.id], list[1..], stage);
    assert LinksDeepest([o.children], [o.id], 0);
    RebuildExact(o, stage);
  }

  /** Repeated ids can lose the shape, and linking to the deepest open node is not enough against it: a chain of
      three equal ids rebuilds to itself, yet a node with two children has the same list. */
  lemma RepeatedIdsLoseShape(stage: string)
    ensures var leaf := Outline("a", "Scan", "", []);
      var wide := Outline("a", "Scan", "", [leaf, leaf]);
      var deep := Outline("a", "Scan", "", [Outline("a", "Scan", "", [leaf])]);
      && wide != deep && Flatten(wide, "", stage) == Flatten(deep, "", stage)
      && DeepestLinked(deep) && !OneTree(Flatten(deep, "", stage))
  {
    var leaf := Outline("a", "Scan", "", []);
    var wide := Outline("a", "Scan", "", [leaf, leaf]);
    var deep := Outline("a", "Scan", "", [Outline("a", "Scan", "", [leaf])]);
    assert Flatten(wide, "", stage) == Flatten(deep, "", stage);
    OneTreeExact(deep, stage);
  }
}
