/** The two walks over the tree of stages, and how the flat plan list splits back into the plans of the stages. */
module Stages {
  import opened GoStrings
  import opened Plans

  /** What the engine reports about a stage; durations and sizes are texts with a unit. */
  datatype StageStats = StageStats(cpuTime: string, scheduledTime: string, blockedTime: string,
                                   inputRows: int, inputSize: string, outputRows: int, outputSize: string)

  /** A stage; plan is the JSON text of its plan, if the engine sent one. */
  datatype Stage = Stage(stageId: string, state: string, stats: StageStats, plan: Option<string>, subStages: seq<Stage>)

  datatype StageDetail = StageDetail(stageId: string, state: string,
                                     cpuMillis: real, wallMillis: real, blockedMillis: real,
                                     inputRows: int, inputBytes: int, outputRows: int, outputBytes: int)

  /** How durations and sizes are read, which never fails. */
  datatype Units = Units(millis: string -> real, bytes: string -> int)

  /** JSON decoding of a plan, which fails on malformed text. */
  type Decoder = string -> Option<PlanTree>

  function DetailOf(u: Units, s: Stage): StageDetail {
    var t := s.stats;
    StageDetail(s.stageId, s.state, u.millis(t.cpuTime), u.millis(t.scheduledTime), u.millis(t.blockedTime),
                t.inputRows, u.bytes(t.inputSize), t.outputRows, u.bytes(t.outputSize))
  }

  function Preorder(s: Stage): seq<Stage>
    decreases s, 0
  {
    [s] + PreorderAll(s.subStages)
  }

  function PreorderAll(ss: seq<Stage>): seq<Stage>
    decreases ss, 0
  {
    if ss == [] then [] else Preorder(ss[0]) + PreorderAll(ss[1..])
  }

  lemma {:induction false} PreorderConcat(a: seq<Stage>, b: seq<Stage>)
    ensures PreorderAll(a + b) == PreorderAll(a) + PreorderAll(b)
  {
    if a == [] {
      assert a + b == b;
    } else {
      assert (a + b)[1..] == a[1..] + b;
      PreorderConcat(a[1..], b);
    }
  }

  lemma NextSubStage(ss: seq<Stage>, i: nat)
    requires i < |ss|
    ensures PreorderAll(ss[..i + 1]) == PreorderAll(ss[..i]) + Preorder(ss[i])
  {
    assert ss[..i + 1] == ss[..i] + [ss[i]];
    PreorderConcat(ss[..i], [ss[i]]);
    assert PreorderAll([ss[i]]) == Preorder(ss[i]) + [];
  }

  /** A stage comes before its sub-stages, and those come one whole tree after the other, in their own order. */
  lemma PreorderBlocks(s: Stage, i: nat)
    requires i < |s.subStages|
    ensures Preorder(s) == [s] + (PreorderAll(s.subStages[..i]) + Preorder(s.subStages[i])
                                  + PreorderAll(s.subStages[i + 1..]))
  {
    NextSubStage(s.subStages, i);
    PreorderConcat(s.subStages[..i + 1], s.subStages[i + 1..]);
    assert s.subStages == s.subStages[..i + 1] + s.subStages[i + 1..];
  }

  function DetailsOf(u: Units, ss: seq<Stage>): (ds: seq<StageDetail>)
    ensures |ds| == |ss| && forall i :: 0 <= i < |ss| ==> ds[i] == DetailOf(u, ss[i])
  {
    seq(|ss|, i requires 0 <= i < |ss| => DetailOf(u, ss[i]))
  }

  lemma NextDetails(u: Units, ss: seq<Stage>, i: nat)
    requires i < |ss|
    ensures DetailsOf(u, PreorderAll(ss[..i + 1])) == DetailsOf(u, PreorderAll(ss[..i])) + DetailsOf(u, Preorder(ss[i]))
  {
    NextSubStage(ss, i);
  }

  lemma DetailsOfTree(u: Units, s: Stage)
    ensures DetailsOf(u, Preorder(s)) == [DetailOf(u, s)] + DetailsOf(u, PreorderAll(s.subStages))
  {
  }

  class StageList {
    var items: seq<StageDetail>

    constructor ()
      ensures items == []
    {
      items := [];
    }
  }

  method WalkStages(u: Units, s: Stage, out: StageList)
    modifies out
    ensures out.items == old(out.items) + DetailsOf(u, Preorder(s))
    decreases s
  {
    out.items := out.items + [DetailOf(u, s)];
    ghost var start, added: seq<StageDetail> := out.items, [];
    for i := 0 to |s.subStages|
      invariant added == DetailsOf(u, PreorderAll(s.subStages[..i])) && out.items == start + added
    {
      ghost var more := DetailsOf(u, Preorder(s.subStages[i]));
      WalkStages(u, s.subStages[i], out);
      NextDetails(u, s.subStages, i);
      Regroup(start, added, more);
      added := added + more;
    }
    assert s.subStages[..|s.subStages|] == s.subStages;
    DetailsOfTree(u, s);
    Regroup(old(out.items), [DetailOf(u, s)], added);
  }

  /** One entry for every stage, in preorder. */
  method StagesFromLive(u: Units, root: Stage) returns (details: seq<StageDetail>)
    ensures details == DetailsOf(u, Preorder(root))
    ensures |details| == |Preorder(root)|
    ensures forall i :: 0 <= i < |details| ==>
              var d, s := details[i], Preorder(root)[i];
              && d.stageId == s.stageId && d.state == s.state
              && d.cpuMillis == u.millis(s.stats.cpuTime) && d.wallMillis == u.millis(s.stats.scheduledTime)
              && d.blockedMillis == u.millis(s.stats.blockedTime)
              && d.inputRows == s.stats.inputRows && d.inputBytes == u.bytes(s.stats.inputSize)
              && d.outputRows == s.stats.outputRows && d.outputBytes == u.bytes(s.stats.outputSize)
  {
    var out := new StageList();
    WalkStages(u, root, out);
    details := out.items;
  }

  // ---- plans ----

  predicate HasPlan(decode: Decoder, s: Stage) {
    s.plan.Some? && s.plan.value != "" && decode(s.plan.value).Some?
  }

  /** The entries of one stage: its flattened plan, or nothing when there is none or it does not decode. */
  ghost function PlanOf(decode: Decoder, s: Stage): seq<PlanNode> {
    if HasPlan(decode, s) then Flatten(OutlineOf(decode(s.plan.value).value), "", s.stageId) else []
  }

  /** A stage contributes nothing exactly when it has no plan, an empty one or one that does not decode; otherwise an
      entry for each node of its plan, under its own id. */
  lemma PlanOfExact(decode: Decoder, s: Stage)
    ensures PlanOf(decode, s) == [] <==> s.plan == None || s.plan == Some("") || decode(s.plan.value) == None
    ensures PlanOf(decode, s) != [] ==> Carries(PlanOf(decode, s), Visits(decode(s.plan.value).value, ""), s.stageId)
  {
    if HasPlan(decode, s) {
      FlattenCarries(decode(s.plan.value).value, "", s.stageId);
    }
  }

  ghost function PlansOf(decode: Decoder, ss: seq<Stage>): seq<PlanNode> {
    if ss == [] then [] else PlanOf(decode, ss[0]) + PlansOf(decode, ss[1..])
  }

  lemma {:induction false} PlansConcat(decode: Decoder, a: seq<Stage>, b: seq<Stage>)
    ensures PlansOf(decode, a + b) == PlansOf(decode, a) + PlansOf(decode, b)
  {
    if a == [] {
      assert a + b == b;
    } else {
      assert (a + b)[1..] == a[1..] + b;
      PlansConcat(decode, a[1..], b);
      Regroup(PlanOf(decode, a[0]), PlansOf(decode, a[1..]), PlansOf(decode, b));
    }
  }

  lemma PlansOfTree(decode: Decoder, s: Stage)
    ensures PlansOf(decode, Preorder(s)) == PlanOf(decode, s) + PlansOf(decode, PreorderAll(s.subStages))
  {
    assert Preorder(s)[1..] == PreorderAll(s.subStages);
  }

  lemma NextPlans(decode: Decoder, ss: seq<Stage>, i: nat)
    requires i < |ss|
    ensures PlansOf(decode, PreorderAll(ss[..i + 1])) ==
            PlansOf(decode, PreorderAll(ss[..i])) + PlansOf(decode, Preorder(ss[i]))
  {
    NextSubStage(ss, i);
    PlansConcat(decode, PreorderAll(ss[..i]), Preorder(ss[i]));
  }

  /** The first half of one visit: append the plan of the stage, if there is one. */
  method AppendPlan(decode: Decoder, s: Stage, out: PlanList)
    modifies out
    ensures out.items == old(out.items) + PlanOf(decode, s)
  {
    if s.plan.Some? && s.plan.value != "" {
      var node := decode(s.plan.value);
      if node.Some? {
        FlattenPlan(node.value, "", s.stageId, out);
      }
    }
  }

  method WalkPlans(decode: Decoder, s: Stage, out: PlanList)
    modifies out
    ensures out.items == old(out.items) + PlansOf(decode, Preorder(s))
    decreases s
  {
    AppendPlan(decode, s, out);
    ghost var start, added: seq<PlanNode> := out.items, [];
    for i := 0 to |s.subStages|
      invariant added == PlansOf(decode, PreorderAll(s.subStages[..i])) && out.items == start + added
    {
      ghost var block := PlansOf(decode, Preorder(s.subStages[i]));
      WalkPlans(decode, s.subStages[i], out);
      NextPlans(decode, s.subStages, i);
      Regroup(start, added, block);
      added := added + block;
    }
    assert s.subStages[..|s.subStages|] == s.subStages;
    PlansOfTree(decode, s);
    Regroup(old(out.items), PlanOf(decode, s), added);
  }

  method PlanFromLive(decode: Decoder, root: Stage) returns (plan: seq<PlanNode>)
    ensures plan == PlansOf(decode, Preorder(root))
  {
    var out := new PlanList();
    WalkPlans(decode, root, out);
    plan := out.items;
  }

  // ---- the plan list against the stage list ----

  predicate DistinctStages(ss: seq<Stage>) {
    forall i, j :: 0 <= i < j < |ss| ==> ss[i].stageId != ss[j].stageId
  }

  /** The entries of list that carry the stage id, in order. */
  function Select(list: seq<PlanNode>, stage: string): seq<PlanNode> {
    if list == [] then []
    else (if list[0].stageId == stage then [list[0]] else []) + Select(list[1..], stage)
  }

  lemma {:induction false} SelectConcat(a: seq<PlanNode>, b: seq<PlanNode>, stage: string)
    ensures Select(a + b, stage) == Select(a, stage) + Select(b, stage)
  {
    if a == [] {
      assert a + b == b;
    } else {
      assert (a + b)[1..] == a[1..] + b;
      SelectConcat(a[1..], b, stage);
      Regroup(if a[0].stageId == stage then [a[0]] else [], Select(a[1..], stage), Select(b, stage));
    }
  }

  lemma {:induction false} SelectAll(list: seq<PlanNode>, stage: string)
    requires forall i :: 0 <= i < |list| ==> list[i].stageId == stage
    ensures Select(list, stage) == list
  {
    if list != [] {
      SelectAll(list[1..], stage);
      assert list == [list[0]] + list[1..];
    }
  }

  lemma {:induction false} SelectNone(list: seq<PlanNode>, stage: string)
    requires forall i :: 0 <= i < |list| ==> list[i].stageId != stage
    ensures Select(list, stage) == []
  {
    if list != [] {
      SelectNone(list[1..], stage);
    }
  }

  lemma PlanOfStage(decode: Decoder, s: Stage)
    ensures forall i :: 0 <= i < |PlanOf(decode, s)| ==> PlanOf(decode, s)[i].stageId == s.stageId
  {
    if HasPlan(decode, s) {
      FlattenStage(OutlineOf(decode(s.plan.value).value), "", s.stageId);
    }
  }

  lemma {:induction false} OtherStages(decode: Decoder, ss: seq<Stage>, stage: string)
    requires forall i :: 0 <= i < |ss| ==> ss[i].stageId != stage
    ensures Select(PlansOf(decode, ss), stage) == []
  {
    if ss != [] {
      PlanOfStage(decode, ss[0]);
      SelectNone(PlanOf(decode, ss[0]), stage);
      SelectConcat(PlanOf(decode, ss[0]), PlansOf(decode, ss[1..]), stage);
      OtherStages(decode, ss[1..], stage);
    }
  }

  /** The plan list is made of one contiguous block per stage, in the order of the stage list, and with distinct
      stage ids the block of a stage is exactly what its id selects. */
  lemma StageBlocks(decode: Decoder, root: Stage, k: nat)
    requires DistinctStages(Preorder(root)) && k < |Preorder(root)|
    ensures var ss := Preorder(root);
      && PlansOf(decode, ss) == PlansOf(decode, ss[..k]) + PlanOf(decode, ss[k]) + PlansOf(decode, ss[k + 1..])
      && Select(PlansOf(decode, ss), ss[k].stageId) == PlanOf(decode, ss[k])
      && Select(PlansOf(decode, ss[..k]), ss[k].stageId) == [] == Select(PlansOf(decode, ss[k + 1..]), ss[k].stageId)
  {
    var ss := Preorder(root);
    var id, before, after := ss[k].stageId, ss[..k], ss[k + 1..];
    PlansAround(decode, ss, k);
    OtherStages(decode, before, id);
    OtherStages(decode, after, id);
    PlanOfStage(decode, ss[k]);
    SelectMiddle(PlansOf(decode, before), PlanOf(decode, ss[k]), PlansOf(decode, after), id);
  }

  lemma PlansAround(decode: Decoder, ss: seq<Stage>, k: nat)
    requires k < |ss|
    ensures PlansOf(decode, ss) == PlansOf(decode, ss[..k]) + PlanOf(decode, ss[k]) + PlansOf(decode, ss[k + 1..])
  {
    var before, rest := ss[..k], ss[k..];
    assert ss == before + rest && rest[0] == ss[k] && rest[1..] == ss[k + 1..];
    PlansConcat(decode, before, rest);
    Regroup(PlansOf(decode, before), PlanOf(decode, ss[k]), PlansOf(decode, ss[k + 1..]));
  }

  lemma SelectMiddle(a: seq<PlanNode>, b: seq<PlanNode>, c: seq<PlanNode>, stage: string)
    requires Select(a, stage) == [] && Select(c, stage) == []
    requires forall i :: 0 <= i < |b| ==> b[i].stageId == stage
    ensures Select(a + b + c, stage) == b
  {
    SelectAll(b, stage);
    SelectConcat(a + b, c, stage);
    SelectConcat(a, b, stage);
  }

  // ---- stages that share an id ----

  /** The stages that carry the id, in order. */
  function WithId(ss: seq<Stage>, id: string): seq<Stage> {
    if ss == [] then [] else (if ss[0].stageId == id then [ss[0]] else []) + WithId(ss[1..], id)
  }

  lemma {:induction false} WithIdConcat(a: seq<Stage>, b: seq<Stage>, id: string)
    ensures WithId(a + b, id) == WithId(a, id) + WithId(b, id)
  {
    if a == [] {
      assert a + b == b;
    } else {
      assert (a + b)[1..] == a[1..] + b;
      WithIdConcat(a[1..], b, id);
      Regroup(if a[0].stageId == id then [a[0]] else [], WithId(a[1..], id), WithId(b, id));
    }
  }

  /** A stage id selects the blocks of all stages that carry it, in order, and nothing else. */
  lemma {:induction false} SelectExact(decode: Decoder, ss: seq<Stage>, id: string)
    ensures Select(PlansOf(decode, ss), id) == PlansOf(decode, WithId(ss, id))
  {
    if ss != [] {
      var s, block := ss[0], PlanOf(decode, ss[0]);
      SelectExact(decode, ss[1..], id);
      SelectConcat(block, PlansOf(decode, ss[1..]), id);
      PlanOfStage(decode, s);
      if s.stageId == id {
        SelectAll(block, id);
        assert WithId(ss, id) == [s] + WithId(ss[1..], id) && WithId(ss, id)[1..] == WithId(ss[1..], id);
      } else {
        SelectNone(block, id);
        assert WithId(ss, id) == WithId(ss[1..], id);
      }
    }
  }

  /** No stage of that id has a plan that decodes. */
  predicate NonePlanned(decode: Decoder, ss: seq<Stage>, id: string) {
    forall s <- ss :: s.stageId == id ==> !HasPlan(decode, s)
  }

  lemma {:induction false} NoneListed(decode: Decoder, ss: seq<Stage>, id: string)
    ensures PlansOf(decode, WithId(ss, id)) == [] <==> NonePlanned(decode, ss, id)
  {
    if ss != [] {
      NoneListed(decode, ss[1..], id);
      assert ss == [ss[0]] + ss[1..];
      var rest := WithId(ss[1..], id);
      if ss[0].stageId == id {
        assert WithId(ss, id) == [ss[0]] + rest && WithId(ss, id)[1..] == rest;
      } else {
        assert WithId(ss, id) == rest;
      }
    }
  }

  /** The other stages with the id of stage k contribute nothing. */
  predicate Alone(decode: Decoder, ss: seq<Stage>, k: nat)
    requires k < |ss|
  {
    NonePlanned(decode, ss[..k], ss[k].stageId) && NonePlanned(decode, ss[k + 1..], ss[k].stageId)
  }

  lemma DistinctAlone(decode: Decoder, ss: seq<Stage>, k: nat)
    requires DistinctStages(ss) && k < |ss|
    ensures Alone(decode, ss, k)
  {
  }

  lemma SelectAround(decode: Decoder, ss: seq<Stage>, k: nat)
    requires k < |ss|
    ensures var id := ss[k].stageId;
      Select(PlansOf(decode, ss), id) ==
      PlansOf(decode, WithId(ss[..k], id)) + PlanOf(decode, ss[k]) + PlansOf(decode, WithId(ss[k + 1..], id))
  {
    var id := ss[k].stageId;
    PlansAround(decode, ss, k);
    SelectConcat(PlansOf(decode, ss[..k]) + PlanOf(decode, ss[k]), PlansOf(decode, ss[k + 1..]), id);
    SelectConcat(PlansOf(decode, ss[..k]), PlanOf(decode, ss[k]), id);
    SelectExact(decode, ss[..k], id);
    SelectExact(decode, ss[k + 1..], id);
    PlanOfStage(decode, ss[k]);
    SelectAll(PlanOf(decode, ss[k]), id);
  }

  /** A stage id selects just the block of a stage exactly when the other stages of that id have no plan that
      decodes. */
  lemma BlockSelected(decode: Decoder, ss: seq<Stage>, k: nat)
    requires k < |ss|
    ensures Select(PlansOf(decode, ss), ss[k].stageId) == PlanOf(decode, ss[k]) <==> Alone(decode, ss, k)
    ensures |Select(PlansOf(decode, ss), ss[k].stageId)| == |PlanOf(decode, ss[k])| <==> Alone(decode, ss, k)
  {
    var id := ss[k].stageId;
    SelectAround(decode, ss, k);
    NoneListed(decode, ss[..k], id);
    NoneListed(decode, ss[k + 1..], id);
    var front, back := PlansOf(decode, WithId(ss[..k], id)), PlansOf(decode, WithId(ss[k + 1..], id));
    assert front == [] && back == [] ==> front + PlanOf(decode, ss[k]) + back == PlanOf(decode, ss[k]);
  }

  /** From the flat list back to the plan of a stage: select by stage id, then rebuild. This returns the plan exactly
      when the other stages of that id have none and every link in it is to the deepest open node of its id. */
  lemma StagePlanRecovered(decode: Decoder, root: Stage, k: nat)
    requires k < |Preorder(root)|
    ensures var ss, s := Preorder(root), Preorder(root)[k];
      var found := Rebuild(Select(PlansOf(decode, ss), s.stageId));
      if HasPlan(decode, s)
      then
        var o := OutlineOf(decode(s.plan.value).value);
        found == Some(o) <==> Alone(decode, ss, k) && DeepestLinked(o)
      else Alone(decode, ss, k) ==> found == None
  {
    var ss, s := Preorder(root), Preorder(root)[k];
    BlockSelected(decode, ss, k);
    if HasPlan(decode, s) {
      var o := OutlineOf(decode(s.plan.value).value);
      RebuildExact(o, s.stageId);
      if Rebuild(Select(PlansOf(decode, ss), s.stageId)) == Some(o) {
        RebuildCounts(Select(PlansOf(decode, ss), s.stageId), o, s.stageId);
      }
    }
  }

  /** With distinct stage ids every stage is alone. */
  lemma DistinctRecovered(decode: Decoder, root: Stage, k: nat)
    requires DistinctStages(Preorder(root)) && k < |Preorder(root)| && HasPlan(decode, Preorder(root)[k])
    ensures var s := Preorder(root)[k];
      var o := OutlineOf(decode(s.plan.value).value);
      Rebuild(Select(PlansOf(decode, Preorder(root)), s.stageId)) == Some(o) <==> DeepestLinked(o)
  {
    DistinctAlone(decode, Preorder(root), k);
    StagePlanRecovered(decode, root, k);
  }
}
