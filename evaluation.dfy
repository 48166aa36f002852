/** Evaluating one action of any kind at a script time, and what that
    evaluation depends on: an action reads its sources and writes its target,
    and nothing else. */
module Evaluation {
  import opened Nodes
  import opened AnimatorAction
  import TranslationAction
  import CameraRotationAction
  import RoiAction
  import VolumePropertyAction

  /** The one assumption the act methods make without checking it: a volume
      property blend reads an end point for every start point. */
  predicate Evaluable(nodes: map<NodeId, Node>, a: Action, t: real) {
    a.refs.VolumePropertyRefs? ==> VolumePropertyAction.PointCountsMatch(nodes, a, t)
  }

  /** The act method of the kind of action `a` is, applied to `nodes`. */
  function Evaluate(nodes: map<NodeId, Node>, a: Action, t: real): (r: StepResult)
    requires WellFormedStore(nodes) && Evaluable(nodes, a, t)
    ensures WellFormedStore(r.nodes)
    ensures AgreeExcept(nodes, r.nodes, {Target(a)})
    ensures r.outcome.Failed? ==> r.outcome.error.UnresolvedNode?
    ensures r.outcome.Done? ==> Target(a) in nodes
  {
    match a.refs
    case TransformRefs(_, _, _) => TranslationAction.Step(nodes, a, t)
    case CameraRefs(_, _, _) => CameraRotationAction.Step(nodes, a, t)
    case RoiRefs(_, _, _) => RoiAction.Step(nodes, a, t)
    case VolumePropertyRefs(_, _, _) => VolumePropertyAction.Step(nodes, a, t)
  }

  /** Evaluation reads only the action's sources: two stores with the same ids
      and kinds that hold the same source nodes give the same outcome and
      results that still agree outside `except`, and, when the action
      completes, agree on the target as well. */
  lemma EvaluateReadsOnlySources(n1: map<NodeId, Node>, n2: map<NodeId, Node>, except: set<NodeId>,
                                 a: Action, t: real)
    requires WellFormedStore(n1) && WellFormedStore(n2)
    requires AgreeExcept(n1, n2, except) && Sources(a) !! except
    requires Evaluable(n1, a, t)
    ensures Evaluable(n2, a, t)
    ensures Evaluate(n1, a, t).outcome == Evaluate(n2, a, t).outcome
    ensures AgreeExcept(Evaluate(n1, a, t).nodes, Evaluate(n2, a, t).nodes, except)
    ensures Evaluate(n1, a, t).outcome.Done? ==>
      AgreeExcept(Evaluate(n1, a, t).nodes, Evaluate(n2, a, t).nodes, except - {Target(a)})
  {
    match a.refs
    case TransformRefs(_, _, _) => TranslationReadsOnlySources(n1, n2, except, a, t);
    case CameraRefs(_, _, _) => CameraRotationReadsOnlySources(n1, n2, except, a, t);
    case RoiRefs(_, _, _) => RoiReadsOnlySources(n1, n2, except, a, t);
    case VolumePropertyRefs(_, _, _) => VolumePropertyReadsOnlySources(n1, n2, except, a, t);
  }

  lemma TranslationReadsOnlySources(n1: map<NodeId, Node>, n2: map<NodeId, Node>, except: set<NodeId>, a: Action, t: real)
    requires WellFormedStore(n1) && WellFormedStore(n2) && a.refs.TransformRefs?
    requires AgreeExcept(n1, n2, except) && Sources(a) !! except
    ensures TranslationAction.Step(n1, a, t).outcome == TranslationAction.Step(n2, a, t).outcome
    ensures AgreeExcept(TranslationAction.Step(n1, a, t).nodes, TranslationAction.Step(n2, a, t).nodes, except)
    ensures TranslationAction.Step(n1, a, t).outcome.Done? ==>
      AgreeExcept(TranslationAction.Step(n1, a, t).nodes, TranslationAction.Step(n2, a, t).nodes, except - {Target(a)})
  {
    assert a.refs.startTransformId in Sources(a) && a.refs.endTransformId in Sources(a);
    forall ids: seq<NodeId>, kind: NodeKind
      ensures FirstUnresolved(n1, ids, kind) == FirstUnresolved(n2, ids, kind)
    {
      FirstUnresolvedAgrees(n1, n2, except, ids, kind);
    }
  }

  lemma CameraRotationReadsOnlySources(n1: map<NodeId, Node>, n2: map<NodeId, Node>, except: set<NodeId>, a: Action, t: real)
    requires WellFormedStore(n1) && WellFormedStore(n2) && a.refs.CameraRefs?
    requires AgreeExcept(n1, n2, except) && Sources(a) !! except
    ensures CameraRotationAction.Step(n1, a, t).outcome == CameraRotationAction.Step(n2, a, t).outcome
    ensures AgreeExcept(CameraRotationAction.Step(n1, a, t).nodes, CameraRotationAction.Step(n2, a, t).nodes, except)
    ensures CameraRotationAction.Step(n1, a, t).outcome.Done? ==>
      AgreeExcept(CameraRotationAction.Step(n1, a, t).nodes, CameraRotationAction.Step(n2, a, t).nodes, except - {Target(a)})
  {
    assert a.refs.referenceCameraId in Sources(a);
    forall ids: seq<NodeId>, kind: NodeKind
      ensures FirstUnresolved(n1, ids, kind) == FirstUnresolved(n2, ids, kind)
    {
      FirstUnresolvedAgrees(n1, n2, except, ids, kind);
    }
  }

  lemma RoiReadsOnlySources(n1: map<NodeId, Node>, n2: map<NodeId, Node>, except: set<NodeId>, a: Action, t: real)
    requires WellFormedStore(n1) && WellFormedStore(n2) && a.refs.RoiRefs?
    requires AgreeExcept(n1, n2, except) && Sources(a) !! except
    ensures RoiAction.Step(n1, a, t).outcome == RoiAction.Step(n2, a, t).outcome
    ensures AgreeExcept(RoiAction.Step(n1, a, t).nodes, RoiAction.Step(n2, a, t).nodes, except)
    ensures RoiAction.Step(n1, a, t).outcome.Done? ==>
      AgreeExcept(RoiAction.Step(n1, a, t).nodes, RoiAction.Step(n2, a, t).nodes, except - {Target(a)})
  {
    assert a.refs.startRoiId in Sources(a) && a.refs.endRoiId in Sources(a);
    forall ids: seq<NodeId>, kind: NodeKind
      ensures FirstUnresolved(n1, ids, kind) == FirstUnresolved(n2, ids, kind)
    {
      FirstUnresolvedAgrees(n1, n2, except, ids, kind);
    }
  }

  lemma VolumePropertyReadsOnlySources(n1: map<NodeId, Node>, n2: map<NodeId, Node>, except: set<NodeId>,
      a: Action, t: real)
    requires WellFormedStore(n1) && WellFormedStore(n2)
    requires a.refs.VolumePropertyRefs? && VolumePropertyAction.PointCountsMatch(n1, a, t)
    requires AgreeExcept(n1, n2, except) && Sources(a) !! except
    ensures VolumePropertyAction.PointCountsMatch(n2, a, t)
    ensures VolumePropertyAction.Step(n1, a, t).outcome == VolumePropertyAction.Step(n2, a, t).outcome
    ensures AgreeExcept(VolumePropertyAction.Step(n1, a, t).nodes, VolumePropertyAction.Step(n2, a, t).nodes, except)
    ensures VolumePropertyAction.Step(n1, a, t).outcome.Done? ==>
      AgreeExcept(VolumePropertyAction.Step(n1, a, t).nodes, VolumePropertyAction.Step(n2, a, t).nodes,
                  except - {Target(a)})
  {
    if a.startTime < t < a.endTime {
      VolumePropertyInteriorReadsOnlySources(n1, n2, except, a, t);
    } else {
      VolumePropertyBoundaryReadsOnlySources(n1, n2, except, a, t);
    }
  }

  lemma VolumePropertyBoundaryReadsOnlySources(n1: map<NodeId, Node>, n2: map<NodeId, Node>, except: set<NodeId>,
      a: Action, t: real)
    requires WellFormedStore(n1) && WellFormedStore(n2)
    requires a.refs.VolumePropertyRefs? && VolumePropertyAction.PointCountsMatch(n1, a, t)
    requires AgreeExcept(n1, n2, except) && Sources(a) !! except
    requires t <= a.startTime || a.endTime <= t
    ensures VolumePropertyAction.PointCountsMatch(n2, a, t)
    ensures VolumePropertyAction.Step(n1, a, t).outcome == VolumePropertyAction.Step(n2, a, t).outcome
    ensures AgreeExcept(VolumePropertyAction.Step(n1, a, t).nodes, VolumePropertyAction.Step(n2, a, t).nodes, except)
    ensures VolumePropertyAction.Step(n1, a, t).outcome.Done? ==>
      AgreeExcept(VolumePropertyAction.Step(n1, a, t).nodes, VolumePropertyAction.Step(n2, a, t).nodes,
                  except - {Target(a)})
  {
    var start, end, target :=
      a.refs.startVolumePropertyId, a.refs.endVolumePropertyId, a.refs.targetVolumePropertyId;
    assert start in Sources(a) && end in Sources(a);
    var source := if t <= a.startTime then start else end;
    FirstUnresolvedAgrees(n1, n2, except, [target, source], VolumePropertyKind);
  }

  lemma VolumePropertyInteriorReadsOnlySources(n1: map<NodeId, Node>, n2: map<NodeId, Node>, except: set<NodeId>,
      a: Action, t: real)
    requires WellFormedStore(n1) && WellFormedStore(n2)
    requires a.refs.VolumePropertyRefs? && VolumePropertyAction.PointCountsMatch(n1, a, t)
    requires AgreeExcept(n1, n2, except) && Sources(a) !! except
    requires a.startTime < t < a.endTime
    ensures VolumePropertyAction.PointCountsMatch(n2, a, t)
    ensures VolumePropertyAction.Step(n1, a, t).outcome == VolumePropertyAction.Step(n2, a, t).outcome
    ensures AgreeExcept(VolumePropertyAction.Step(n1, a, t).nodes, VolumePropertyAction.Step(n2, a, t).nodes, except)
    ensures VolumePropertyAction.Step(n1, a, t).outcome.Done? ==>
      AgreeExcept(VolumePropertyAction.Step(n1, a, t).nodes, VolumePropertyAction.Step(n2, a, t).nodes,
                  except - {Target(a)})
  {
    var start, end, target :=
      a.refs.startVolumePropertyId, a.refs.endVolumePropertyId, a.refs.targetVolumePropertyId;
    assert start in Sources(a) && end in Sources(a);
    FirstUnresolvedAgrees(n1, n2, except, [target, start], VolumePropertyKind);
    if Resolves(n1, target, VolumePropertyKind) && Resolves(n1, start, VolumePropertyKind) {
      var copied1, copied2 := n1[target := n1[start]], n2[target := n2[start]];
      assert Resolves(copied1, end, VolumePropertyKind) == Resolves(copied2, end, VolumePropertyKind);
    }
  }

  /** Evaluating an action that does not read its own target at one time and
      then at another leaves what evaluating at the second time alone leaves:
      scrubbing the timeline to `t2` does not depend on where it was before. */
  lemma EvaluateSeekIndependent(nodes: map<NodeId, Node>, a: Action, t1: real, t2: real)
    requires WellFormedStore(nodes) && TargetIsNotSource(a)
    requires Evaluable(nodes, a, t1) && Evaluable(nodes, a, t2)
    ensures Evaluable(Evaluate(nodes, a, t1).nodes, a, t2)
    ensures Evaluate(Evaluate(nodes, a, t1).nodes, a, t2).outcome == Evaluate(nodes, a, t2).outcome
    ensures Evaluate(nodes, a, t2).outcome.Done? ==>
      Evaluate(Evaluate(nodes, a, t1).nodes, a, t2) == Evaluate(nodes, a, t2)
  {
    var first := Evaluate(nodes, a, t1).nodes;
    EvaluateReadsOnlySources(nodes, first, {Target(a)}, a, t2);
    if Evaluate(nodes, a, t2).outcome.Done? {
      assert {Target(a)} - {Target(a)} == {};
      AgreeEverywhere(Evaluate(nodes, a, t2).nodes, Evaluate(first, a, t2).nodes);
    }
  }
}
