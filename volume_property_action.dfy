/** VolumePropertyAction: animates a volume rendering property by blending its
    scalar-opacity and colour transfer functions control point by control
    point. */
module VolumePropertyAction {
  import opened Interpolation
  import opened Nodes
  import opened AnimatorAction

  /** The end functions cover the start functions point by point. The blend
      reads end point `index` for every start index and never checks this. */
  predicate EnoughPoints(end: VolumeProperty, start: VolumeProperty) {
    Covers(end.scalarOpacity, start.scalarOpacity) && Covers(end.color, start.color)
  }

  /** The property the target holds after evaluation at `t`, when the target
      is neither the start nor the end node. */
  function PropertyAt(start: VolumeProperty, end: VolumeProperty, t: real, startTime: real, endTime: real)
    : (p: VolumeProperty)
    requires IsVolumeProperty(start) && IsVolumeProperty(end)
    requires startTime < t < endTime ==> EnoughPoints(end, start)
    ensures IsVolumeProperty(p)
    ensures t <= startTime ==> p == start
    ensures startTime < t && endTime <= t ==> p == end
    ensures startTime < t < endTime ==>
      && |p.scalarOpacity| == |start.scalarOpacity|
      && |p.color| == |start.color|
      && (forall i, j :: 0 <= i < |p.scalarOpacity| && 0 <= j < OpacityPointWidth ==>
            p.scalarOpacity[i][j] == Lerp(start.scalarOpacity[i][j], end.scalarOpacity[i][j], Fraction(t, startTime, endTime)))
      && (forall i, j :: 0 <= i < |p.color| && 0 <= j < ColorPointWidth ==>
            p.color[i][j] == Lerp(start.color[i][j], end.color[i][j], Fraction(t, startTime, endTime)))
  {
    match PhaseAt(t, startTime, endTime)
    case Before => start
    case After => end
    case Between(f) =>
      VolumeProperty(LerpPoints(start.scalarOpacity, end.scalarOpacity, f), LerpPoints(start.color, end.color, f))
  }

  /** The property of a node, or an empty property when `id` does not resolve
      (only ever passed for a node the current branch does not read). */
  function PropertyOf(nodes: map<NodeId, Node>, id: NodeId): (p: VolumeProperty)
    requires WellFormedStore(nodes)
    ensures IsVolumeProperty(p)
  {
    if Resolves(nodes, id, VolumePropertyKind) then nodes[id].property else VolumeProperty([], [])
  }

  /** The unchecked precondition of the interior branch: when the end node is
      read (it is distinct from the target, which by then holds a copy of the
      start), it has enough control points. */
  predicate PointCountsMatch(nodes: map<NodeId, Node>, a: Action, t: real)
    requires a.refs.VolumePropertyRefs?
  {
    var start, end := a.refs.startVolumePropertyId, a.refs.endVolumePropertyId;
    a.startTime < t < a.endTime && end != Target(a)
      && Resolves(nodes, start, VolumePropertyKind) && Resolves(nodes, end, VolumePropertyKind)
    ==> EnoughPoints(nodes[end].property, nodes[start].property)
  }

  /** Evaluating a volume-property action at `t` against a scene. In the
      interior branch the target is overwritten by a copy of the start before
      the end node is dereferenced, so a dangling end id leaves that copy
      behind, and an end node that is the target itself reads as the start. */
  function Step(nodes: map<NodeId, Node>, a: Action, t: real): (r: StepResult)
    requires WellFormedStore(nodes) && a.refs.VolumePropertyRefs? && PointCountsMatch(nodes, a, t)
    ensures WellFormedStore(r.nodes)
    ensures r.nodes.Keys == nodes.Keys
    ensures forall id :: id in nodes && id != Target(a) ==> r.nodes[id] == nodes[id]
    ensures r.outcome.Done? <==>
      && Resolves(nodes, a.refs.targetVolumePropertyId, VolumePropertyKind)
      && (PhaseAt(t, a.startTime, a.endTime).After? || Resolves(nodes, a.refs.startVolumePropertyId, VolumePropertyKind))
      && (PhaseAt(t, a.startTime, a.endTime).Before? || Resolves(nodes, a.refs.endVolumePropertyId, VolumePropertyKind))
    ensures r.outcome.Failed? ==>
      && r.outcome.error.UnresolvedNode?
      && r.nodes == if && a.startTime < t < a.endTime
                       && Resolves(nodes, Target(a), VolumePropertyKind)
                       && Resolves(nodes, a.refs.startVolumePropertyId, VolumePropertyKind)
                    then nodes[Target(a) := nodes[a.refs.startVolumePropertyId]]
                    else nodes
    ensures r.outcome.Failed? ==>
      && r.outcome.error.id in {a.refs.startVolumePropertyId, a.refs.endVolumePropertyId, Target(a)}
      && !Resolves(nodes, r.outcome.error.id, VolumePropertyKind)
    ensures r.outcome.Done? && t <= a.startTime ==>
      r.nodes[Target(a)] == nodes[a.refs.startVolumePropertyId]
    ensures r.outcome.Done? && a.startTime < t && a.endTime <= t ==>
      r.nodes[Target(a)] == nodes[a.refs.endVolumePropertyId]
    ensures r.outcome.Done? && a.startTime < t < a.endTime ==>
      r.nodes[Target(a)] == VolumePropertyNode(PropertyAt(
        PropertyOf(nodes, a.refs.startVolumePropertyId),
        PropertyOf(nodes, if a.refs.endVolumePropertyId == Target(a) then a.refs.startVolumePropertyId
                          else a.refs.endVolumePropertyId),
        t, a.startTime, a.endTime))
  {
    var start, end, target :=
      a.refs.startVolumePropertyId, a.refs.endVolumePropertyId, a.refs.targetVolumePropertyId;
    match PhaseAt(t, a.startTime, a.endTime)
    case Between(f) =>
      (match FirstUnresolved(nodes, [target, start], VolumePropertyKind)
       case Some(id) => StepResult(Failed(UnresolvedNode(id)), nodes)
       case None =>
         assert start in [target, start];
         var copied := nodes[target := nodes[start]];
         if !Resolves(copied, end, VolumePropertyKind) then StepResult(Failed(UnresolvedNode(end)), copied)
         else
           var startProperty, endProperty := copied[start].property, copied[end].property;
           StepResult(Done, copied[target := VolumePropertyNode(PropertyAt(startProperty, endProperty, t, a.startTime, a.endTime))]))
    case _ =>
      var source := if t <= a.startTime then start else end;
      match FirstUnresolved(nodes, [target, source], VolumePropertyKind)
      case Some(id) => StepResult(Failed(UnresolvedNode(id)), nodes)
      case None =>
        assert source in [target, source];
        StepResult(Done, nodes[target := nodes[source]])
  }

  /** `VolumePropertyAction.act`: copy the start or end property into the
      target at the boundaries; in between, copy the start into the target and
      then overwrite each opacity point and each colour point of the target by
      the blend of the start and end points at that index. */
  method Act(scene: Scene, action: Action, scriptTime: real) returns (outcome: Outcome)
    requires scene.Valid() && action.refs.VolumePropertyRefs? && PointCountsMatch(scene.nodes, action, scriptTime)
    modifies scene
    ensures scene.Valid()
    ensures StepResult(outcome, scene.nodes) == Step(old(scene.nodes), action, scriptTime)
  {
    var startId, endId, targetId := action.refs.startVolumePropertyId, action.refs.endVolumePropertyId,
      action.refs.targetVolumePropertyId;
    if scriptTime <= action.startTime {
      var missing := FirstUnresolved(scene.nodes, [targetId, startId], VolumePropertyKind);
      if missing.Some? {
        return Failed(UnresolvedNode(missing.value));
      }
      assert startId in [targetId, startId];
      scene.nodes := scene.nodes[targetId := scene.nodes[startId]];
    } else if scriptTime >= action.endTime {
      var missing := FirstUnresolved(scene.nodes, [targetId, endId], VolumePropertyKind);
      if missing.Some? {
        return Failed(UnresolvedNode(missing.value));
      }
      assert endId in [targetId, endId];
      scene.nodes := scene.nodes[targetId := scene.nodes[endId]];
    } else {
      var actionTime := scriptTime - action.startTime;
      var duration := action.endTime - action.startTime;
      var fraction := actionTime / duration;
      var missing := FirstUnresolved(scene.nodes, [targetId, startId], VolumePropertyKind);
      if missing.Some? {
        return Failed(UnresolvedNode(missing.value));
      }
      assert startId in [targetId, startId];
      scene.nodes := scene.nodes[targetId := scene.nodes[startId]];
      if !Resolves(scene.nodes, endId, VolumePropertyKind) {
        return Failed(UnresolvedNode(endId));
      }
      var startOpacity := scene.nodes[startId].property.scalarOpacity;
      var endOpacity := scene.nodes[endId].property.scalarOpacity;
      var opacity := BlendControlPoints(startOpacity, endOpacity, fraction);
      scene.nodes := scene.nodes[targetId := VolumePropertyNode(scene.nodes[targetId].property.(scalarOpacity := opacity))];
      var startColor := scene.nodes[startId].property.color;
      var endColor := scene.nodes[endId].property.color;
      var color := BlendControlPoints(startColor, endColor, fraction);
      scene.nodes := scene.nodes[targetId := VolumePropertyNode(scene.nodes[targetId].property.(color := color))];
    }
    outcome := Done;
  }
}
