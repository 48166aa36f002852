/** ROIAction: animates a region of interest (used for volume cropping) by
    blending its centre and its radii independently, component by component. */
module RoiAction {
  import opened Interpolation
  import opened Nodes
  import opened AnimatorAction

  /** The ROI the target holds after evaluation at `t`. */
  function RoiAt(start: Roi, end: Roi, t: real, startTime: real, endTime: real): (r: Roi)
    requires IsRoi(start) && IsRoi(end)
    ensures IsRoi(r)
    ensures t <= startTime ==> r == start
    ensures startTime < t && endTime <= t ==> r == end
    ensures startTime < t < endTime ==> forall i :: 0 <= i < 3 ==>
      && r.xyz[i] == Lerp(start.xyz[i], end.xyz[i], Fraction(t, startTime, endTime))
      && r.radiusXyz[i] == Lerp(start.radiusXyz[i], end.radiusXyz[i], Fraction(t, startTime, endTime))
      && InSegment(r.xyz[i], start.xyz[i], end.xyz[i])
      && InSegment(r.radiusXyz[i], start.radiusXyz[i], end.radiusXyz[i])
  {
    match PhaseAt(t, startTime, endTime)
    case Before => Roi(start.xyz, start.radiusXyz)
    case After => Roi(end.xyz, end.radiusXyz)
    case Between(f) => Roi(LerpVec(start.xyz, end.xyz, f), LerpVec(start.radiusXyz, end.radiusXyz, f))
  }

  /** The ROI of a node, or a zero ROI when `id` does not resolve (only ever
      passed for a node the current branch does not read). */
  function RoiOf(nodes: map<NodeId, Node>, id: NodeId): (r: Roi)
    requires WellFormedStore(nodes)
    ensures IsRoi(r)
  {
    if Resolves(nodes, id, RoiKind) then nodes[id].roi else Roi([0.0, 0.0, 0.0], [0.0, 0.0, 0.0])
  }

  /** Evaluating an ROI action at `t` against a scene. */
  function Step(nodes: map<NodeId, Node>, a: Action, t: real): (r: StepResult)
    requires WellFormedStore(nodes) && a.refs.RoiRefs?
    ensures WellFormedStore(r.nodes)
    ensures r.outcome.Done? <==>
      && Resolves(nodes, a.refs.targetRoiId, RoiKind)
      && (PhaseAt(t, a.startTime, a.endTime).After? || Resolves(nodes, a.refs.startRoiId, RoiKind))
      && (PhaseAt(t, a.startTime, a.endTime).Before? || Resolves(nodes, a.refs.endRoiId, RoiKind))
    ensures r.outcome.Failed? ==> r.nodes == nodes && r.outcome.error.UnresolvedNode?
    ensures r.outcome.Failed? ==>
      r.outcome.error.id in {a.refs.startRoiId, a.refs.endRoiId, a.refs.targetRoiId} && !Resolves(nodes, r.outcome.error.id, RoiKind)
    ensures r.outcome.Done? ==>
      && r.nodes.Keys == nodes.Keys
      && r.nodes[Target(a)] == RoiNode(RoiAt(RoiOf(nodes, a.refs.startRoiId), RoiOf(nodes, a.refs.endRoiId),
           t, a.startTime, a.endTime))
      && forall id :: id in nodes && id != Target(a) ==> r.nodes[id] == nodes[id]
  {
    var start, end, target := a.refs.startRoiId, a.refs.endRoiId, a.refs.targetRoiId;
    var needed := match PhaseAt(t, a.startTime, a.endTime)
      case Before => [start, target]
      case After => [end, target]
      case Between(_) => [start, end, target];
    match FirstUnresolved(nodes, needed, RoiKind)
    case Some(id) => StepResult(Failed(UnresolvedNode(id)), nodes)
    case None =>
      StepResult(Done, nodes[target := RoiNode(RoiAt(RoiOf(nodes, start), RoiOf(nodes, end), t, a.startTime, a.endTime))])
  }

  /** `ROIAction.act`: the centre is written first and the radii second; at the
      boundaries both are copied, in between each is blended by the elapsed
      fraction. */
  method Act(scene: Scene, action: Action, scriptTime: real) returns (outcome: Outcome)
    requires scene.Valid() && action.refs.RoiRefs?
    modifies scene
    ensures scene.Valid()
    ensures StepResult(outcome, scene.nodes) == Step(old(scene.nodes), action, scriptTime)
  {
    var startId, endId, targetId := action.refs.startRoiId, action.refs.endRoiId, action.refs.targetRoiId;
    if scriptTime <= action.startTime {
      var missing := FirstUnresolved(scene.nodes, [startId, targetId], RoiKind);
      if missing.Some? {
        return Failed(UnresolvedNode(missing.value));
      }
      assert targetId in [startId, targetId];
      var start := scene.nodes[startId].roi.xyz;
      scene.nodes := scene.nodes[targetId := RoiNode(scene.nodes[targetId].roi.(xyz := start))];
      start := scene.nodes[startId].roi.radiusXyz;
      scene.nodes := scene.nodes[targetId := RoiNode(scene.nodes[targetId].roi.(radiusXyz := start))];
    } else if scriptTime >= action.endTime {
      var missing := FirstUnresolved(scene.nodes, [endId, targetId], RoiKind);
      if missing.Some? {
        return Failed(UnresolvedNode(missing.value));
      }
      assert targetId in [endId, targetId];
      var end := scene.nodes[endId].roi.xyz;
      scene.nodes := scene.nodes[targetId := RoiNode(scene.nodes[targetId].roi.(xyz := end))];
      end := scene.nodes[endId].roi.radiusXyz;
      scene.nodes := scene.nodes[targetId := RoiNode(scene.nodes[targetId].roi.(radiusXyz := end))];
    } else {
      var actionTime := scriptTime - action.startTime;
      var duration := action.endTime - action.startTime;
      var fraction := actionTime / duration;
      var missing := FirstUnresolved(scene.nodes, [startId, endId, targetId], RoiKind);
      if missing.Some? {
        return Failed(UnresolvedNode(missing.value));
      }
      assert endId in [startId, endId, targetId] && targetId in [startId, endId, targetId];
      var start := scene.nodes[startId].roi.xyz;
      var end := scene.nodes[endId].roi.xyz;
      var target := BlendVector(start, end, fraction);
      scene.nodes := scene.nodes[targetId := RoiNode(scene.nodes[targetId].roi.(xyz := target))];
      start := scene.nodes[startId].roi.radiusXyz;
      end := scene.nodes[endId].roi.radiusXyz;
      target := BlendVector(start, end, fraction);
      scene.nodes := scene.nodes[targetId := RoiNode(scene.nodes[targetId].roi.(radiusXyz := target))];
    }
    outcome := Done;
  }

  /** The end ROI of the default ROI action: the start's centre with half its
      radii. */
  function HalvedRadii(start: Roi): (end: Roi)
    requires IsRoi(start)
    ensures IsRoi(end) && end.xyz == start.xyz
    ensures forall i :: 0 <= i < 3 ==> end.radiusXyz[i] * 2.0 == start.radiusXyz[i]
  {
    Roi(start.xyz, [start.radiusXyz[0] / 2.0, start.radiusXyz[1] / 2.0, start.radiusXyz[2] / 2.0])
  }

  /** The default ROI action (between 1 s and 4 s, towards `HalvedRadii`)
      keeps the centre and shrinks every radius linearly, by a sixth of it per
      second. */
  lemma DefaultRoiShrinks(start: Roi, t: real)
    requires IsRoi(start) && 1.0 < t < 4.0
    ensures RoiAt(start, HalvedRadii(start), t, 1.0, 4.0).xyz == start.xyz
    ensures forall i :: 0 <= i < 3 ==>
      RoiAt(start, HalvedRadii(start), t, 1.0, 4.0).radiusXyz[i] == start.radiusXyz[i] * (1.0 - (t - 1.0) / 6.0)
  {
    var end := HalvedRadii(start);
    var r := RoiAt(start, end, t, 1.0, 4.0);
    var f := Fraction(t, 1.0, 4.0);
    assert 3.0 * f == t - 1.0;
    forall i | 0 <= i < 3
      ensures r.xyz[i] == start.xyz[i]
      ensures r.radiusXyz[i] == start.radiusXyz[i] * (1.0 - (t - 1.0) / 6.0)
    {
      var radius := start.radiusXyz[i];
      assert r.radiusXyz[i] == radius + f * (radius / 2.0 - radius);
      assert f * (radius / 2.0 - radius) == -(f * radius) / 2.0;
      assert radius * (1.0 - (t - 1.0) / 6.0) == radius - radius * (3.0 * f) / 6.0;
    }
  }
}
