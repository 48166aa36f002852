/** CameraRotationAction: a rate-based rotation. Every evaluation resets the
    target camera from the reference camera and then turns it about the
    view-up axis by an angle derived from the elapsed time. */
module CameraRotationAction {
  import opened Interpolation
  import opened Nodes
  import opened AnimatorAction

  /** The angle, in degrees, applied at script time `t`: none at or before the
      start; otherwise the elapsed time, capped at `endTime` itself (not at the
      action's length `endTime - startTime`), times the rate. */
  function RotationAngle(t: real, startTime: real, endTime: real, degreesPerSecond: real): (angle: real)
    ensures t <= startTime ==> angle == 0.0
    ensures startTime < t && t - startTime <= endTime ==> angle == (t - startTime) * degreesPerSecond
    ensures startTime < t && endTime < t - startTime ==> angle == endTime * degreesPerSecond
    ensures startTime < t && 0.0 <= degreesPerSecond ==> angle <= endTime * degreesPerSecond
    ensures startTime < t && 0.0 <= endTime && 0.0 <= degreesPerSecond ==> 0.0 <= angle
  {
    if t <= startTime then 0.0
    else
      var actionTime := t - startTime;
      var clamped := if actionTime > endTime then endTime else actionTime;
      ProductNonNegative(endTime - clamped, if degreesPerSecond < 0.0 then 0.0 else degreesPerSecond);
      ProductNonNegative(if clamped < 0.0 then 0.0 else clamped, if degreesPerSecond < 0.0 then 0.0 else degreesPerSecond);
      clamped * degreesPerSecond
  }

  /** `vtkCamera.Azimuth(angle)`: a further rotation about the view-up axis. */
  function Azimuth(c: Camera, angle: real): (r: Camera)
    ensures r.pose == c.pose
    ensures r.azimuth - c.azimuth == angle
  {
    c.(azimuth := c.azimuth + angle)
  }

  /** The camera the target holds after evaluation at `t`. */
  function RotatedCamera(reference: Camera, t: real, startTime: real, endTime: real, degreesPerSecond: real)
    : (c: Camera)
    ensures t <= startTime ==> c == reference
    ensures c.pose == reference.pose
    ensures c.azimuth == reference.azimuth + RotationAngle(t, startTime, endTime, degreesPerSecond)
  {
    if t <= startTime then reference
    else Azimuth(reference, RotationAngle(t, startTime, endTime, degreesPerSecond))
  }

  /** Evaluating a camera rotation at `t` against a scene. Both cameras are
      dereferenced in every branch, the target first. */
  function Step(nodes: map<NodeId, Node>, a: Action, t: real): (r: StepResult)
    requires WellFormedStore(nodes) && a.refs.CameraRefs?
    ensures WellFormedStore(r.nodes)
    ensures r.outcome.Done? <==>
      Resolves(nodes, a.refs.targetCameraId, CameraKind) && Resolves(nodes, a.refs.referenceCameraId, CameraKind)
    ensures r.outcome.Failed? ==> r.nodes == nodes && r.outcome.error.UnresolvedNode?
    ensures r.outcome.Failed? ==>
      r.outcome.error.id in {a.refs.referenceCameraId, a.refs.targetCameraId} && !Resolves(nodes, r.outcome.error.id, CameraKind)
    ensures r.outcome.Done? ==>
      && r.nodes.Keys == nodes.Keys
      && r.nodes[Target(a)] == CameraNode(RotatedCamera(nodes[a.refs.referenceCameraId].camera,
           t, a.startTime, a.endTime, a.refs.degreesPerSecond))
      && forall id :: id in nodes && id != Target(a) ==> r.nodes[id] == nodes[id]
  {
    var reference, target := a.refs.referenceCameraId, a.refs.targetCameraId;
    match FirstUnresolved(nodes, [target, reference], CameraKind)
    case Some(id) => StepResult(Failed(UnresolvedNode(id)), nodes)
    case None =>
      assert reference in [target, reference];
      StepResult(Done, nodes[target := CameraNode(RotatedCamera(nodes[reference].camera,
        t, a.startTime, a.endTime, a.refs.degreesPerSecond))])
  }

  /** `CameraRotationAction.act`: deep-copy the reference camera into the
      target, then, after the start time, apply the azimuth angle. */
  method Act(scene: Scene, action: Action, scriptTime: real) returns (outcome: Outcome)
    requires scene.Valid() && action.refs.CameraRefs?
    modifies scene
    ensures scene.Valid()
    ensures StepResult(outcome, scene.nodes) == Step(old(scene.nodes), action, scriptTime)
  {
    var referenceId := action.refs.referenceCameraId;
    var targetId := action.refs.targetCameraId;
    var missing := FirstUnresolved(scene.nodes, [targetId, referenceId], CameraKind);
    if missing.Some? {
      return Failed(UnresolvedNode(missing.value));
    }
    assert referenceId in [targetId, referenceId];
    scene.nodes := scene.nodes[targetId := CameraNode(scene.nodes[referenceId].camera)];
    if scriptTime <= action.startTime {
      return Done;
    }
    var actionTime := scriptTime - action.startTime;
    if actionTime > action.endTime {
      actionTime := action.endTime;
    }
    var angle := actionTime * action.refs.degreesPerSecond;
    assert angle == RotationAngle(scriptTime, action.startTime, action.endTime, action.refs.degreesPerSecond);
    scene.nodes := scene.nodes[targetId := CameraNode(Azimuth(scene.nodes[targetId].camera, angle))];
    outcome := Done;
  }

  /** Between `endTime` and `startTime + endTime` the camera keeps turning:
      with a positive start time the cap on the elapsed time is reached only
      after the action's end time. */
  lemma RotationContinuesAfterEndTime(t: real, startTime: real, endTime: real, degreesPerSecond: real)
    requires 0.0 < startTime < endTime < t < startTime + endTime
    requires 0.0 < degreesPerSecond
    ensures RotationAngle(endTime, startTime, endTime, degreesPerSecond)
          < RotationAngle(t, startTime, endTime, degreesPerSecond)
  {
    var atEnd := RotationAngle(endTime, startTime, endTime, degreesPerSecond);
    var later := RotationAngle(t, startTime, endTime, degreesPerSecond);
    var elapsedAtEnd, gap := endTime - startTime, t - endTime;
    assert atEnd == elapsedAtEnd * degreesPerSecond;
    assert later == (elapsedAtEnd + gap) * degreesPerSecond;
    assert (elapsedAtEnd + gap) * degreesPerSecond == elapsedAtEnd * degreesPerSecond + gap * degreesPerSecond;
    ProductPositive(gap, degreesPerSecond);
  }

  /** The default camera rotation (90 degrees per second from 0.1 s to 4 s):
      one second after the start the camera has turned 90 degrees; at the
      end time 351 degrees; from 4.1 s on it stays at 360 degrees. */
  lemma DefaultRotationAngles()
    ensures RotationAngle(1.1, 0.1, 4.0, 90.0) == 90.0
    ensures RotationAngle(4.0, 0.1, 4.0, 90.0) == 351.0
    ensures RotationAngle(5.0, 0.1, 4.0, 90.0) == 360.0
    ensures forall t :: t >= 4.1 ==> RotationAngle(t, 0.1, 4.0, 90.0) == 360.0
  {
  }
}
