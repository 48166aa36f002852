/** TranslationAction: animates a linear transform by moving only its
    translation column from the start matrix to the end matrix. */
module TranslationAction {
  import opened Interpolation
  import opened Nodes
  import opened AnimatorAction

  /** A freshly constructed 4x4 matrix is the identity. */
  const Identity: seq<real> :=
    [1.0, 0.0, 0.0, 0.0,
     0.0, 1.0, 0.0, 0.0,
     0.0, 0.0, 1.0, 0.0,
     0.0, 0.0, 0.0, 1.0]

  /** Row-major positions of the entries (0,3), (1,3) and (2,3). */
  predicate IsTranslationEntry(k: int) {
    k == 3 || k == 7 || k == 11
  }

  /** A deep copy of the start matrix whose translation entries are blended
      towards the end matrix; rotation, scale and the last row stay those of
      the start. */
  function Translated(startMatrix: seq<real>, endMatrix: seq<real>, f: real): (m: seq<real>)
    requires IsMatrix(startMatrix) && IsMatrix(endMatrix)
    ensures IsMatrix(m)
    ensures forall k :: 0 <= k < 16 && !IsTranslationEntry(k) ==> m[k] == startMatrix[k]
    ensures forall row :: 0 <= row < 3 ==> m[4 * row + 3] == Lerp(startMatrix[4 * row + 3], endMatrix[4 * row + 3], f)
  {
    seq(16, k requires 0 <= k < 16 =>
      if IsTranslationEntry(k) then Lerp(startMatrix[k], endMatrix[k], f) else startMatrix[k])
  }

  /** The loop over the three rows that writes `start + fraction * (end - start)`
      into column 3 of a deep copy of the start matrix. */
  method BlendTranslation(startMatrix: seq<real>, endMatrix: seq<real>, fraction: real)
    returns (targetMatrix: seq<real>)
    requires IsMatrix(startMatrix) && IsMatrix(endMatrix)
    ensures targetMatrix == Translated(startMatrix, endMatrix, fraction)
  {
    targetMatrix := startMatrix;
    for i := 0 to 3
      invariant |targetMatrix| == 16
      invariant forall k :: 0 <= k < 16 && !(IsTranslationEntry(k) && k / 4 < i) ==> targetMatrix[k] == startMatrix[k]
      invariant forall k :: 0 <= k < 16 && IsTranslationEntry(k) && k / 4 < i ==>
        targetMatrix[k] == Lerp(startMatrix[k], endMatrix[k], fraction)
    {
      var start := startMatrix[4 * i + 3];
      var end := endMatrix[4 * i + 3];
      var delta := fraction * (end - start);
      targetMatrix := targetMatrix[4 * i + 3 := start + delta];
    }
  }

  /** The matrix the target holds after evaluation at `t`. */
  function TransformAt(startMatrix: seq<real>, endMatrix: seq<real>, t: real, startTime: real, endTime: real)
    : (m: seq<real>)
    requires IsMatrix(startMatrix) && IsMatrix(endMatrix)
    ensures IsMatrix(m)
    ensures t <= startTime ==> m == startMatrix
    ensures startTime < t && endTime <= t ==> m == endMatrix
    ensures startTime < t < endTime ==>
      && (forall k :: 0 <= k < 16 && !IsTranslationEntry(k) ==> m[k] == startMatrix[k])
      && (forall row :: 0 <= row < 3 ==>
            && m[4 * row + 3] == Lerp(startMatrix[4 * row + 3], endMatrix[4 * row + 3], Fraction(t, startTime, endTime))
            && InSegment(m[4 * row + 3], startMatrix[4 * row + 3], endMatrix[4 * row + 3]))
  {
    match PhaseAt(t, startTime, endTime)
    case Before => startMatrix
    case After => endMatrix
    case Between(f) => Translated(startMatrix, endMatrix, f)
  }

  /** The matrix of a transform node, or the identity when `id` does not
      resolve (only ever passed for a node the current branch does not read). */
  function MatrixOf(nodes: map<NodeId, Node>, id: NodeId): (m: seq<real>)
    requires WellFormedStore(nodes)
    ensures IsMatrix(m)
  {
    if Resolves(nodes, id, TransformKind) then nodes[id].matrix else Identity
  }

  /** Evaluating a translation action at `t` against a scene. */
  function Step(nodes: map<NodeId, Node>, a: Action, t: real): (r: StepResult)
    requires WellFormedStore(nodes) && a.refs.TransformRefs?
    ensures WellFormedStore(r.nodes)
    ensures r.outcome.Done? <==>
      && Resolves(nodes, a.refs.targetTransformId, TransformKind)
      && (PhaseAt(t, a.startTime, a.endTime).After? || Resolves(nodes, a.refs.startTransformId, TransformKind))
      && (PhaseAt(t, a.startTime, a.endTime).Before? || Resolves(nodes, a.refs.endTransformId, TransformKind))
    ensures r.outcome.Failed? ==> r.nodes == nodes && r.outcome.error.UnresolvedNode?
    ensures r.outcome.Failed? ==>
      r.outcome.error.id in {a.refs.startTransformId, a.refs.endTransformId, a.refs.targetTransformId} && !Resolves(nodes, r.outcome.error.id, TransformKind)
    ensures r.outcome.Done? ==>
      && r.nodes.Keys == nodes.Keys
      && r.nodes[Target(a)] == TransformNode(TransformAt(MatrixOf(nodes, a.refs.startTransformId),
           MatrixOf(nodes, a.refs.endTransformId), t, a.startTime, a.endTime))
      && forall id :: id in nodes && id != Target(a) ==> r.nodes[id] == nodes[id]
  {
    var start, end, target := a.refs.startTransformId, a.refs.endTransformId, a.refs.targetTransformId;
    var needed := match PhaseAt(t, a.startTime, a.endTime)
      case Before => [start, target]
      case After => [end, target]
      case Between(_) => [start, end, target];
    match FirstUnresolved(nodes, needed, TransformKind)
    case Some(id) => StepResult(Failed(UnresolvedNode(id)), nodes)
    case None =>
      StepResult(Done, nodes[target := TransformNode(
        TransformAt(MatrixOf(nodes, start), MatrixOf(nodes, end), t, a.startTime, a.endTime))])
  }

  /** `TranslationAction.act`: copy the start or end matrix into the target at
      the boundaries, otherwise move the translation column by the elapsed
      fraction. */
  method Act(scene: Scene, action: Action, scriptTime: real) returns (outcome: Outcome)
    requires scene.Valid() && action.refs.TransformRefs?
    modifies scene
    ensures scene.Valid()
    ensures StepResult(outcome, scene.nodes) == Step(old(scene.nodes), action, scriptTime)
  {
    var startId := action.refs.startTransformId;
    var endId := action.refs.endTransformId;
    var targetId := action.refs.targetTransformId;
    if scriptTime <= action.startTime {
      var missing := FirstUnresolved(scene.nodes, [startId, targetId], TransformKind);
      if missing.Some? {
        return Failed(UnresolvedNode(missing.value));
      }
      var matrix := scene.nodes[startId].matrix;
      scene.nodes := scene.nodes[targetId := TransformNode(matrix)];
    } else if scriptTime >= action.endTime {
      var missing := FirstUnresolved(scene.nodes, [endId, targetId], TransformKind);
      if missing.Some? {
        return Failed(UnresolvedNode(missing.value));
      }
      var matrix := scene.nodes[endId].matrix;
      scene.nodes := scene.nodes[targetId := TransformNode(matrix)];
    } else {
      var actionTime := scriptTime - action.startTime;
      var duration := action.endTime - action.startTime;
      var fraction := actionTime / duration;
      var missing := FirstUnresolved(scene.nodes, [startId, endId, targetId], TransformKind);
      if missing.Some? {
        return Failed(UnresolvedNode(missing.value));
      }
      assert endId in [startId, endId, targetId];
      var startMatrix := scene.nodes[startId].matrix;
      var endMatrix := scene.nodes[endId].matrix;
      var targetMatrix := BlendTranslation(startMatrix, endMatrix, fraction);
      scene.nodes := scene.nodes[targetId := TransformNode(targetMatrix)];
    }
    outcome := Done;
  }

  /** The end matrix of the default translation action: the identity moved by
      (10, 5, 15). */
  const DefaultEnd: seq<real> := Identity[3 := 10.0][7 := 5.0][11 := 15.0]

  /** The default translation action (from the identity to `DefaultEnd`
      between 4 s and 5 s): before the start the target is the identity, after
      the end it is the end matrix, and halfway it is the identity moved by
      (5, 2.5, 7.5). */
  lemma DefaultTranslation()
    ensures TransformAt(Identity, DefaultEnd, 3.9, 4.0, 5.0) == Identity
    ensures TransformAt(Identity, DefaultEnd, 5.1, 4.0, 5.0) == DefaultEnd
    ensures TransformAt(Identity, DefaultEnd, 4.5, 4.0, 5.0) == Identity[3 := 5.0][7 := 2.5][11 := 7.5]
  {
    var halfway := TransformAt(Identity, DefaultEnd, 4.5, 4.0, 5.0);
    assert Fraction(4.5, 4.0, 5.0) == 0.5;
    assert forall row :: 0 <= row < 3 ==> halfway[4 * row + 3] == Lerp(Identity[4 * row + 3], DefaultEnd[4 * row + 3], 0.5);
    assert forall k :: 0 <= k < 16 ==> halfway[k] == Identity[3 := 5.0][7 := 2.5][11 := 7.5][k];
  }
}
