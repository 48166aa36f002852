/** The action record stored in an animation script, and what evaluating one
    action at a script time produces. */
module AnimatorAction {
  import opened Nodes

  type ActionId = string

  /** The node ids (and, for a camera rotation, the rate) each kind of action
      keeps besides the common fields. */
  datatype References =
    | TransformRefs(startTransformId: NodeId, endTransformId: NodeId, targetTransformId: NodeId)
    | CameraRefs(referenceCameraId: NodeId, targetCameraId: NodeId, degreesPerSecond: real)
    | RoiRefs(startRoiId: NodeId, endRoiId: NodeId, targetRoiId: NodeId)
    | VolumePropertyRefs(startVolumePropertyId: NodeId, endVolumePropertyId: NodeId,
                         targetVolumePropertyId: NodeId)

  /** One action of a script. `className` names the plugin that evaluates it;
      it is stored independently of which references the action carries. */
  datatype Action = Action(
    id: ActionId,
    name: string,
    className: string,
    startTime: real,
    endTime: real,
    interpolation: string,
    refs: References)

  /** Why evaluating an action stopped: the plugin registry has no entry for
      its class, the plugin looked up a key the action does not have, or a node
      id does not resolve to a node of the expected class. */
  datatype ActError =
    | UnknownActionClass(className: string)
    | MissingKey(key: string)
    | UnresolvedNode(id: NodeId)

  datatype Outcome = Done | Failed(error: ActError)

  /** The outcome of evaluating an action and the scene it leaves. */
  datatype StepResult = StepResult(outcome: Outcome, nodes: map<NodeId, Node>)

  /** The node an action writes. */
  function Target(a: Action): NodeId {
    match a.refs
    case TransformRefs(_, _, target) => target
    case CameraRefs(_, target, _) => target
    case RoiRefs(_, _, target) => target
    case VolumePropertyRefs(_, _, target) => target
  }

  /** The nodes an action reads. */
  function Sources(a: Action): set<NodeId> {
    match a.refs
    case TransformRefs(start, end, _) => {start, end}
    case CameraRefs(reference, _, _) => {reference}
    case RoiRefs(start, end, _) => {start, end}
    case VolumePropertyRefs(start, end, _) => {start, end}
  }

  /** The action writes a node it does not read. */
  predicate TargetIsNotSource(a: Action) {
    Target(a) !in Sources(a)
  }
}
