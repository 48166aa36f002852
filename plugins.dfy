/** The plugin registry: action class names mapped to the plugin that
    evaluates actions of that class. The translation plugin exists but is not
    registered, so an action of class "TranslationAction" cannot be
    evaluated. */
module ActionPlugins {
  import opened Nodes
  import opened AnimatorAction
  import opened Evaluation
  import CameraRotationAction
  import RoiAction
  import VolumePropertyAction

  datatype Plugin = CameraRotationPlugin | RoiPlugin | VolumePropertyPlugin

  /** The registry as the module fills it at load time. */
  const Registry: map<string, Plugin> := map[
    "CameraRotationAction" := CameraRotationPlugin,
    "ROIAction" := RoiPlugin,
    "VolumePropertyAction" := VolumePropertyPlugin]

  /** The plugin's act method can read the references `refs` carries. */
  predicate Handles(p: Plugin, refs: References) {
    match p
    case CameraRotationPlugin => refs.CameraRefs?
    case RoiPlugin => refs.RoiRefs?
    case VolumePropertyPlugin => refs.VolumePropertyRefs?
  }

  /** The first action key a plugin's act method looks up. */
  function FirstKey(p: Plugin): string {
    match p
    case CameraRotationPlugin => "referenceCameraID"
    case RoiPlugin => "startROIID"
    case VolumePropertyPlugin => "startVolumePropertyID"
  }

  /** The registry has a plugin for the action's class and that plugin finds
      the references it looks up. */
  predicate Accepted(a: Action) {
    a.className in Registry && Handles(Registry[a.className], a.refs)
  }

  /** The point-count assumption of the volume-property blend matters only
      for an action that some plugin goes on to evaluate; a rejected action
      fails before any node is read. */
  predicate Dispatchable(nodes: map<NodeId, Node>, a: Action, t: real) {
    Accepted(a) ==> Evaluable(nodes, a, t)
  }

  /** Looking the action's class up in the registry and, when a plugin is
      found, letting it act. An unknown class, or references of another kind
      than the plugin reads, stop before any node is touched. */
  function Dispatch(nodes: map<NodeId, Node>, a: Action, t: real): (r: StepResult)
    requires WellFormedStore(nodes) && Dispatchable(nodes, a, t)
    ensures WellFormedStore(r.nodes)
    ensures AgreeExcept(nodes, r.nodes, {Target(a)})
    ensures a.className !in Registry <==> r.outcome == Failed(UnknownActionClass(a.className))
    ensures r.outcome.Failed? && r.outcome.error.MissingKey? <==> a.className in Registry && !Accepted(a)
    ensures !Accepted(a) ==> r.nodes == nodes
    ensures Accepted(a) ==> r == Evaluate(nodes, a, t)
  {
    if a.className !in Registry then StepResult(Failed(UnknownActionClass(a.className)), nodes)
    else if !Handles(Registry[a.className], a.refs) then StepResult(Failed(MissingKey(FirstKey(Registry[a.className]))), nodes)
    else Evaluate(nodes, a, t)
  }

  /** A translation action is never evaluated: whatever its references and the
      scene, dispatching it reports the unknown class and changes nothing. */
  lemma TranslationIsNotDispatched(nodes: map<NodeId, Node>, a: Action, t: real)
    requires WellFormedStore(nodes)
    requires a.className == "TranslationAction"
    ensures Dispatch(nodes, a, t) == StepResult(Failed(UnknownActionClass("TranslationAction")), nodes)
  {
    assert "TranslationAction" !in Registry;
  }

  /** Dispatch, like evaluation, reads only the action's sources. */
  lemma DispatchReadsOnlySources(n1: map<NodeId, Node>, n2: map<NodeId, Node>, except: set<NodeId>,
                                 a: Action, t: real)
    requires WellFormedStore(n1) && WellFormedStore(n2)
    requires AgreeExcept(n1, n2, except) && Sources(a) !! except
    requires Dispatchable(n1, a, t)
    ensures Dispatchable(n2, a, t)
    ensures Dispatch(n1, a, t).outcome == Dispatch(n2, a, t).outcome
    ensures AgreeExcept(Dispatch(n1, a, t).nodes, Dispatch(n2, a, t).nodes, except)
    ensures Dispatch(n1, a, t).outcome.Done? ==>
      AgreeExcept(Dispatch(n1, a, t).nodes, Dispatch(n2, a, t).nodes, except - {Target(a)})
  {
    if Accepted(a) {
      EvaluateReadsOnlySources(n1, n2, except, a, t);
    }
  }

  /** `slicer.modules.animatorActionPlugins[action['class']]().act(action,
      scriptTime)`: look the plugin up, instantiate it and let it act. */
  method ActOne(scene: Scene, action: Action, scriptTime: real) returns (outcome: Outcome)
    requires scene.Valid() && Dispatchable(scene.nodes, action, scriptTime)
    modifies scene
    ensures scene.Valid()
    ensures StepResult(outcome, scene.nodes) == Dispatch(old(scene.nodes), action, scriptTime)
  {
    if action.className !in Registry {
      return Failed(UnknownActionClass(action.className));
    }
    var plugin := Registry[action.className];
    match plugin
    case CameraRotationPlugin =>
      if !action.refs.CameraRefs? {
        return Failed(MissingKey(FirstKey(plugin)));
      }
      outcome := CameraRotationAction.Act(scene, action, scriptTime);
    case RoiPlugin =>
      if !action.refs.RoiRefs? {
        return Failed(MissingKey(FirstKey(plugin)));
      }
      outcome := RoiAction.Act(scene, action, scriptTime);
    case VolumePropertyPlugin =>
      if !action.refs.VolumePropertyRefs? {
        return Failed(MissingKey(FirstKey(plugin)));
      }
      outcome := VolumePropertyAction.Act(scene, action, scriptTime);
  }
}
