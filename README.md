# Animator: timeline compiler and keyframe interpolation

This project is a Dafny model of the animation engine of the Slicer Animator module (`Animator/Animator.py`). An animation node holds a script. The script has a title, a duration, a frame rate and a dictionary of timed actions. Compiling the script yields one frame time per frame. At every script time the logic lets each stored action act on the scene: the action's class is looked up in the plugin registry, and the plugin's `act` method rewrites the action's target node. It builds the target from the start and end nodes, or, for a camera rotation, from a reference camera.

Four action kinds are modelled:

- **TranslationAction** moves the translation column of a 4x4 matrix from the start matrix to the end matrix.
- **CameraRotationAction** resets a camera from a reference camera, then turns it by an angle that grows with the elapsed time.
- **ROIAction** blends the centre and the radii of a region of interest, component by component.
- **VolumePropertyAction** blends the control points of the scalar-opacity and colour transfer functions.

The three interpolating kinds branch three ways:

- at or before the start time, they copy the start;
- otherwise, at or after the end time, they copy the end;
- otherwise, they write `start + fraction * (end - start)` into every channel.

Layout:

- `interpolation.dfy`: the three-way phase, the elapsed fraction, and channel-wise blending of vectors and control-point lists, with the loops that compute them.
- `nodes.dfy`: the scene. It is a class `Scene` with a map from node id to typed node, updated in place. Calling a method on a node whose id is absent, or that names a node of another class, raises in the source; here that is `FirstUnresolved` in the order the source dereferences. A volume property's start or end node that is only passed to `CopyParameterSet` is treated the same way (see "## Left out").
- `action.dfy`: the action record, the outcome of acting, and the nodes an action reads and writes.
- One module per action kind (`translation_action.dfy`, `camera_rotation_action.dfy`, `roi_action.dfy`, `volume_property_action.dfy`). Each has:
  - a value function for the target's new state;
  - a `Step` specification on the node map, including the failure paths;
  - an `Act` method that changes the `Scene` in place and is proved equal to `Step`.
- `evaluation.dfy`: evaluation of any kind, and proofs that an action reads only its sources and that evaluation does not depend on earlier seeks.
- `plugins.dfy`: the registry, in which `TranslationAction` is not registered, and dispatch by class name.
- `animator_logic.dfy`: the script, its action table, `addAction`/`setAction`, the frame loop of `compileScript`, `initializeAnimationNode`, and the per-time pass `act` with its lemmas.

Failures are outcomes, not preconditions:

- an unknown class is `UnknownActionClass`;
- a plugin looking up a key the action does not carry is `MissingKey`, naming the first key it reads;
- a node id that does not resolve is `UnresolvedNode`;
- `setAction` on a script without `actions` is `MissingKey("actions")`;
- a missing script key or a zero frame rate in `compileScript` is a `CompileError`.

A failing action ends the pass, as the exception does in the source.

**Camera clamp.** The camera rotation caps the elapsed time `t - startTime` at the absolute `endTime` (Animator/Animator.py:125-126), not at the action's length `endTime - startTime`, although the comment on line 126 speaks of clamping to the rotation at the end. With a positive start time the camera therefore keeps turning after the end time: the default rotation (90 degrees per second from 0.1 s to 4 s) stands at 351 degrees at 4 s and ends at 360 degrees from 4.1 s on. The model follows the code; `RotationAngle`, `DefaultRotationAngles` and `RotationContinuesAfterEndTime` state this.

## Model

| member | source | states |
|---|---|---|
| Interpolation.Fraction | Animator/Animator.py:72-74 | Computed only strictly inside the action, so the divisor is positive; the fraction lies strictly between 0 and 1 and maps back to the script time |
| Interpolation.PhaseAt | Animator/Animator.py:64-74 | The start branch is taken exactly when t <= startTime, the end branch exactly when startTime < t and t >= endTime, the blend exactly when startTime < t < endTime, with its fraction in (0, 1) |
| Interpolation.Lerp | Animator/Animator.py:82-86 | The blend gives the start at fraction 0 and the end at 1, lies between them for fractions in [0, 1], and differs from both inside (0, 1) when they differ |
| Interpolation.LerpVec | Animator/Animator.py:243-250 | Same length as the inputs, endpoints at fractions 0 and 1, and, for fractions in [0, 1], every component between its start and end components |
| Interpolation.BlendVector | Animator/Animator.py:243-244 | The `for i in range(3)` loop over a zero-initialised list computes exactly the component-wise blend |
| Interpolation.LerpPoints | Animator/Animator.py:375-380 | One point per start point, each of the start point's width, equal to the start at 0, to the matching end points at 1, and, for fractions in [0, 1], elementwise between them |
| Interpolation.BlendControlPoints | Animator/Animator.py:375-380 | The nested index loops that overwrite each target point by the blend of start point and end point at that index compute exactly `LerpPoints` |
| Nodes.FirstUnresolved | Animator/Animator.py:60-63 | Gives no id exactly when every listed id resolves to a node of the expected class, otherwise the first id in dereference order that does not |
| TranslationAction.Translated | Animator/Animator.py:80-88 | The 13 non-translation entries equal the start matrix (deep copy); entries (0,3), (1,3), (2,3) are the blend of start and end |
| TranslationAction.BlendTranslation | Animator/Animator.py:80-87 | The loop over the three rows computes exactly `Translated` |
| TranslationAction.TransformAt | Animator/Animator.py:64-88 | Start matrix at or before the start, end matrix at or after the end, otherwise only the translation column moves, each entry between its start and end values |
| TranslationAction.Step | Animator/Animator.py:60-88 | Completes exactly when the nodes the taken branch dereferences are transforms; then only the target changes, to `TransformAt`; otherwise nothing changes and the reported id is one of the action's ids that does not resolve to a transform |
| TranslationAction.Act | Animator/Animator.py:60-88 | The in-place act on the scene has exactly the outcome and new scene of `Step` |
| TranslationAction.DefaultTranslation | Animator/Animator.py:41-52 | The default action (identity to translation (10, 5, 15) over 4 s to 5 s) gives the identity at 3.9 s, the end matrix at 5.1 s, and translation (5, 2.5, 7.5) at 4.5 s |
| CameraRotationAction.RotationAngle | Animator/Animator.py:121-127 | Zero at or before the start; (t - startTime) * rate while the elapsed time is at most endTime, and exactly endTime * rate once it exceeds endTime, so min(t - startTime, endTime) * rate; never above endTime * rate for a non-negative rate, and never negative for a non-negative rate and end time |
| CameraRotationAction.Azimuth | Animator/Animator.py:128 | Adds the angle to the azimuth and keeps the rest of the camera |
| CameraRotationAction.RotatedCamera | Animator/Animator.py:120-128 | The target is the reference camera turned by `RotationAngle`, and exactly the reference at or before the start |
| CameraRotationAction.Step | Animator/Animator.py:116-129 | Completes exactly when target and reference are cameras; then only the target changes, to `RotatedCamera` of the reference; otherwise nothing changes and the reported id is the target or reference id that does not resolve to a camera |
| CameraRotationAction.Act | Animator/Animator.py:116-129 | The in-place act (deep copy, early return, clamp, azimuth) has exactly the outcome and new scene of `Step` |
| CameraRotationAction.RotationContinuesAfterEndTime | Animator/Animator.py:124-127 | With a positive start time the camera is still turning after the end time, because the cap is endTime and not the action's length |
| CameraRotationAction.DefaultRotationAngles | Animator/Animator.py:107-112 | The default rotation (90 degrees/s, 0.1 s to 4 s) is at 90 degrees at 1.1 s, 351 at 4 s, and 360 from 4.1 s on |
| RoiAction.RoiAt | Animator/Animator.py:227-250 | Start ROI at or before the start, end ROI at or after the end, otherwise centre and radii blended independently component by component, each between its start and end values |
| RoiAction.Step | Animator/Animator.py:220-250 | Completes exactly when the dereferenced nodes are ROIs; then only the target changes, to `RoiAt`; otherwise nothing changes and the reported id is one of the action's ids that does not resolve to an ROI |
| RoiAction.Act | Animator/Animator.py:220-250 | The in-place act, writing the centre and then the radii, has exactly the outcome and new scene of `Step` |
| RoiAction.HalvedRadii | Animator/Animator.py:197-205 | The default end ROI keeps the start centre and has half its radii |
| RoiAction.DefaultRoiShrinks | Animator/Animator.py:197-212 | Under the default ROI action (1 s to 4 s) the centre stays and each radius shrinks linearly to half, to radius * (1 - (t - 1) / 6) |
| VolumePropertyAction.PropertyAt | Animator/Animator.py:357-394 | Start property at or before the start, end property at or after the end, otherwise the start's point counts with every opacity element and every colour element blended with the end point at the same index |
| VolumePropertyAction.Step | Animator/Animator.py:353-395 | Completes exactly when the dereferenced nodes are volume properties; the target becomes the start, the end, or the blend, and reads itself as the start when it is the end node; a dangling end id in the interior leaves the target holding the copy of the start; the reported id is one of the action's ids that does not resolve to a volume property |
| VolumePropertyAction.Act | Animator/Animator.py:353-395 | The in-place act (copy, then opacity loop, then colour loop) has exactly the outcome and new scene of `Step` |
| Evaluation.Evaluate | Animator/Animator.py:794-795 | Acting changes at most the action's target, keeps every node's class, and fails only on an unresolved node |
| Evaluation.EvaluateReadsOnlySources | Animator/Animator.py:794-795 | Two scenes that agree on the action's sources give the same outcome, and on completion the same target value: the act reads only its start, end or reference node |
| Evaluation.TranslationReadsOnlySources | Animator/Animator.py:60-88 | The translation act depends only on its start and end nodes |
| Evaluation.CameraRotationReadsOnlySources | Animator/Animator.py:116-129 | The camera act depends only on its reference camera, since the target is reset on every call |
| Evaluation.RoiReadsOnlySources | Animator/Animator.py:220-250 | The ROI act depends only on its start and end nodes |
| Evaluation.VolumePropertyReadsOnlySources | Animator/Animator.py:353-395 | The volume property act depends only on its start and end nodes |
| Evaluation.VolumePropertyBoundaryReadsOnlySources | Animator/Animator.py:357-360 | The copy branches depend only on the node they copy |
| Evaluation.VolumePropertyInteriorReadsOnlySources | Animator/Animator.py:361-394 | The blend branch, including its partial copy on failure, depends only on the start and end nodes |
| Evaluation.EvaluateSeekIndependent | Animator/Animator.py:60-395 | Across the four `act` methods (lines 60-88, 116-129, 220-250 and 353-395): for an action whose target is not one of its sources, acting at t1 and then at t2 ends like acting at t2 alone and, on completion, leaves the same scene |
| ActionPlugins.Dispatch | Animator/Animator.py:452-459 | An unknown class, and only that, reports `UnknownActionClass`; a registered plugin given another kind's references reports the first missing key; both leave the scene unchanged and need nothing of the scene or the references; otherwise it acts as `Evaluate` |
| ActionPlugins.TranslationIsNotDispatched | Animator/Animator.py:456 | An action of class "TranslationAction" is never evaluated, whatever its references and the scene |
| ActionPlugins.DispatchReadsOnlySources | Animator/Animator.py:794-795 | Dispatch depends only on the action's sources |
| ActionPlugins.ActOne | Animator/Animator.py:794-795 | Registry lookup, plugin instantiation and `act` change the scene exactly as `Dispatch` |
| AnimatorLogic.Put | Animator/Animator.py:753 | Last write wins: the id maps to the new action, every other id keeps its action, the set of ids grows by at most the new id, and existing ids keep their iteration order |
| AnimatorLogic.GetActions | Animator/Animator.py:744-747 | The script's actions, or an empty table when the script has no `actions` key |
| AnimatorLogic.AddAction | Animator/Animator.py:749-755 | The node's script gets its actions (or an empty table) with the action put under its id; all other script keys are kept |
| AnimatorLogic.SetAction | Animator/Animator.py:757-760 | Fails with the missing `actions` key, leaving the script unchanged, exactly when the script has no actions; otherwise it stores like `addAction` |
| AnimatorLogic.AddThenGet | Animator/Animator.py:749-755 | After storing, reading the actions back gives the action under its id and every other action unchanged |
| AnimatorLogic.Ceil | Animator/Animator.py:783 | `math.ceil`: the least integer not below x |
| AnimatorLogic.FrameCount | Animator/Animator.py:781-783 | No frames when fps * duration <= 0, otherwise the ceiling of fps * duration |
| AnimatorLogic.SampleTimes | Animator/Animator.py:781-785 | One frame time per frame of the ceiling count |
| AnimatorLogic.CompileScript | Animator/Animator.py:780-786 | Missing `framesPerSecond`, then missing `duration`, then a zero frame rate fail before any frame; otherwise the frame loop produces exactly `SampleTimes` |
| AnimatorLogic.InitializeAnimationNode | Animator/Animator.py:718-725 | The script is replaced by title "Slicer Animation", the given duration (5 s by default), 60 frames per second and no actions, and compiles to `SampleTimes(60, duration)` |
| AnimatorLogic.SampleSpacing | Animator/Animator.py:782-784 | Consecutive frame times differ by 1 / fps |
| AnimatorLogic.SampleInRange | Animator/Animator.py:781-784 | With a positive frame rate every frame time is in [0, duration) |
| AnimatorLogic.SamplesReachDuration | Animator/Animator.py:781-784 | With positive rate and duration there is a frame, and one more frame would reach the duration |
| AnimatorLogic.SamplesSpanDuration | Animator/Animator.py:781-784 | Frames start at 0, are 1 / fps apart, all lie before the duration, and cover it up to one frame |
| AnimatorLogic.DefaultScriptFrames | Animator/Animator.py:718-725 | The default script (60 fps, 5 s) compiles to 300 frames, the last at 299/60 s |
| AnimatorLogic.RunActions | Animator/Animator.py:790-795 | A pass changes only the targets of the actions, keeps every node's class, and fails for a reason other than an unresolved node only if some action is not accepted by the registry |
| AnimatorLogic.Act | Animator/Animator.py:790-795 | The loop over the actions in dictionary order, stopping at the first failure, changes the scene exactly as `RunActions` |
| AnimatorLogic.RunIgnoresTargets | Animator/Animator.py:790-795 | When no action reads a node any action writes, the pass does not depend on what the targets held before |
| AnimatorLogic.PassSeekIndependent | Animator/Animator.py:790-795 | A pass at t2 after a pass at t1 ends like a pass at t2 alone and leaves the same scene; with t1 = t2, acting twice equals acting once |
| AnimatorLogic.PassReplay | Animator/Animator.py:790-795 | Passes at t1, t2 and t1 again leave the scene a single pass at t1 leaves |
| AnimatorLogic.UnregisteredClassStopsThePass | Animator/Animator.py:794 | A script holding an action whose class has no plugin, such as a translation action, never completes a pass |
| AnimatorLogic.EachActionActsOnce | Animator/Animator.py:793-795 | In a completed pass over independent actions with distinct targets, each target holds what its own action alone writes |
| AnimatorLogic.CompletedPassUnfolds | Animator/Animator.py:793-795 | A completed pass is its first action completed, followed by a completed pass over the rest |
| AnimatorLogic.EarlierTargetIsNotRead | Animator/Animator.py:793-795 | An action not reading an earlier action's target writes the same value after it as before it |

## Left out

- The GUI is not modelled: the widget, the action dialogs, and every `gui`/`updateFromGUI` method are Qt code.
- The `defaultAction` methods are not modelled because they create scene nodes. Their times and values are used only as the scenarios above.
- JSON persistence (`getScript`/`setScript`) is not modelled. The script is a typed record whose keys may be absent. A script value of some other JSON type is not modelled.
- The sequence browser and sequence nodes of `compileScript`/`generateSequence` are left out. So are the `str(scriptTime)` index values and the `ModuleName` attribute. Only the frame times are modelled.
- Camera orientation is left out. VTK's `Azimuth` trigonometry and `OrthogonalizeViewUp` are replaced by an accumulated azimuth angle, and the rest of the camera is an opaque pose.
- Parent-relative transform handling in `Get/SetMatrixTransformFromParent` is left out; a transform node is its matrix.
- A volume property holds only its two transfer functions. The other parameters copied by `CopyParameterSet` are not modelled, and neither are `StartModify`/`EndModify` nor VTK's re-sorting of control points after `SetNodeValue`.
- IEEE floating point is not modelled. Times and channel values are exact reals, so rounding in `fraction` and `k * (1 / fps)` is not captured.
- Concurrency with the host's observers and rendering is left out.
- `AnimatorTest` and `Animator/AnimatorLib/TransformAction.py` are not part of this model.
- Plugins that other modules add to an existing `animatorActionPlugins` registry (Animator/Animator.py:448-455) are not modelled. The registry holds exactly the three plugins this module installs.
- The base class `AnimatorAction.act`, which does nothing, is left out because no registered plugin uses it.
- VolumePropertyAction.Step: a start or end id that is absent or names a node of another class, when it is only passed as the argument of `CopyParameterSet` (Animator/Animator.py:358, 360, 366), is assumed to fail without writing the target and to end the pass. What VTK does with such an argument is not modelled, and the source text shows no exception there.
- VolumePropertyAction.Act: requires that the end functions have a point for every start point (`PointCountsMatch`). `Dispatch`, `ActOne` and the pass demand this only of an action that the volume-property plugin accepts (`Dispatchable`). The source does not check this, and what VTK does with an out-of-range index is not modelled.
- Evaluation.EvaluateSeekIndependent: states equal scenes only when the later evaluation completes. A failing evaluation leaves whatever an earlier one wrote.
- AnimatorLogic.PassSeekIndependent: equal scenes only when the pass completes. After a failure, earlier targets keep what they held.
- AnimatorLogic.PassReplay: equal scenes only when the pass at t1 completes.
- AnimatorLogic.RunIgnoresTargets: assumes that no action reads a node that an action writes. Without that, the result of a pass depends on earlier passes.
- CameraRotationAction.RotationAngle: the upper bound `endTime * degreesPerSecond` is stated only for a non-negative rate. For a negative rate the inequality reverses. The lower bound 0 is stated only for a non-negative rate and a non-negative end time: with a negative `endTime` the elapsed time is capped at that negative value, so the angle is negative.
