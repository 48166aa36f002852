/** AnimatorLogic: the animation node's script, its table of actions, the
    timeline compiled into frame times, and the pass that lets every action act
    at one script time. */
module AnimatorLogic {
  import opened Interpolation
  import opened Nodes
  import opened AnimatorAction
  import opened Evaluation
  import opened ActionPlugins

  /** The script's `actions` dictionary: the actions by id, and the ids in the
      order the dictionary iterates them (insertion order, which the script's
      JSON round trip keeps). */
  datatype ActionTable = ActionTable(order: seq<ActionId>, entries: map<ActionId, Action>)

  predicate ValidTable(table: ActionTable) {
    && (forall i, j :: 0 <= i < j < |table.order| ==> table.order[i] != table.order[j])
    && (forall id :: id in table.entries ==> id in table.order)
    && (forall i :: 0 <= i < |table.order| ==> table.order[i] in table.entries)
    && (forall id :: id in table.entries ==> table.entries[id].id == id)
  }

  const EmptyTable: ActionTable := ActionTable([], map[])

  /** `actions[action['id']] = action`: a new id is appended, an existing id
      keeps its place and gets the new action. */
  function Put(table: ActionTable, a: Action): (r: ActionTable)
    requires ValidTable(table)
    ensures ValidTable(r)
    ensures a.id in r.entries && r.entries[a.id] == a
    ensures r.entries.Keys == table.entries.Keys + {a.id}
    ensures forall id :: id in table.entries && id != a.id ==> r.entries[id] == table.entries[id]
    ensures |r.order| == if a.id in table.entries then |table.order| else |table.order| + 1
    ensures r.order[..|table.order|] == table.order
  {
    if a.id in table.entries then ActionTable(table.order, table.entries[a.id := a])
    else
      var order := table.order + [a.id];
      assert order[..|table.order|] == table.order;
      ActionTable(order, table.entries[a.id := a])
  }

  /** The script stored on an animation node. Every key may be absent: a node
      without a script attribute reads as the empty script. */
  datatype Script = Script(
    title: Option<string>,
    duration: Option<real>,
    framesPerSecond: Option<real>,
    actions: Option<ActionTable>)

  const EmptyScript: Script := Script(None, None, None, None)

  const DefaultTitle: string := "Slicer Animation"
  const DefaultFramesPerSecond: real := 60.0
  const DefaultDuration: real := 5.0

  predicate ValidScript(script: Script) {
    script.actions.Some? ==> ValidTable(script.actions.value)
  }

  /** The animation node; only its script attribute is modelled. */
  class AnimationNode {
    var script: Script

    ghost predicate Valid()
      reads this
    {
      ValidScript(script)
    }

    constructor ()
      ensures Valid() && script == EmptyScript
    {
      script := EmptyScript;
    }
  }

  /** `getActions`: the script's actions, or an empty table when the script
      has no `actions` key. */
  function GetActions(script: Script): (r: ActionTable)
    requires ValidScript(script)
    ensures ValidTable(r)
    ensures script.actions.None? ==> r.order == [] && r.entries == map[]
    ensures script.actions.Some? ==> r == script.actions.value
  {
    if script.actions.Some? then script.actions.value else EmptyTable
  }

  /** `addAction`: store the action under its id, creating the `actions` key
      when the script has none. */
  method AddAction(node: AnimationNode, action: Action)
    requires node.Valid()
    modifies node
    ensures node.Valid()
    ensures node.script == old(node.script).(actions := Some(Put(GetActions(old(node.script)), action)))
  {
    var script := node.script;
    var actions := GetActions(script);
    actions := Put(actions, action);
    node.script := script.(actions := Some(actions));
  }

  /** `setAction`: store the action under its id in the existing `actions`
      key; a script without that key raises and is left as it was. */
  method SetAction(node: AnimationNode, action: Action) returns (outcome: Outcome)
    requires node.Valid()
    modifies node
    ensures node.Valid()
    ensures outcome.Failed? <==> old(node.script).actions.None?
    ensures outcome.Failed? ==> outcome.error == MissingKey("actions") && node.script == old(node.script)
    ensures outcome.Done? ==>
      node.script == old(node.script).(actions := Some(Put(GetActions(old(node.script)), action)))
  {
    var script := node.script;
    if script.actions.None? {
      return Failed(MissingKey("actions"));
    }
    node.script := script.(actions := Some(Put(script.actions.value, action)));
    outcome := Done;
  }

  /** Storing an action and reading the actions back yields that action under
      its id, with every other stored action unchanged. */
  lemma AddThenGet(script: Script, a: Action)
    requires ValidScript(script)
    ensures var stored := script.(actions := Some(Put(GetActions(script), a)));
      && ValidScript(stored)
      && GetActions(stored).entries[a.id] == a
      && GetActions(stored).entries.Keys == GetActions(script).entries.Keys + {a.id}
      && (forall id :: id in GetActions(script).entries && id != a.id ==>
            GetActions(stored).entries[id] == GetActions(script).entries[id])
  {
  }

  /** `math.ceil`. */
  function Ceil(x: real): (n: int)
    ensures n as real - 1.0 < x <= n as real
  {
    if x.Floor as real == x then x.Floor else x.Floor + 1
  }

  /** `len(range(math.ceil(frames)))`. */
  function FrameCount(frames: real): (n: nat)
    ensures frames <= 0.0 ==> n == 0
    ensures 0.0 < frames ==> n as real - 1.0 < frames <= n as real
  {
    if Ceil(frames) < 0 then 0 else Ceil(frames)
  }

  /** The script times of the frames `compileScript` creates: frame `k` sits
      at `k * (1 / framesPerSecond)`. */
  function SampleTimes(framesPerSecond: real, duration: real): (times: seq<real>)
    requires framesPerSecond != 0.0
    ensures |times| == FrameCount(framesPerSecond * duration)
  {
    var secondsPerFrame := 1.0 / framesPerSecond;
    seq(FrameCount(framesPerSecond * duration), k => k as real * secondsPerFrame)
  }

  datatype CompileError = MissingScriptKey(key: string) | ZeroFramesPerSecond

  datatype CompileResult = Compiled(times: seq<real>) | CompileFailed(error: CompileError)

  /** The frame loop of `compileScript`: the number of frames is the ceiling
      of frames-per-second times duration, and one data node per frame is
      stored at that frame's script time. A missing key or a zero frame rate
      raises before any frame is stored. */
  method CompileScript(script: Script) returns (r: CompileResult)
    ensures script.framesPerSecond.None? ==> r == CompileFailed(MissingScriptKey("framesPerSecond"))
    ensures script.framesPerSecond.Some? && script.duration.None? ==>
      r == CompileFailed(MissingScriptKey("duration"))
    ensures r == CompileFailed(ZeroFramesPerSecond) <==> script.framesPerSecond == Some(0.0) && script.duration.Some?
    ensures r.Compiled? <==>
      script.framesPerSecond.Some? && script.duration.Some? && script.framesPerSecond.value != 0.0
    ensures r.Compiled? ==> r.times == SampleTimes(script.framesPerSecond.value, script.duration.value)
  {
    if script.framesPerSecond.None? {
      return CompileFailed(MissingScriptKey("framesPerSecond"));
    }
    if script.duration.None? {
      return CompileFailed(MissingScriptKey("duration"));
    }
    var framesPerSecond, duration := script.framesPerSecond.value, script.duration.value;
    var frames := framesPerSecond * duration;
    if framesPerSecond == 0.0 {
      return CompileFailed(ZeroFramesPerSecond);
    }
    var secondsPerFrame := 1.0 / framesPerSecond;
    var times: seq<real> := [];
    for frame := 0 to FrameCount(frames)
      invariant times == SampleTimes(framesPerSecond, duration)[..frame]
    {
      var scriptTime := frame as real * secondsPerFrame;
      assert SampleTimes(framesPerSecond, duration)[frame] == scriptTime;
      times := times + [scriptTime];
    }
    assert SampleTimes(framesPerSecond, duration)[..FrameCount(frames)] == SampleTimes(framesPerSecond, duration);
    r := Compiled(times);
  }

  /** `initializeAnimationNode`: replace the node's script by one holding the
      title, the duration (5 seconds unless given) and 60 frames per second
      and no actions, then compile it; the compile cannot fail. */
  method InitializeAnimationNode(node: AnimationNode, duration: real := DefaultDuration) returns (frameTimes: seq<real>)
    modifies node
    ensures node.Valid()
    ensures node.script == Script(Some(DefaultTitle), Some(duration), Some(DefaultFramesPerSecond), None)
    ensures frameTimes == SampleTimes(DefaultFramesPerSecond, duration)
  {
    node.script := Script(Some(DefaultTitle), Some(duration), Some(DefaultFramesPerSecond), None);
    var compiled := CompileScript(node.script);
    frameTimes := compiled.times;
  }

  /** A frame number below `framesPerSecond * bound` falls before `bound`
      once scaled by the frame period. */
  lemma ScaledBelow(frame: real, bound: real, framesPerSecond: real, secondsPerFrame: real)
    requires 0.0 < secondsPerFrame && framesPerSecond * secondsPerFrame == 1.0
    requires frame < framesPerSecond * bound
    ensures frame * secondsPerFrame < bound
  {
    var gap := framesPerSecond * bound - frame;
    ProductPositive(gap, secondsPerFrame);
    assert gap * secondsPerFrame == (framesPerSecond * secondsPerFrame) * bound - frame * secondsPerFrame;
  }

  /** A frame number at or above `framesPerSecond * bound` falls at or after
      `bound` once scaled by the frame period. */
  lemma ScaledAtLeast(frame: real, bound: real, framesPerSecond: real, secondsPerFrame: real)
    requires 0.0 < secondsPerFrame && framesPerSecond * secondsPerFrame == 1.0
    requires framesPerSecond * bound <= frame
    ensures bound <= frame * secondsPerFrame
  {
    var gap := frame - framesPerSecond * bound;
    ProductNonNegative(gap, secondsPerFrame);
    assert gap * secondsPerFrame == frame * secondsPerFrame - (framesPerSecond * secondsPerFrame) * bound;
  }

  /** Consecutive frames are one frame period apart. */
  lemma SampleSpacing(framesPerSecond: real, duration: real, k: nat)
    requires framesPerSecond != 0.0 && k + 1 < |SampleTimes(framesPerSecond, duration)|
    ensures SampleTimes(framesPerSecond, duration)[k + 1] - SampleTimes(framesPerSecond, duration)[k]
         == 1.0 / framesPerSecond
  {
    var step := 1.0 / framesPerSecond;
    assert (k as real + 1.0) * step == k as real * step + step;
  }

  /** With a positive frame rate every frame lies in `[0, duration)`. */
  lemma SampleInRange(framesPerSecond: real, duration: real, k: nat)
    requires 0.0 < framesPerSecond && k < |SampleTimes(framesPerSecond, duration)|
    ensures 0.0 <= SampleTimes(framesPerSecond, duration)[k] < duration
  {
    var step := 1.0 / framesPerSecond;
    assert framesPerSecond * step == 1.0;
    assert 0.0 < step;
    ProductNonNegative(k as real, step);
    ScaledBelow(k as real, duration, framesPerSecond, step);
  }

  /** With a positive frame rate the frame after the last is at or past the
      duration. */
  lemma SamplesReachDuration(framesPerSecond: real, duration: real)
    requires 0.0 < framesPerSecond && 0.0 < duration
    ensures 1 <= |SampleTimes(framesPerSecond, duration)|
    ensures var times := SampleTimes(framesPerSecond, duration);
      duration <= times[|times| - 1] + 1.0 / framesPerSecond
  {
    var n := |SampleTimes(framesPerSecond, duration)|;
    var step := 1.0 / framesPerSecond;
    assert framesPerSecond * step == 1.0;
    assert 0.0 < step;
    ProductPositive(framesPerSecond, duration);
    ScaledAtLeast(n as real, duration, framesPerSecond, step);
    assert (n as real - 1.0) * step + step == n as real * step;
  }

  /** For a positive frame rate and duration the frames start at 0, are
      `1 / framesPerSecond` apart, all lie before the duration, and one more
      frame would reach it. */
  lemma SamplesSpanDuration(framesPerSecond: real, duration: real)
    requires 0.0 < framesPerSecond && 0.0 < duration
    ensures var times := SampleTimes(framesPerSecond, duration);
      && 1 <= |times| && times[0] == 0.0
      && (forall k :: 0 <= k < |times| - 1 ==> times[k + 1] - times[k] == 1.0 / framesPerSecond)
      && (forall k :: 0 <= k < |times| ==> 0.0 <= times[k] < duration)
      && duration <= times[|times| - 1] + 1.0 / framesPerSecond
  {
    SamplesReachDuration(framesPerSecond, duration);
    forall k | 0 <= k < |SampleTimes(framesPerSecond, duration)| - 1 {
      SampleSpacing(framesPerSecond, duration, k);
    }
    forall k | 0 <= k < |SampleTimes(framesPerSecond, duration)| {
      SampleInRange(framesPerSecond, duration, k);
    }
  }

  /** The default script (60 frames per second for 5 seconds) compiles to 300
      frames, the last at 299/60 s. */
  lemma DefaultScriptFrames()
    ensures |SampleTimes(DefaultFramesPerSecond, DefaultDuration)| == 300
    ensures SampleTimes(DefaultFramesPerSecond, DefaultDuration)[299] == 299.0 / 60.0
  {
    assert Ceil(300.0) == 300;
  }

  /** Every id in `keys` names a stored action. */
  predicate Listed(table: ActionTable, keys: seq<ActionId>) {
    forall k :: k in keys ==> k in table.entries
  }

  /** The nodes the actions named in `keys` write. */
  function TargetsOf(table: ActionTable, keys: seq<ActionId>): set<NodeId>
    requires Listed(table, keys)
  {
    if keys == [] then {} else {Target(table.entries[keys[0]])} + TargetsOf(table, keys[1..])
  }

  /** No action named in `keys` reads a node that one of them writes. */
  predicate Independent(table: ActionTable, keys: seq<ActionId>)
    requires Listed(table, keys)
  {
    forall i, j :: 0 <= i < |keys| && 0 <= j < |keys| ==>
      Target(table.entries[keys[j]]) !in Sources(table.entries[keys[i]])
  }

  /** The pass over `keys` hands a plugin only volume-property blends whose
      end functions have enough control points; an action no plugin accepts
      may carry any references. */
  predicate PassDefined(nodes: map<NodeId, Node>, table: ActionTable, keys: seq<ActionId>, t: real)
    requires WellFormedStore(nodes) && Listed(table, keys)
    decreases |keys|
  {
    keys != [] ==>
      var a := table.entries[keys[0]];
      && Dispatchable(nodes, a, t)
      && var r := Dispatch(nodes, a, t);
         r.outcome.Done? ==> PassDefined(r.nodes, table, keys[1..], t)
  }

  /** Letting the actions named in `keys` act at script time `t`, in that
      order; the first action that raises ends the pass. */
  function RunActions(nodes: map<NodeId, Node>, table: ActionTable, keys: seq<ActionId>, t: real): (r: StepResult)
    requires WellFormedStore(nodes) && Listed(table, keys) && PassDefined(nodes, table, keys, t)
    ensures WellFormedStore(r.nodes)
    ensures AgreeExcept(nodes, r.nodes, TargetsOf(table, keys))
    ensures r.outcome.Failed? && !r.outcome.error.UnresolvedNode? ==>
      exists k :: k in keys && !Accepted(table.entries[k])
    decreases |keys|
  {
    if keys == [] then StepResult(Done, nodes)
    else
      var a := table.entries[keys[0]];
      var r := Dispatch(nodes, a, t);
      if r.outcome.Failed? then r
      else
        var rest := RunActions(r.nodes, table, keys[1..], t);
        AgreeExceptTrans(nodes, r.nodes, rest.nodes, {Target(a)}, TargetsOf(table, keys[1..]));
        rest
  }

  /** `AnimatorLogic.act`: give every action of the script, in dictionary
      order, the chance to act at `scriptTime`. */
  method Act(node: AnimationNode, scene: Scene, scriptTime: real) returns (outcome: Outcome)
    requires node.Valid() && scene.Valid()
    requires PassDefined(scene.nodes, GetActions(node.script), GetActions(node.script).order, scriptTime)
    modifies scene
    ensures scene.Valid()
    ensures StepResult(outcome, scene.nodes) ==
      RunActions(old(scene.nodes), GetActions(node.script), GetActions(node.script).order, scriptTime)
  {
    var actions := GetActions(node.script);
    var order := actions.order;
    for i := 0 to |order|
      invariant scene.Valid()
      invariant Listed(actions, order[i..])
      invariant PassDefined(scene.nodes, actions, order[i..], scriptTime)
      invariant RunActions(old(scene.nodes), actions, order, scriptTime)
             == RunActions(scene.nodes, actions, order[i..], scriptTime)
    {
      assert order[i..][1..] == order[i + 1..];
      var o := ActOne(scene, actions.entries[order[i]], scriptTime);
      if o.Failed? {
        return o;
      }
    }
    outcome := Done;
  }

  /** A target set avoids every node that no listed action writes. */
  lemma {:induction false} TargetsAvoid(table: ActionTable, keys: seq<ActionId>, avoided: set<NodeId>)
    requires Listed(table, keys)
    requires forall k :: k in keys ==> Target(table.entries[k]) !in avoided
    ensures TargetsOf(table, keys) !! avoided
    decreases |keys|
  {
    if keys != [] {
      assert keys[0] in keys;
      assert forall k :: k in keys[1..] ==> k in keys;
      TargetsAvoid(table, keys[1..], avoided);
    }
  }

  /** A pass over actions that read none of the nodes they write does not
      depend on what those nodes held before: it ends the same way and, when
      it completes, leaves the same scene. */
  lemma {:induction false} RunIgnoresTargets(n1: map<NodeId, Node>, n2: map<NodeId, Node>, table: ActionTable,
                                             keys: seq<ActionId>, t: real)
    requires WellFormedStore(n1) && WellFormedStore(n2) && Listed(table, keys)
    requires Independent(table, keys)
    requires AgreeExcept(n1, n2, TargetsOf(table, keys))
    requires PassDefined(n1, table, keys, t)
    ensures PassDefined(n2, table, keys, t)
    ensures RunActions(n1, table, keys, t).outcome == RunActions(n2, table, keys, t).outcome
    ensures AgreeExcept(RunActions(n1, table, keys, t).nodes, RunActions(n2, table, keys, t).nodes,
                        TargetsOf(table, keys))
    ensures RunActions(n1, table, keys, t).outcome.Done? ==>
      RunActions(n1, table, keys, t).nodes == RunActions(n2, table, keys, t).nodes
    decreases |keys|
  {
    if keys == [] {
      AgreeEverywhere(n1, n2);
    } else {
      var a := table.entries[keys[0]];
      var targets := TargetsOf(table, keys);
      assert forall k :: k in keys ==> exists j :: 0 <= j < |keys| && keys[j] == k;
      assert forall j :: 0 <= j < |keys| ==> Target(table.entries[keys[j]]) !in Sources(a);
      TargetsAvoid(table, keys, Sources(a));
      DispatchReadsOnlySources(n1, n2, targets, a, t);
      var r1, r2 := Dispatch(n1, a, t), Dispatch(n2, a, t);
      if r1.outcome.Done? {
        var rest := keys[1..];
        AgreeExceptWiden(r1.nodes, r2.nodes, targets - {Target(a)}, TargetsOf(table, rest));
        assert Independent(table, rest) by {
          forall i, j | 0 <= i < |rest| && 0 <= j < |rest|
            ensures Target(table.entries[rest[j]]) !in Sources(table.entries[rest[i]])
          {
            assert rest[j] == keys[j + 1] && rest[i] == keys[i + 1];
          }
        }
        RunIgnoresTargets(r1.nodes, r2.nodes, table, rest, t);
        AgreeExceptWiden(RunActions(r1.nodes, table, rest, t).nodes, RunActions(r2.nodes, table, rest, t).nodes,
                         TargetsOf(table, rest), targets);
      }
    }
  }

  /** Seeking: a pass at `t2` after a pass at `t1` ends as a pass at `t2`
      alone and, when it completes, leaves the same scene, provided no action
      reads a node that an action writes. */
  lemma PassSeekIndependent(nodes: map<NodeId, Node>, table: ActionTable, t1: real, t2: real)
    requires WellFormedStore(nodes) && ValidTable(table) && Independent(table, table.order)
    requires PassDefined(nodes, table, table.order, t1) && PassDefined(nodes, table, table.order, t2)
    ensures PassDefined(RunActions(nodes, table, table.order, t1).nodes, table, table.order, t2)
    ensures RunActions(RunActions(nodes, table, table.order, t1).nodes, table, table.order, t2).outcome
         == RunActions(nodes, table, table.order, t2).outcome
    ensures RunActions(nodes, table, table.order, t2).outcome.Done? ==>
      RunActions(RunActions(nodes, table, table.order, t1).nodes, table, table.order, t2)
      == RunActions(nodes, table, table.order, t2)
  {
    var first := RunActions(nodes, table, table.order, t1).nodes;
    RunIgnoresTargets(nodes, first, table, table.order, t2);
  }

  /** A script with an action whose class has no plugin (a translation action)
      never completes a pass. */
  lemma {:induction false} UnregisteredClassStopsThePass(nodes: map<NodeId, Node>, table: ActionTable,
                                                         keys: seq<ActionId>, t: real, k: ActionId)
    requires WellFormedStore(nodes) && Listed(table, keys) && PassDefined(nodes, table, keys, t)
    requires k in keys && table.entries[k].className !in Registry
    ensures RunActions(nodes, table, keys, t).outcome.Failed?
    decreases |keys|
  {
    var a := table.entries[keys[0]];
    var r := Dispatch(nodes, a, t);
    if keys[0] != k && r.outcome.Done? {
      assert k in keys[1..];
      UnregisteredClassStopsThePass(r.nodes, table, keys[1..], t, k);
    }
  }

  /** Replaying: a pass at `t1`, then at `t2`, then at `t1` again leaves the
      scene a single pass at `t1` leaves, provided no action reads a node that
      an action writes. */
  lemma PassReplay(nodes: map<NodeId, Node>, table: ActionTable, t1: real, t2: real)
    requires WellFormedStore(nodes) && ValidTable(table) && Independent(table, table.order)
    requires PassDefined(nodes, table, table.order, t1) && PassDefined(nodes, table, table.order, t2)
    ensures PassDefined(RunActions(nodes, table, table.order, t1).nodes, table, table.order, t2)
    ensures var second := RunActions(RunActions(nodes, table, table.order, t1).nodes, table, table.order, t2).nodes;
      && PassDefined(second, table, table.order, t1)
      && (RunActions(nodes, table, table.order, t1).outcome.Done? ==>
            RunActions(second, table, table.order, t1) == RunActions(nodes, table, table.order, t1))
  {
    var targets := TargetsOf(table, table.order);
    var first := RunActions(nodes, table, table.order, t1).nodes;
    PassSeekIndependent(nodes, table, t1, t2);
    var second := RunActions(first, table, table.order, t2).nodes;
    AgreeExceptTrans(nodes, first, second, targets, targets);
    assert targets + targets == targets;
    RunIgnoresTargets(nodes, second, table, table.order, t1);
  }

  /** No two actions named in `keys` write the same node. */
  predicate DistinctTargets(table: ActionTable, keys: seq<ActionId>)
    requires Listed(table, keys)
  {
    forall i, j :: 0 <= i < j < |keys| ==> Target(table.entries[keys[i]]) != Target(table.entries[keys[j]])
  }

  /** Every action acts once per pass: when a pass over independent actions
      with distinct targets completes, each target holds what its action
      alone, evaluated on the scene before the pass, writes there (and, by the
      contract of `RunActions`, no other node changes). */
  lemma {:induction false} EachActionActsOnce(nodes: map<NodeId, Node>, table: ActionTable, keys: seq<ActionId>,
                                              t: real, i: nat)
    requires WellFormedStore(nodes) && Listed(table, keys) && Independent(table, keys)
    requires DistinctTargets(table, keys)
    requires PassDefined(nodes, table, keys, t) && RunActions(nodes, table, keys, t).outcome.Done?
    requires i < |keys|
    ensures Dispatchable(nodes, table.entries[keys[i]], t)
    ensures Dispatch(nodes, table.entries[keys[i]], t).outcome.Done?
    ensures Target(table.entries[keys[i]]) in nodes
    ensures RunActions(nodes, table, keys, t).nodes[Target(table.entries[keys[i]])]
         == Dispatch(nodes, table.entries[keys[i]], t).nodes[Target(table.entries[keys[i]])]
    decreases |keys|
  {
    var a := table.entries[keys[0]];
    var r := Dispatch(nodes, a, t);
    CompletedPassUnfolds(nodes, table, keys, t);
    if i == 0 {
      TargetsAvoid(table, keys[1..], {Target(a)});
    } else {
      var b := table.entries[keys[i]];
      assert b == table.entries[keys[1..][i - 1]];
      assert Target(a) !in Sources(b) && Target(a) != Target(b);
      EachActionActsOnce(r.nodes, table, keys[1..], t, i - 1);
      EarlierTargetIsNotRead(nodes, r.nodes, a, b, t);
    }
  }

  /** A completed pass is its first action, completed, followed by a
      completed pass over the others, which are still independent, with
      distinct targets, and never write the first action's target. */
  lemma CompletedPassUnfolds(nodes: map<NodeId, Node>, table: ActionTable, keys: seq<ActionId>, t: real)
    requires WellFormedStore(nodes) && Listed(table, keys) && Independent(table, keys)
    requires DistinctTargets(table, keys) && keys != []
    requires PassDefined(nodes, table, keys, t) && RunActions(nodes, table, keys, t).outcome.Done?
    ensures var a := table.entries[keys[0]];
      && Dispatch(nodes, a, t).outcome.Done?
      && Listed(table, keys[1..]) && Independent(table, keys[1..]) && DistinctTargets(table, keys[1..])
      && PassDefined(Dispatch(nodes, a, t).nodes, table, keys[1..], t)
      && RunActions(nodes, table, keys, t) == RunActions(Dispatch(nodes, a, t).nodes, table, keys[1..], t)
      && (forall k :: k in keys[1..] ==> Target(table.entries[k]) != Target(a))
  {
    var rest := keys[1..];
    assert forall k :: k in rest ==> k in keys;
    assert forall j :: 0 <= j < |rest| ==> rest[j] == keys[j + 1];
    assert forall k :: k in rest ==> exists j :: 0 <= j < |rest| && rest[j] == k;
  }

  /** An action that does not read what an earlier action wrote, and writes
      elsewhere, writes after it what it would have written before it. */
  lemma EarlierTargetIsNotRead(nodes: map<NodeId, Node>, later: map<NodeId, Node>, a: Action, b: Action, t: real)
    requires WellFormedStore(nodes) && WellFormedStore(later)
    requires AgreeExcept(nodes, later, {Target(a)})
    requires Target(a) !in Sources(b) && Target(a) != Target(b)
    requires Dispatchable(later, b, t) && Dispatch(later, b, t).outcome.Done?
    ensures Dispatchable(nodes, b, t) && Dispatch(nodes, b, t).outcome.Done?
    ensures Target(b) in nodes
    ensures Dispatch(later, b, t).nodes[Target(b)] == Dispatch(nodes, b, t).nodes[Target(b)]
  {
    AgreeExceptSym(nodes, later, {Target(a)});
    DispatchReadsOnlySources(later, nodes, {Target(a)}, b, t);
  }
}
