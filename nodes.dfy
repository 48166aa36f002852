/** The host scene as the animator sees it: a store from node id to a typed
    node, mutated in place by the actions. Only the state the actions read or
    write is kept. */
module Nodes {
  import opened Interpolation

  type NodeId = string

  /** Elements per scalar-opacity control point: value, opacity, midpoint, sharpness. */
  const OpacityPointWidth: nat := 4
  /** Elements per colour control point: value, red, green, blue, midpoint, sharpness. */
  const ColorPointWidth: nat := 6

  /** A camera: its pose is carried along untouched, `azimuth` accumulates the
      angles applied by rotations about the view-up axis. */
  datatype Camera = Camera(pose: seq<real>, azimuth: real)

  /** An annotation ROI: centre and half-extent, each a 3-vector. */
  datatype Roi = Roi(xyz: seq<real>, radiusXyz: seq<real>)

  /** A volume property: the scalar-opacity and colour transfer functions as
      lists of control points. */
  datatype VolumeProperty = VolumeProperty(scalarOpacity: seq<seq<real>>, color: seq<seq<real>>)

  /** A scene node. A transform's 4x4 matrix is stored row-major: entry
      (row, column) is `matrix[4 * row + column]`. */
  datatype Node =
    | TransformNode(matrix: seq<real>)
    | CameraNode(camera: Camera)
    | RoiNode(roi: Roi)
    | VolumePropertyNode(property: VolumeProperty)

  datatype NodeKind = TransformKind | CameraKind | RoiKind | VolumePropertyKind

  function KindOf(n: Node): NodeKind {
    match n
    case TransformNode(_) => TransformKind
    case CameraNode(_) => CameraKind
    case RoiNode(_) => RoiKind
    case VolumePropertyNode(_) => VolumePropertyKind
  }

  predicate IsMatrix(m: seq<real>) { |m| == 16 }

  predicate IsRoi(r: Roi) { |r.xyz| == 3 && |r.radiusXyz| == 3 }

  predicate IsVolumeProperty(p: VolumeProperty) {
    PointsOfWidth(p.scalarOpacity, OpacityPointWidth) && PointsOfWidth(p.color, ColorPointWidth)
  }

  /** The shapes the host's node classes guarantee. */
  predicate WellFormed(n: Node) {
    match n
    case TransformNode(m) => IsMatrix(m)
    case CameraNode(_) => true
    case RoiNode(r) => IsRoi(r)
    case VolumePropertyNode(p) => IsVolumeProperty(p)
  }

  predicate WellFormedStore(nodes: map<NodeId, Node>) {
    forall id :: id in nodes ==> WellFormed(nodes[id])
  }

  /** `GetNodeByID(id)` yields a node whose class has the methods the action
      calls on it. */
  predicate Resolves(nodes: map<NodeId, Node>, id: NodeId, kind: NodeKind) {
    id in nodes && KindOf(nodes[id]) == kind
  }

  /** The first id, in the order an action dereferences them, that does not
      resolve to a node of `kind`. */
  function FirstUnresolved(nodes: map<NodeId, Node>, ids: seq<NodeId>, kind: NodeKind): (r: Option<NodeId>)
    ensures r.None? <==> forall id :: id in ids ==> Resolves(nodes, id, kind)
    ensures r.Some? ==> exists i :: (0 <= i < |ids| && ids[i] == r.value && !Resolves(nodes, r.value, kind)
      && forall j :: 0 <= j < i ==> Resolves(nodes, ids[j], kind))
  {
    if ids == [] then None
    else if !Resolves(nodes, ids[0], kind) then Some(ids[0])
    else
      var rest := FirstUnresolved(nodes, ids[1..], kind);
      assert forall i :: 1 <= i < |ids| ==> ids[i] == ids[1..][i - 1];
      rest
  }

  datatype Option<T> = None | Some(value: T)

  /** The host's scene: every node the actions can reach, by id. */
  class Scene {
    var nodes: map<NodeId, Node>

    ghost predicate Valid()
      reads this
    {
      WellFormedStore(nodes)
    }

    constructor (initial: map<NodeId, Node>)
      requires WellFormedStore(initial)
      ensures Valid() && nodes == initial
    {
      nodes := initial;
    }
  }

  /** Two stores that hold the same ids with the same kinds, and the same
      nodes outside `except`. */
  predicate AgreeExcept(n1: map<NodeId, Node>, n2: map<NodeId, Node>, except: set<NodeId>) {
    && n1.Keys == n2.Keys
    && (forall id :: id in n1 ==> KindOf(n1[id]) == KindOf(n2[id]))
    && (forall id :: id in n1 && id !in except ==> n1[id] == n2[id])
  }

  /** Stores that hold the same ids with the same kinds resolve every id list
      alike. */
  lemma {:induction false} FirstUnresolvedAgrees(n1: map<NodeId, Node>, n2: map<NodeId, Node>, except: set<NodeId>,
                                                 ids: seq<NodeId>, kind: NodeKind)
    requires AgreeExcept(n1, n2, except)
    ensures FirstUnresolved(n1, ids, kind) == FirstUnresolved(n2, ids, kind)
    decreases |ids|
  {
    if ids != [] {
      assert Resolves(n1, ids[0], kind) == Resolves(n2, ids[0], kind);
      FirstUnresolvedAgrees(n1, n2, except, ids[1..], kind);
    }
  }

  /** Agreement outside a set is kept when the set grows. */
  lemma AgreeExceptWiden(n1: map<NodeId, Node>, n2: map<NodeId, Node>, small: set<NodeId>, large: set<NodeId>)
    requires AgreeExcept(n1, n2, small) && small <= large
    ensures AgreeExcept(n1, n2, large)
  {
  }

  /** Stores that agree everywhere are equal. */
  lemma AgreeEverywhere(n1: map<NodeId, Node>, n2: map<NodeId, Node>)
    requires AgreeExcept(n1, n2, {})
    ensures n1 == n2
  {
    assert forall id :: id in n1 ==> n1[id] == n2[id];
  }

  /** Agreement composes: what changes in two steps lies in the union of what
      each step may change. */
  lemma AgreeExceptTrans(n1: map<NodeId, Node>, n2: map<NodeId, Node>, n3: map<NodeId, Node>,
                         e1: set<NodeId>, e2: set<NodeId>)
    requires AgreeExcept(n1, n2, e1) && AgreeExcept(n2, n3, e2)
    ensures AgreeExcept(n1, n3, e1 + e2)
  {
  }

  lemma AgreeExceptSym(n1: map<NodeId, Node>, n2: map<NodeId, Node>, except: set<NodeId>)
    requires AgreeExcept(n1, n2, except)
    ensures AgreeExcept(n2, n1, except)
  {
  }
}
