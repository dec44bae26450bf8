/** A polyline scene object (D3DLab.Wpf.Engine.App/GameObjects/PolylineGameObject.cs):
    its geometry draws segment i from point i to itself, as a line list over
    the index list [0, 0, 1, 1, …]. */
module PolylineGameObjects {
  import opened Wrappers
  import opened Elements
  import opened ComponentStore
  import opened EntityComponentManagement

  /** The object handed back: the tag of its entity. */
  datatype PolylineGameObject = PolylineGameObject(tag: ElementTag)

  const SimpleGeometryKind := ComponentType("SimpleGeometryComponent")
  const LineVertexRenderKind := ComponentType("D3DLineVertexRenderComponent")
  const TransformKind := ComponentType("D3DTransformComponent")

  /** The index list for `n` points: each point index twice, in order. */
  function PairIndices(n: nat): seq<int>
    decreases n
  {
    if n == 0 then [] else PairIndices(n - 1) + [n - 1, n - 1]
  }

  /** Twice as many indices as points, and position j holds point j / 2. */
  lemma {:induction false} PairIndicesShape(n: nat)
    ensures |PairIndices(n)| == 2 * n
    ensures forall j | 0 <= j < 2 * n :: PairIndices(n)[j] == j / 2
    decreases n
  {
    if n > 0 {
      PairIndicesShape(n - 1);
    }
  }

  /** Indices 2i and 2i + 1 both name point i. */
  lemma PairIndicesPairs(n: nat)
    ensures |PairIndices(n)| == 2 * n
    ensures forall i | 0 <= i < n :: PairIndices(n)[2 * i] == i && PairIndices(n)[2 * i + 1] == i
  {
    PairIndicesShape(n);
  }

  /** The index list never goes down. */
  lemma PairIndicesSorted(n: nat)
    ensures forall j, k | 0 <= j <= k < |PairIndices(n)| :: PairIndices(n)[j] <= PairIndices(n)[k]
  {
    PairIndicesShape(n);
  }

  /** The `SimpleGeometryComponent`: positions and colors as given, and
      the pair index list. */
  function GeometryComponent(geometryTag: ElementTag, points: seq<Vector3>, colors: seq<Vector4>): (c: Component)
    ensures c.kind == SimpleGeometryKind && c.entityTag == None
    ensures c.payload.Geometry? && c.payload.positions == points && c.payload.colors == colors
    ensures c.payload.indices == PairIndices(|points|)
    ensures |c.payload.indices| == 2 * |points|
  {
    PairIndicesShape(|points|);
    Component(geometryTag, SimpleGeometryKind, None, Geometry(points, PairIndices(|points|), colors))
  }

  /** `D3DLineVertexRenderComponent.AsLineList()`. */
  function LineListComponent(renderTag: ElementTag): (c: Component)
    ensures c.tag == renderTag && c.kind == LineVertexRenderKind && c.entityTag == None
    ensures c.payload == LineListRender
  {
    Component(renderTag, LineVertexRenderKind, None, LineListRender)
  }

  /** `new D3DTransformComponent()`. */
  function TransformComponent(transformTag: ElementTag): (c: Component)
    ensures c.tag == transformTag && c.kind == TransformKind && c.entityTag == None
    ensures c.payload == Transform
  {
    Component(transformTag, TransformKind, None, Transform)
  }

  /** `PolylineGameObject.Create(manager, tag, points, color)`: one entity
      request with the given tag and three component requests for it, in
      the order geometry, line-list render, transform. Nothing is committed
      until the manager synchronizes. The components' own tags are chosen
      by their constructors and are parameters here. */
  method Create(manager: EntityComponentManager, tag: ElementTag, points: seq<Vector3>, color: seq<Vector4>,
                geometryTag: ElementTag, renderTag: ElementTag, transformTag: ElementTag)
    returns (obj: PolylineGameObject)
    requires manager.Valid()
    modifies manager.entitySynchronizer, manager.comSynchronizer
    ensures obj.tag == tag
    ensures manager.entitySynchronizer.pending == old(manager.entitySynchronizer.pending) + [Command.CreateEntity(tag)]
    ensures manager.comSynchronizer.pending == old(manager.comSynchronizer.pending) + [
              Command.AddComponent(tag, GeometryComponent(geometryTag, points, color)),
              Command.AddComponent(tag, LineListComponent(renderTag)),
              Command.AddComponent(tag, TransformComponent(transformTag))]
    ensures manager.entitySynchronizer.staged == old(manager.entitySynchronizer.staged)
    ensures manager.comSynchronizer.staged == old(manager.comSynchronizer.staged)
  {
    var indices: seq<int> := [];
    var i := 0;
    while i < |points|
      invariant 0 <= i <= |points|
      invariant indices == PairIndices(i)
    {
      indices := indices + [i, i];
      i := i + 1;
    }
    var geo := Component(geometryTag, SimpleGeometryKind, None, Geometry(points, indices, color));
    var en := manager.CreateEntity(tag);
    var en1 := en.AddComponent(geo);
    var en2 := en1.AddComponent(LineListComponent(renderTag));
    var en3 := en2.AddComponent(TransformComponent(transformTag));
    obj := PolylineGameObject(en3.tag);
  }
}
