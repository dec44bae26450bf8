/** The values the entity/component store is built from: identifiers, the
    runtime kinds of components and systems, component instances and the
    exceptions the store's dictionaries and LINQ calls can raise. */
module Elements {
  import opened Wrappers

  /** An entity or component identifier; equality is structural. */
  datatype ElementTag = ElementTag(id: string)

  /** No tag occurs twice. */
  predicate Distinct(tags: seq<ElementTag>) {
    forall i, j | 0 <= i < j < |tags| :: tags[i] != tags[j]
  }

  /** The runtime type of a component (what `GetType()` returns and what
      `OfType<T>` filters on). */
  datatype ComponentType = ComponentType(name: string)

  /** The runtime type of a system (the `TSys` of the order index). */
  datatype SystemType = SystemType(name: string)

  /** Opaque vector payloads; only carried, never computed with. */
  datatype Vector3 = Vector3(x: real, y: real, z: real)
  datatype Vector4 = Vector4(x: real, y: real, z: real, w: real)

  /** What a component carries besides its identity. */
  datatype Payload =
    | Geometry(positions: seq<Vector3>, indices: seq<int>, colors: seq<Vector4>)
    | LineListRender
    | Transform
    | Opaque(data: seq<int>)

  /** An owned component: its own tag, its runtime kind, the back-reference
      to its entity (set only when an add is committed) and its payload. */
  datatype Component = Component(tag: ElementTag, kind: ComponentType, entityTag: Option<ElementTag>, payload: Payload)
  {
    /** The component as the store keeps it once attached to `entity`. */
    function AttachTo(entity: ElementTag): (c: Component)
      ensures c.tag == tag && c.kind == kind && c.payload == payload
      ensures c.entityTag == Some(entity)
    {
      this.(entityTag := Some(entity))
    }
  }

  /** A shared component; the registry is keyed by the instance itself. */
  datatype Flyweight = Flyweight(tag: ElementTag, kind: ComponentType, payload: Payload)

  /** The exceptions the store raises.
      KeyNotFound: a dictionary indexer on a missing key (unknown entity,
        unregistered flyweight, unregistered system type).
      DuplicateKey: `Dictionary.Add` of a key already present.
      NoMatch / Ambiguous: `Enumerable.Single` on zero / several elements. */
  datatype Error = KeyNotFound | DuplicateKey | NoMatch | Ambiguous
}
