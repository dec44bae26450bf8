/** Per-entity, per-system ordering (`EntityOrderContainer` in
    D3DLab.Std.Engine.Core/GraphicEntity.cs): a system asks an entity for
    its order index; indices are handed out by one counter per system type. */
module EntityOrder {
  import opened Wrappers
  import opened Elements

  const IntMax: int := 0x7FFF_FFFF
  const IntMin: int := -0x8000_0000

  /** A C# `int`. */
  type Int32 = x: int | IntMin <= x <= IntMax

  /** `x + 1` in unchecked 32-bit arithmetic (the C# default). */
  function Inc32(x: Int32): (r: Int32)
    ensures x < IntMax ==> r == x + 1
    ensures x == IntMax ==> r == IntMin
    ensures (r - x) % 0x1_0000_0000 == 1
  {
    if x == IntMax then IntMin else x + 1
  }

  /** The two dictionaries of the container. */
  datatype OrderIndex = OrderIndex(
    componentOrderIndex: map<ElementTag, map<SystemType, Int32>>,
    systemsOrder: map<SystemType, Int32>)

  const EmptyIndex := OrderIndex(map[], map[])

  /** `IncrementSystemOrderIndex(t)`: the first call for a system type
      yields 0, each later one the previous value plus one; no other
      counter and no per-entity index moves. Returns the new index and the
      value handed out. */
  function Increment(o: OrderIndex, t: SystemType): (r: (OrderIndex, Int32))
    ensures t in r.0.systemsOrder && r.0.systemsOrder[t] == r.1
    ensures t !in o.systemsOrder ==> r.1 == 0
    ensures t in o.systemsOrder ==> r.1 == Inc32(o.systemsOrder[t])
    ensures r.0.systemsOrder - {t} == o.systemsOrder - {t}
    ensures r.0.componentOrderIndex == o.componentOrderIndex
  {
    var n := if t !in o.systemsOrder then 0 else Inc32(o.systemsOrder[t]);
    (o.(systemsOrder := o.systemsOrder[t := n]), n)
  }

  /** The index after a registration, and what it threw. */
  datatype Registered = Registered(index: OrderIndex, error: Option<Error>)

  /** `(tag, t)` already has an index. */
  predicate HasOrder(o: OrderIndex, tag: ElementTag, t: SystemType) {
    tag in o.componentOrderIndex && t in o.componentOrderIndex[tag]
  }

  /** `Get<TSys>(tag)`: an entity with no registration at all sorts last
      (`int.MaxValue`); an entity registered for other systems only makes
      the dictionary lookup throw. */
  function Get(o: OrderIndex, tag: ElementTag, t: SystemType): (r: Result<Int32, Error>)
    ensures tag !in o.componentOrderIndex ==> r == Ok(IntMax)
    ensures tag in o.componentOrderIndex ==> (r.Ok? <==> HasOrder(o, tag, t))
    ensures r.Err? ==> r.error == KeyNotFound
    ensures HasOrder(o, tag, t) ==> r == Ok(o.componentOrderIndex[tag][t])
  {
    if tag !in o.componentOrderIndex then Ok(IntMax)
    else if t !in o.componentOrderIndex[tag] then Err(KeyNotFound)
    else Ok(o.componentOrderIndex[tag][t])
  }

  /** Indices of other entities, and of other systems for this entity,
      are as they were. */
  predicate OthersKept(o: OrderIndex, p: OrderIndex, tag: ElementTag, t: SystemType) {
    && p.componentOrderIndex - {tag} == o.componentOrderIndex - {tag}
    && Ordering(p, tag) - {t} == Ordering(o, tag) - {t}
  }

  /** The entity's dictionary, created empty when absent. */
  function Ordering(o: OrderIndex, tag: ElementTag): map<SystemType, Int32> {
    if tag in o.componentOrderIndex then o.componentOrderIndex[tag] else map[]
  }

  /** `RegisterOrder<TSys>(tag, index)`: an explicit index. The
      `ordering.Add` throws on a second registration before anything
      changed; otherwise the index is stored and the system's counter
      still advances. */
  function RegisterAt(o: OrderIndex, tag: ElementTag, t: SystemType, index: Int32): (r: Registered)
    ensures HasOrder(o, tag, t) ==> r == Registered(o, Some(DuplicateKey))
    ensures !HasOrder(o, tag, t) ==>
              && r.error == None
              && HasOrder(r.index, tag, t)
              && Get(r.index, tag, t) == Ok(index)
              && r.index.systemsOrder == Increment(o, t).0.systemsOrder
              && OthersKept(o, r.index, tag, t)
  {
    if HasOrder(o, tag, t) then Registered(o, Some(DuplicateKey))
    else
      var o1 := o.(componentOrderIndex := o.componentOrderIndex[tag := Ordering(o, tag)[t := index]]);
      Registered(Increment(o1, t).0, None)
  }

  /** `RegisterOrder<TSys>(tag)`: the counter advances first and its new
      value is the entity's index; on a second registration the `Add`
      throws after the counter has advanced (and after an empty dictionary
      was created for a new tag, which cannot happen together). */
  function Register(o: OrderIndex, tag: ElementTag, t: SystemType): (r: Registered)
    ensures r.index.systemsOrder == Increment(o, t).0.systemsOrder
    ensures HasOrder(o, tag, t) ==>
              && r.error == Some(DuplicateKey)
              && r.index.componentOrderIndex == o.componentOrderIndex
    ensures !HasOrder(o, tag, t) ==>
              && r.error == None
              && HasOrder(r.index, tag, t)
              && Get(r.index, tag, t) == Ok(Increment(o, t).1)
              && OthersKept(o, r.index, tag, t)
  {
    var o1 := o.(componentOrderIndex := o.componentOrderIndex[tag := Ordering(o, tag)]);
    var (o2, n) := Increment(o1, t);
    if t in Ordering(o, tag) then Registered(o2, Some(DuplicateKey))
    else Registered(o2.(componentOrderIndex := o2.componentOrderIndex[tag := Ordering(o, tag)[t := n]]), None)
  }

  /** Auto-registering each of `tags` for system `t`, in order. */
  function RegisterEach(o: OrderIndex, tags: seq<ElementTag>, t: SystemType): OrderIndex
    decreases |tags|
  {
    if tags == [] then o
    else Register(RegisterEach(o, tags[..|tags| - 1], t), tags[|tags| - 1], t).index
  }

  /** One auto-registration of a tag not yet registered for `t` leaves every
      other tag's lookup for `t` as it was. */
  lemma RegisterKeepsOtherTags(p: OrderIndex, x: ElementTag, t: SystemType)
    requires !HasOrder(p, x, t)
    ensures var q := Register(p, x, t).index;
            && Get(q, x, t) == Ok(Increment(p, t).1)
            && q.systemsOrder == Increment(p, t).0.systemsOrder
            && forall y | y != x :: Get(q, y, t) == Get(p, y, t) && (HasOrder(q, y, t) <==> HasOrder(p, y, t))
  {
    var q := Register(p, x, t).index;
    forall y | y != x
      ensures Get(q, y, t) == Get(p, y, t) && (HasOrder(q, y, t) <==> HasOrder(p, y, t))
    {
      assert y in q.componentOrderIndex <==> y in q.componentOrderIndex - {x};
      assert y in p.componentOrderIndex <==> y in p.componentOrderIndex - {x};
      if y in p.componentOrderIndex {
        assert (q.componentOrderIndex - {x})[y] == (p.componentOrderIndex - {x})[y];
      }
    }
  }

  /** Auto-registering distinct new entities for a system not seen before
      numbers them 0, 1, 2, … in registration order, and the counter ends
      at the last number handed out (no wrap-around below 2^31 entities). */
  lemma {:induction false} RegisterEachNumbersInOrder(o: OrderIndex, tags: seq<ElementTag>, t: SystemType)
    requires t !in o.systemsOrder
    requires Distinct(tags)
    requires forall i | 0 <= i < |tags| :: !HasOrder(o, tags[i], t)
    requires |tags| <= IntMax + 1
    ensures tags == [] ==> RegisterEach(o, tags, t).systemsOrder == o.systemsOrder
    ensures tags != [] ==>
              t in RegisterEach(o, tags, t).systemsOrder && RegisterEach(o, tags, t).systemsOrder[t] == |tags| - 1
    ensures forall i | 0 <= i < |tags| :: Get(RegisterEach(o, tags, t), tags[i], t) == Ok(i)
    ensures forall x | HasOrder(RegisterEach(o, tags, t), x, t) :: HasOrder(o, x, t) || x in tags
    decreases |tags|
  {
    if tags != [] {
      var n := |tags| - 1;
      var front := tags[..n];
      assert forall i | 0 <= i < |front| :: front[i] == tags[i];
      RegisterEachNumbersInOrder(o, front, t);
      var p := RegisterEach(o, front, t);
      assert tags[n] !in front by {
        forall i | 0 <= i < n ensures front[i] != tags[n] {
          assert tags[i] != tags[n];
        }
      }
      assert !HasOrder(p, tags[n], t);
      RegisterKeepsOtherTags(p, tags[n], t);
      assert RegisterEach(o, tags, t) == Register(p, tags[n], t).index;
      forall i | 0 <= i < n
        ensures Get(RegisterEach(o, tags, t), tags[i], t) == Ok(i)
      {
        assert tags[i] != tags[n];
      }
    }
  }

  /** A different system type's counter is not touched by registrations
      for `t`. */
  lemma {:induction false} RegisterEachKeepsOtherCounters(o: OrderIndex, tags: seq<ElementTag>, t: SystemType, u: SystemType)
    requires u != t
    ensures u in RegisterEach(o, tags, t).systemsOrder <==> u in o.systemsOrder
    ensures u in o.systemsOrder ==> RegisterEach(o, tags, t).systemsOrder[u] == o.systemsOrder[u]
    decreases |tags|
  {
    if tags != [] {
      RegisterEachKeepsOtherCounters(o, tags[..|tags| - 1], t, u);
    }
  }

  /** The container object; its methods change the two dictionaries as
      the functions above say. */
  class EntityOrderContainer {
    var componentOrderIndex: map<ElementTag, map<SystemType, Int32>>
    var systemsOrder: map<SystemType, Int32>

    function State(): OrderIndex
      reads this
    {
      OrderIndex(componentOrderIndex, systemsOrder)
    }

    constructor ()
      ensures State() == EmptyIndex
    {
      componentOrderIndex := map[];
      systemsOrder := map[];
    }

    /** `IncrementSystemOrderIndex(t)`. */
    method IncrementSystemOrderIndex(t: SystemType) returns (n: Int32)
      modifies this
      ensures (State(), n) == Increment(old(State()), t)
    {
      if t !in systemsOrder {
        systemsOrder := systemsOrder[t := 0];
      } else {
        systemsOrder := systemsOrder[t := Inc32(systemsOrder[t])];
      }
      n := systemsOrder[t];
    }

    /** `RegisterOrder<TSys>(tag, index)`; `this` is returned for chaining
        in the source and is left implicit here. */
    method RegisterOrderAt(tag: ElementTag, t: SystemType, index: Int32) returns (err: Option<Error>)
      modifies this
      ensures Registered(State(), err) == RegisterAt(old(State()), tag, t, index)
    {
      var ordering := if tag in componentOrderIndex then componentOrderIndex[tag] else map[];
      componentOrderIndex := componentOrderIndex[tag := ordering];
      if t in ordering {
        return Some(DuplicateKey);
      }
      componentOrderIndex := componentOrderIndex[tag := ordering[t := index]];
      var _ := IncrementSystemOrderIndex(t);
      err := None;
    }

    /** `RegisterOrder<TSys>(tag)`. */
    method RegisterOrder(tag: ElementTag, t: SystemType) returns (err: Option<Error>)
      modifies this
      ensures Registered(State(), err) == Register(old(State()), tag, t)
    {
      var ordering := if tag in componentOrderIndex then componentOrderIndex[tag] else map[];
      componentOrderIndex := componentOrderIndex[tag := ordering];
      var n := IncrementSystemOrderIndex(t);
      if t in ordering {
        return Some(DuplicateKey);
      }
      componentOrderIndex := componentOrderIndex[tag := ordering[t := n]];
      err := None;
    }
  }
}
