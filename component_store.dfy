/** The committed state of the entity/component store and the effect of each
    queued mutation once it is committed (D3DLab.ECS/EntityComponentManager.cs).

    The store's mutating API only enqueues commands; a `Command` here is one
    such queued closure, and `Apply` is what running it against the store does.
    A command that throws part-way leaves the mutations made before the throw
    in place: `Applied(store, Some(error))` carries that partial state. */
module ComponentStore {
  import opened Wrappers
  import opened Elements

  /** One entity's owned components, keyed by each component's own tag. */
  type Bucket = map<ElementTag, Component>

  /** The committed state: live entities, their buckets, the per-entity set of
      recorded component kinds (`entityHas`), the flyweight registry, and the
      record of every `Dispose()` call the store has made. */
  datatype Store = Store(
    entities: set<ElementTag>,
    components: map<ElementTag, Bucket>,
    entityHas: map<ElementTag, set<ComponentType>>,
    flyweights: map<Flyweight, set<ElementTag>>,
    disposed: multiset<Component>,
    disposedFlyweights: multiset<Flyweight>)

  const EmptyStore := Store({}, map[], map[], map[], multiset{}, multiset{})

  /** Every component of the bucket is stored under its own tag and points
      back to the entity that owns the bucket. */
  predicate OwnedBy(entity: ElementTag, b: Bucket) {
    forall k | k in b :: b[k].tag == k && b[k].entityTag == Some(entity)
  }

  /** A tag is live exactly when it has a bucket and a kind set. */
  predicate Valid(s: Store) {
    && s.components.Keys == s.entities
    && s.entityHas.Keys == s.entities
    && forall e | e in s.components :: OwnedBy(e, s.components[e])
  }

  lemma EmptyStoreValid()
    ensures Valid(EmptyStore) && EmptyStore.entities == {}
  {
  }

  // ---------------------------------------------------------------------
  // Reads: they only ever look at the committed store.
  // ---------------------------------------------------------------------

  /** `bucket.Values.OfType<T>()`, with the runtime kind standing for `T`. */
  function OfKind(b: Bucket, kind: ComponentType): (r: set<Component>)
    ensures forall c :: c in r <==> c in b.Values && c.kind == kind
  {
    set c | c in b.Values && c.kind == kind
  }

  lemma ValuesAfterInsert(b: Bucket, k: ElementTag, v: Component)
    requires k !in b
    ensures b[k := v].Values == b.Values + {v}
  {
    forall x | x in b.Values
      ensures x in b[k := v].Values
    {
      var j :| j in b && b[j] == x;
      assert b[k := v][j] == x;
    }
    assert b[k := v][k] == v;
  }

  lemma ValuesAfterRemove(e: ElementTag, b: Bucket, k: ElementTag)
    requires OwnedBy(e, b)
    ensures forall x :: x in (b - {k}).Values <==> x in b.Values && x.tag != k
  {
    forall x | x in b.Values && x.tag != k
      ensures x in (b - {k}).Values
    {
      assert x.tag in b && b[x.tag] == x;
      assert (b - {k})[x.tag] == x;
    }
  }

  /** With no component of `kind` in `b`, storing `v` of that kind under a
      fresh key leaves `v` as the only one. */
  lemma OnlyOfKindAfterInsert(b: Bucket, k: ElementTag, v: Component)
    requires k !in b
    ensures OfKind(b, v.kind) == {} ==> OfKind(b[k := v], v.kind) == {v}
  {
    ValuesAfterInsert(b, k, v);
  }

  lemma SingletonUnique(cs: set<Component>)
    requires |cs| == 1
    ensures forall x, y | x in cs && y in cs :: x == y
  {
    var x :| x in cs;
    assert |cs - {x}| == |cs| - 1 == 0;
    assert cs - {x} == {};
  }

  /** `Enumerable.Single`: the one element, or the exception it raises. */
  function Single(cs: set<Component>): (r: Result<Component, Error>)
    ensures r.Ok? <==> |cs| == 1
    ensures r.Ok? ==> cs == {r.value}
    ensures |cs| == 0 ==> r == Err(NoMatch)
    ensures |cs| > 1 ==> r == Err(Ambiguous)
  {
    if |cs| == 0 then Err(NoMatch)
    else if |cs| > 1 then Err(Ambiguous)
    else
      SingletonUnique(cs);
      var c :| c in cs;
      Ok(c)
  }

  /** `IsExisted(tag)`: the tag is live, so in a valid store the lookups
      of its bucket and of its kind set succeed. */
  function IsExisted(s: Store, tag: ElementTag): (r: bool)
    ensures Valid(s) ==> (r <==> tag in s.components && tag in s.entityHas)
  {
    tag in s.entities
  }

  /** `GetComponent<T>(tag)`: strict; succeeds only on exactly one match. */
  function GetComponent(s: Store, tag: ElementTag, kind: ComponentType): (r: Result<Component, Error>)
    ensures tag !in s.components ==> r == Err(KeyNotFound)
    ensures r.Ok? <==> tag in s.components && |OfKind(s.components[tag], kind)| == 1
    ensures r.Ok? ==> r.value in s.components[tag].Values && r.value.kind == kind
    ensures r.Ok? ==> forall c | c in s.components[tag].Values && c.kind == kind :: c == r.value
    ensures tag in s.components && OfKind(s.components[tag], kind) == {} ==> r == Err(NoMatch)
    ensures tag in s.components && |OfKind(s.components[tag], kind)| > 1 ==> r == Err(Ambiguous)
  {
    if tag !in s.components then Err(KeyNotFound)
    else Single(OfKind(s.components[tag], kind))
  }

  /** `GetComponents<T>(tag)`: strict on the tag, any number of matches. */
  function GetComponentsOfKind(s: Store, tag: ElementTag, kind: ComponentType): (r: Result<set<Component>, Error>)
    ensures r.Err? <==> tag !in s.components
    ensures r.Err? ==> r.error == KeyNotFound
    ensures r.Ok? ==> forall c :: c in r.value <==> c in s.components[tag].Values && c.kind == kind
  {
    if tag !in s.components then Err(KeyNotFound)
    else Ok(OfKind(s.components[tag], kind))
  }

  /** `GetComponents(tag)`: lenient; an unknown tag yields nothing. */
  function GetComponents(s: Store, tag: ElementTag): (r: set<Component>)
    ensures tag !in s.components ==> r == {}
    ensures tag in s.components ==> forall c :: c in r <==> exists k | k in s.components[tag] :: s.components[tag][k] == c
  {
    if tag !in s.components then {} else s.components[tag].Values
  }

  /** `GetComponents<T>()`: the components of one kind across all buckets. */
  function GetAllOfKind(s: Store, kind: ComponentType): (r: set<Component>)
    ensures forall c :: c in r <==> c.kind == kind && exists e | e in s.components :: c in s.components[e].Values
  {
    set e, c | e in s.components && c in s.components[e].Values && c.kind == kind :: c
  }

  /** `TryGet<T>(tag, out c)`: `false` on no match, otherwise `Single`. */
  function TryGet(s: Store, tag: ElementTag, kind: ComponentType): (r: Result<Option<Component>, Error>)
    ensures tag !in s.components ==> r == Err(KeyNotFound)
    ensures r == Ok(None) <==> tag in s.components && OfKind(s.components[tag], kind) == {}
    ensures tag in s.components && OfKind(s.components[tag], kind) != {} ==>
              r == match GetComponent(s, tag, kind) { case Ok(c) => Ok(Some(c)) case Err(x) => Err(x) }
  {
    if tag !in s.components then Err(KeyNotFound)
    else if OfKind(s.components[tag], kind) == {} then Ok(None)
    else match Single(OfKind(s.components[tag], kind))
      case Ok(c) => Ok(Some(c))
      case Err(x) => Err(x)
  }

  /** `TryGet<T1, T2>(tag, out c1, out c2)`: the two probes joined with `&&`;
      the result is (returned flag, c1, c2), a `None` being `default`. */
  function TryGetBoth(s: Store, tag: ElementTag, k1: ComponentType, k2: ComponentType)
    : (r: Result<(bool, Option<Component>, Option<Component>), Error>)
    ensures r.Ok? && r.value.0 <==> TryGet(s, tag, k1).Ok? && TryGet(s, tag, k1).value.Some?
                                    && TryGet(s, tag, k2).Ok? && TryGet(s, tag, k2).value.Some?
    ensures TryGet(s, tag, k1) == Ok(None) ==> r == Ok((false, None, None))
    ensures r.Ok? ==> TryGet(s, tag, k1).Ok? && r.value.1 == TryGet(s, tag, k1).value
    ensures TryGet(s, tag, k1).Err? ==> r == Err(TryGet(s, tag, k1).error)
    ensures TryGet(s, tag, k1).Ok? && TryGet(s, tag, k1).value.Some? && TryGet(s, tag, k2).Err? ==>
              r == Err(TryGet(s, tag, k2).error)
    ensures TryGet(s, tag, k1).Ok? && TryGet(s, tag, k1).value.Some? ==>
              && (r.Err? <==> TryGet(s, tag, k2).Err?)
              && (r.Ok? ==> r.value.2 == TryGet(s, tag, k2).value)
  {
    match TryGet(s, tag, k1)
    case Err(x) => Err(x)
    case Ok(None) => Ok((false, None, None))
    case Ok(Some(c1)) =>
      match TryGet(s, tag, k2)
      case Err(x) => Err(x)
      case Ok(None) => Ok((false, Some(c1), None))
      case Ok(Some(c2)) => Ok((true, Some(c1), Some(c2)))
  }

  /** `Has<T>(tag)`: is any component of the bucket of that kind. */
  function HasKind(s: Store, tag: ElementTag, kind: ComponentType): (r: Result<bool, Error>)
    ensures r.Err? <==> tag !in s.components
    ensures r.Err? ==> r.error == KeyNotFound
    ensures r == Ok(true) <==> tag in s.components && exists c | c in s.components[tag].Values :: c.kind == kind
  {
    if tag !in s.components then Err(KeyNotFound)
    else Ok(OfKind(s.components[tag], kind) != {})
  }

  /** `Has(tag, types)`: every listed kind is recorded in `entityHas`. The
      lookup of the tag happens inside `All`'s lambda, so an empty list never
      touches the dictionary. */
  function HasAll(s: Store, tag: ElementTag, kinds: seq<ComponentType>): (r: Result<bool, Error>)
    ensures tag in s.entityHas ==> (r == Ok(true) <==> forall k | k in kinds :: k in s.entityHas[tag])
    ensures tag in s.entityHas ==> r.Ok?
    ensures tag !in s.entityHas ==> (r.Ok? <==> kinds == [])
    ensures kinds == [] ==> r == Ok(true)
    ensures r.Err? ==> r.error == KeyNotFound
  {
    if |kinds| == 0 then Ok(true)
    else if tag !in s.entityHas then Err(KeyNotFound)
    else Ok(forall i | 0 <= i < |kinds| :: kinds[i] in s.entityHas[tag])
  }

  /** `GetComponents(tag, types)`: the components whose runtime kind is listed. */
  function GetComponentsOfKinds(s: Store, tag: ElementTag, kinds: seq<ComponentType>): (r: Result<set<Component>, Error>)
    ensures r.Err? <==> tag !in s.components
    ensures r.Err? ==> r.error == KeyNotFound
    ensures r.Ok? ==> forall c :: c in r.value <==> c in s.components[tag].Values && c.kind in kinds
  {
    if tag !in s.components then Err(KeyNotFound)
    else Ok(set c | c in s.components[tag].Values && c.kind in kinds)
  }

  // ---------------------------------------------------------------------
  // Commands and their committed effect.
  // ---------------------------------------------------------------------

  /** The queued closures, as data. */
  datatype Command =
    | CreateEntity(tag: ElementTag)
    | RemoveEntity(tag: ElementTag)
    | AddComponent(entity: ElementTag, component: Component)
    | RemoveComponent(entity: ElementTag, component: Component)
    | UpdateComponent(entity: ElementTag, kind: ComponentType, component: Component)
    | AddFlyweight(entity: ElementTag, flyweight: Flyweight)
    | RemoveFlyweight(entity: ElementTag, flyweight: Flyweight)

  /** The store after a command ran (or threw), and what it threw. */
  datatype Applied = Applied(store: Store, error: Option<Error>)

  /** Other entities' buckets and kind sets are as they were. */
  predicate OthersUnchanged(s: Store, t: Store, entity: ElementTag) {
    && t.entities - {entity} == s.entities - {entity}
    && t.components - {entity} == s.components - {entity}
    && t.entityHas - {entity} == s.entityHas - {entity}
  }

  /** The `CreateEntity` closure: add the tag, then `components.Add` and
      `entityHas.Add`, which throw if the tag is already there. */
  function CommitCreateEntity(s: Store, tag: ElementTag): (r: Applied)
    requires Valid(s)
    ensures Valid(r.store)
    ensures r.error == None <==> !IsExisted(s, tag)
    ensures r.error != None ==> r.error == Some(DuplicateKey) && r.store == s
    ensures r.error == None ==>
              && IsExisted(r.store, tag)
              && r.store.components[tag] == map[]
              && r.store.entityHas[tag] == {}
    ensures OthersUnchanged(s, r.store, tag)
    ensures r.store.flyweights == s.flyweights
    ensures r.store.disposed == s.disposed && r.store.disposedFlyweights == s.disposedFlyweights
  {
    if tag in s.entities then Applied(s, Some(DuplicateKey))
    else Applied(s.(entities := s.entities + {tag},
                    components := s.components[tag := map[]],
                    entityHas := s.entityHas[tag := {}]), None)
  }

  /** The `RemoveEntity` closure: a no-op on a tag that is not live;
      otherwise every owned component is removed and disposed and the tag
      is erased from the live set, the buckets and the kind sets. Flyweight
      memberships are left as they are. */
  function CommitRemoveEntity(s: Store, tag: ElementTag): (r: Applied)
    requires Valid(s)
    ensures Valid(r.store)
    ensures r.error == None
    ensures !IsExisted(s, tag) ==> r.store == s
    ensures IsExisted(s, tag) ==>
              && !IsExisted(r.store, tag)
              && tag !in r.store.components && tag !in r.store.entityHas
              && GetComponents(r.store, tag) == {}
              && r.store.disposed == s.disposed + multiset(GetComponents(s, tag))
    ensures OthersUnchanged(s, r.store, tag)
    ensures r.store.flyweights == s.flyweights && r.store.disposedFlyweights == s.disposedFlyweights
  {
    if tag !in s.entities then Applied(s, None)
    else Applied(Store(s.entities - {tag},
                       s.components - {tag},
                       s.entityHas - {tag},
                       s.flyweights,
                       s.disposed + multiset(s.components[tag].Values),
                       s.disposedFlyweights), None)
  }

  /** Attaching `c` to a live entity and storing it under its own (fresh)
      tag: the bucket gains exactly that component. */
  function Insert(s: Store, entity: ElementTag, c: Component): (t: Store)
    requires Valid(s) && IsExisted(s, entity) && c.tag !in s.components[entity]
    ensures Valid(t) && IsExisted(t, entity)
    ensures GetComponents(t, entity) == GetComponents(s, entity) + {c.AttachTo(entity)}
    ensures OfKind(s.components[entity], c.kind) == {} ==> GetComponent(t, entity, c.kind) == Ok(c.AttachTo(entity))
    ensures OthersUnchanged(s, t, entity) && t.entityHas == s.entityHas
    ensures t.entities == s.entities && t.flyweights == s.flyweights
    ensures t.disposed == s.disposed && t.disposedFlyweights == s.disposedFlyweights
  {
    ValuesAfterInsert(s.components[entity], c.tag, c.AttachTo(entity));
    OnlyOfKindAfterInsert(s.components[entity], c.tag, c.AttachTo(entity));
    s.(components := s.components[entity := s.components[entity][c.tag := c.AttachTo(entity)]])
  }

  /** The owned `_AddComponent`: set the back-reference, `Add` under the
      component's own tag (a duplicate tag throws), record the kind. */
  function CommitAddComponent(s: Store, entity: ElementTag, c: Component): (r: Applied)
    requires Valid(s)
    ensures Valid(r.store)
    ensures !IsExisted(s, entity) ==> r == Applied(s, Some(KeyNotFound))
    ensures IsExisted(s, entity) && c.tag in s.components[entity] ==> r == Applied(s, Some(DuplicateKey))
    ensures r.error == None <==> IsExisted(s, entity) && c.tag !in s.components[entity]
    ensures r.error == None ==>
              && GetComponents(r.store, entity) == GetComponents(s, entity) + {c.AttachTo(entity)}
              && r.store.entityHas[entity] == s.entityHas[entity] + {c.kind}
              && (OfKind(s.components[entity], c.kind) == {} ==> GetComponent(r.store, entity, c.kind) == Ok(c.AttachTo(entity)))
    ensures OthersUnchanged(s, r.store, entity)
    ensures r.store.entities == s.entities && r.store.flyweights == s.flyweights
    ensures r.store.disposed == s.disposed && r.store.disposedFlyweights == s.disposedFlyweights
  {
    if entity !in s.entities then Applied(s, Some(KeyNotFound))
    else if c.tag in s.components[entity] then Applied(s, Some(DuplicateKey))
    else
      var t := Insert(s, entity, c);
      Applied(t.(entityHas := t.entityHas[entity := t.entityHas[entity] + {c.kind}]), None)
  }

  /** Removing whatever is stored under `c`'s tag and disposing `c`. */
  function Drop(s: Store, entity: ElementTag, c: Component): (t: Store)
    requires Valid(s) && IsExisted(s, entity)
    ensures Valid(t) && IsExisted(t, entity)
    ensures forall x :: x in GetComponents(t, entity) <==> x in GetComponents(s, entity) && x.tag != c.tag
    ensures t.disposed == s.disposed + multiset{c}
    ensures OthersUnchanged(s, t, entity) && t.entityHas == s.entityHas
    ensures t.entities == s.entities && t.flyweights == s.flyweights && t.disposedFlyweights == s.disposedFlyweights
  {
    ValuesAfterRemove(entity, s.components[entity], c.tag);
    s.(components := s.components[entity := s.components[entity] - {c.tag}],
       disposed := s.disposed + multiset{c})
  }

  /** The owned `_RemoveComponent` on a live entity: drop whatever is stored
      under the component's tag, drop its kind from the kind set (even when
      another component of that kind remains), dispose the component given. */
  function RemoveOwned(s: Store, entity: ElementTag, c: Component): (t: Store)
    requires Valid(s) && IsExisted(s, entity)
    ensures Valid(t)
    ensures IsExisted(t, entity)
    ensures forall x :: x in GetComponents(t, entity) <==> x in GetComponents(s, entity) && x.tag != c.tag
    ensures t.entityHas[entity] == s.entityHas[entity] - {c.kind}
    ensures t.disposed == s.disposed + multiset{c}
    ensures OthersUnchanged(s, t, entity)
    ensures t.entities == s.entities && t.flyweights == s.flyweights && t.disposedFlyweights == s.disposedFlyweights
  {
    var t := Drop(s, entity, c);
    t.(entityHas := t.entityHas[entity := t.entityHas[entity] - {c.kind}])
  }

  /** The owned `RemoveComponent` closure: unknown entity throws. */
  function CommitRemoveComponent(s: Store, entity: ElementTag, c: Component): (r: Applied)
    requires Valid(s)
    ensures Valid(r.store)
    ensures r.error == None <==> IsExisted(s, entity)
    ensures r.error != None ==> r == Applied(s, Some(KeyNotFound))
    ensures r.error == None ==> r.store == RemoveOwned(s, entity, c)
  {
    if entity !in s.entities then Applied(s, Some(KeyNotFound))
    else Applied(RemoveOwned(s, entity, c), None)
  }

  /** The components of the bucket that are not of `kind`. */
  function OtherKinds(s: Store, entity: ElementTag, kind: ComponentType): (r: set<Component>)
    ensures forall x :: x in r <==> x in GetComponents(s, entity) && x.kind != kind
  {
    set x | x in GetComponents(s, entity) && x.kind != kind
  }

  /** A component tag is a key of a bucket exactly when a held component
      carries it. */
  lemma TagHeld(s: Store, entity: ElementTag, k: ElementTag)
    requires Valid(s) && IsExisted(s, entity)
    ensures k in s.components[entity] <==> exists x | x in GetComponents(s, entity) :: x.tag == k
  {
    if k in s.components[entity] {
      assert s.components[entity][k] in GetComponents(s, entity);
    }
  }

  /** The first half of the `UpdateComponents<T>` closure, on a live entity
      with at most one `T`: that one is removed by its tag and disposed; with
      none, the new component's kind is recorded instead. */
  function ClearKind(s: Store, entity: ElementTag, kind: ComponentType, newKind: ComponentType): (t: Store)
    requires Valid(s) && IsExisted(s, entity) && |OfKind(s.components[entity], kind)| <= 1
    ensures Valid(t) && IsExisted(t, entity)
    ensures GetComponents(t, entity) == OtherKinds(s, entity, kind)
    ensures |OfKind(s.components[entity], kind)| == 1 ==>
              && GetComponent(s, entity, kind).Ok?
              && t.entityHas == s.entityHas
              && t.disposed == s.disposed + multiset{GetComponent(s, entity, kind).value}
    ensures OfKind(s.components[entity], kind) == {} ==>
              && t.entityHas == s.entityHas[entity := s.entityHas[entity] + {newKind}]
              && t.disposed == s.disposed
    ensures OthersUnchanged(s, t, entity)
    ensures t.entities == s.entities && t.flyweights == s.flyweights && t.disposedFlyweights == s.disposedFlyweights
  {
    var olds := OfKind(s.components[entity], kind);
    if |olds| == 1 then
      var prev := Single(olds).value;
      var t := Drop(s, entity, prev);
      assert forall x | x in GetComponents(s, entity) :: x.tag != prev.tag <==> x.kind != kind by {
        forall x | x in GetComponents(s, entity)
          ensures x.tag != prev.tag <==> x.kind != kind
        {
          var b := s.components[entity];
          assert b[x.tag] == x && b[prev.tag] == prev;
        }
      }
      t
    else
      s.(entityHas := s.entityHas[entity := s.entityHas[entity] + {newKind}])
  }

  /** The `UpdateComponents<T>` closure: with one `T` present, remove and
      dispose it; with none, record the new component's kind; then attach and
      `Add` the new component (which throws on a duplicate tag). */
  function CommitUpdateComponent(s: Store, entity: ElementTag, kind: ComponentType, c: Component): (r: Applied)
    requires Valid(s)
    ensures Valid(r.store)
    ensures r.store.entities == s.entities && r.store.flyweights == s.flyweights
    ensures !IsExisted(s, entity) ==> r == Applied(s, Some(KeyNotFound))
    ensures IsExisted(s, entity) && |OfKind(s.components[entity], kind)| > 1 ==> r == Applied(s, Some(Ambiguous))
    ensures IsExisted(s, entity) && |OfKind(s.components[entity], kind)| == 1 ==>
              && r.store.entityHas == s.entityHas
              && GetComponent(s, entity, kind).Ok?
              && GetComponent(s, entity, kind).value !in GetComponents(r.store, entity) - {c.AttachTo(entity)}
              && r.store.disposed == s.disposed + multiset{GetComponent(s, entity, kind).value}
    ensures IsExisted(s, entity) && OfKind(s.components[entity], kind) == {} ==>
              && r.store.entityHas[entity] == s.entityHas[entity] + {c.kind}
              && r.store.disposed == s.disposed
    ensures r.error == None ==> c.AttachTo(entity) in GetComponents(r.store, entity)
    ensures r.error == None && c.kind == kind ==> GetComponent(r.store, entity, kind) == Ok(c.AttachTo(entity))
    ensures IsExisted(s, entity) && |OfKind(s.components[entity], kind)| <= 1 ==>
              var kept := OtherKinds(s, entity, kind);
              && (r.error == None <==> forall x | x in kept :: x.tag != c.tag)
              && (r.error == None ==> GetComponents(r.store, entity) == kept + {c.AttachTo(entity)})
              && (r.error != None ==> r.error == Some(DuplicateKey) && GetComponents(r.store, entity) == kept)
    ensures OthersUnchanged(s, r.store, entity)
    ensures r.store.disposedFlyweights == s.disposedFlyweights
  {
    if entity !in s.entities then Applied(s, Some(KeyNotFound))
    else if |OfKind(s.components[entity], kind)| > 1 then Applied(s, Some(Ambiguous))
    else
      var s1 := ClearKind(s, entity, kind, c.kind);
      TagHeld(s1, entity, c.tag);
      if c.tag in s1.components[entity] then Applied(s1, Some(DuplicateKey))
      else Applied(Insert(s1, entity, c), None)
  }

  /** Removing the one component of `kind` (if any) leaves none of that kind. */
  lemma NoneOfKindLeft(e: ElementTag, b: Bucket, kind: ComponentType)
    requires OwnedBy(e, b) && |OfKind(b, kind)| <= 1
    ensures |OfKind(b, kind)| == 1 ==>
              Single(OfKind(b, kind)).Ok? &&
              OfKind(b - {Single(OfKind(b, kind)).value.tag}, kind) == {} &&
              Single(OfKind(b, kind)).value !in (b - {Single(OfKind(b, kind)).value.tag}).Values
  {
    if |OfKind(b, kind)| == 1 {
      var p := Single(OfKind(b, kind)).value;
      ValuesAfterRemove(e, b, p.tag);
    }
  }

  /** The flyweight `_AddComponent`: join (or create) the membership set, then
      record the kind, which throws for an entity that is not live. */
  function CommitAddFlyweight(s: Store, entity: ElementTag, f: Flyweight): (r: Applied)
    requires Valid(s)
    ensures Valid(r.store)
    ensures f in r.store.flyweights
    ensures r.store.flyweights[f] == (if f in s.flyweights then s.flyweights[f] else {}) + {entity}
    ensures forall g | g != f :: g in r.store.flyweights <==> g in s.flyweights
    ensures forall g | g != f && g in s.flyweights :: r.store.flyweights[g] == s.flyweights[g]
    ensures r.error == None <==> IsExisted(s, entity)
    ensures r.error != None ==> r.error == Some(KeyNotFound) && r.store.entityHas == s.entityHas
    ensures r.error == None ==> r.store.entityHas == s.entityHas[entity := s.entityHas[entity] + {f.kind}]
    ensures r.store.entities == s.entities && r.store.components == s.components
    ensures r.store.disposed == s.disposed && r.store.disposedFlyweights == s.disposedFlyweights
  {
    var members := if f in s.flyweights then s.flyweights[f] + {entity} else {entity};
    var s1 := s.(flyweights := s.flyweights[f := members]);
    if entity !in s.entities then Applied(s1, Some(KeyNotFound))
    else Applied(s1.(entityHas := s.entityHas[entity := s.entityHas[entity] + {f.kind}]), None)
  }

  /** The flyweight `_RemoveComponent`: the registry lookup throws for an
      unregistered flyweight; a member only leaves the set (the instance is
      not disposed, even when the set becomes empty); a non-member release
      disposes the instance at once; the kind is then dropped from the
      entity's kind set, which throws for an entity that is not live. */
  function CommitRemoveFlyweight(s: Store, entity: ElementTag, f: Flyweight): (r: Applied)
    requires Valid(s)
    ensures Valid(r.store)
    ensures f !in s.flyweights ==> r == Applied(s, Some(KeyNotFound))
    ensures f in s.flyweights ==>
              && f in r.store.flyweights
              && r.store.flyweights == s.flyweights[f := s.flyweights[f] - {entity}]
              && r.store.disposedFlyweights ==
                   if entity in s.flyweights[f] then s.disposedFlyweights
                   else s.disposedFlyweights + multiset{f}
    ensures r.error == None <==> f in s.flyweights && IsExisted(s, entity)
    ensures r.error != None ==> r.error == Some(KeyNotFound) && r.store.entityHas == s.entityHas
    ensures r.error == None ==> r.store.entityHas == s.entityHas[entity := s.entityHas[entity] - {f.kind}]
    ensures r.store.entities == s.entities && r.store.components == s.components && r.store.disposed == s.disposed
  {
    if f !in s.flyweights then Applied(s, Some(KeyNotFound))
    else
      var members := s.flyweights[f];
      var s1 := s.(flyweights := s.flyweights[f := members - {entity}],
                   disposedFlyweights := if entity in members then s.disposedFlyweights
                                         else s.disposedFlyweights + multiset{f});
      if entity !in s.entities then Applied(s1, Some(KeyNotFound))
      else Applied(s1.(entityHas := s.entityHas[entity := s.entityHas[entity] - {f.kind}]), None)
  }

  /** Running one queued command. */
  function Apply(s: Store, cmd: Command): (r: Applied)
    requires Valid(s)
    ensures Valid(r.store)
  {
    match cmd
    case CreateEntity(t) => CommitCreateEntity(s, t)
    case RemoveEntity(t) => CommitRemoveEntity(s, t)
    case AddComponent(e, c) => CommitAddComponent(s, e, c)
    case RemoveComponent(e, c) => CommitRemoveComponent(s, e, c)
    case UpdateComponent(e, k, c) => CommitUpdateComponent(s, e, k, c)
    case AddFlyweight(e, f) => CommitAddFlyweight(s, e, f)
    case RemoveFlyweight(e, f) => CommitRemoveFlyweight(s, e, f)
  }

  /** Running a batch in FIFO order; the first command that throws ends it. */
  function ApplyAll(s: Store, cmds: seq<Command>): (r: Applied)
    requires Valid(s)
    ensures Valid(r.store)
    decreases |cmds|
  {
    if cmds == [] then Applied(s, None)
    else
      var a := Apply(s, cmds[0]);
      if a.error.Some? then a else ApplyAll(a.store, cmds[1..])
  }

  /** Every component held in the buckets of `es`. */
  function OwnedIn(m: map<ElementTag, Bucket>, es: set<ElementTag>): (r: set<Component>)
    ensures forall c :: c in r <==> exists e | e in es && e in m :: c in m[e].Values
  {
    set e, c | e in es && e in m && c in m[e].Values :: c
  }

  /** Buckets of different entities never share a component (each one
      records its owner), so the components of a further bucket are new. */
  lemma OwnedInStep(s: Store, done: set<ElementTag>, e: ElementTag)
    requires Valid(s) && e in s.components && e !in done
    ensures OwnedIn(s.components, done + {e}) == OwnedIn(s.components, done) + s.components[e].Values
    ensures OwnedIn(s.components, done) !! s.components[e].Values
  {
  }

  lemma AccumulateDisposed(d0: multiset<Component>, d: multiset<Component>, a: set<Component>, b: set<Component>)
    requires a !! b && d == d0 + multiset(a)
    ensures d + multiset(b) == d0 + multiset(a + b)
  {
  }

  /** `Dispose()` of the manager: every component still held is disposed
      once, then every map is cleared. Flyweights are forgotten without
      being disposed. */
  function DisposeAll(s: Store): (t: Store)
    requires Valid(s)
    ensures Valid(t)
    ensures t.entities == {} && t.flyweights == map[]
    ensures forall e :: GetComponents(t, e) == {}
    ensures forall c :: t.disposed[c] == s.disposed[c] + (if c in GetAllOfKind(s, c.kind) then 1 else 0)
    ensures t.disposedFlyweights == s.disposedFlyweights
  {
    Store({}, map[], map[], map[], s.disposed + multiset(OwnedIn(s.components, s.components.Keys)), s.disposedFlyweights)
  }
}
