/** The entity/component store (D3DLab.ECS/EntityComponentManager.cs) and
    the entity handle (D3DLab.Std.Engine.Core/GraphicEntity.cs). Every
    mutation is only requested at the call; it reaches the dictionaries when
    `Synchronize` or `FrameSynchronize` runs the queued commands. */
module EntityComponentManagement {
  import opened Wrappers
  import opened Elements
  import opened ComponentStore
  import opened Commit
  import opened Synchronization
  import EntityOrder

  /** One add request per component, in the given order (`AddComponents`). */
  function AddRequests(entity: ElementTag, cs: seq<Component>): (r: seq<Command>)
    ensures |r| == |cs|
    ensures forall i | 0 <= i < |cs| :: r[i] == Command.AddComponent(entity, cs[i])
  {
    seq(|cs|, i requires 0 <= i < |cs| => Command.AddComponent(entity, cs[i]))
  }

  /** One remove request per component, in the given order (`RemoveComponents`). */
  function RemoveRequests(entity: ElementTag, cs: seq<Component>): (r: seq<Command>)
    ensures |r| == |cs|
    ensures forall i | 0 <= i < |cs| :: r[i] == Command.RemoveComponent(entity, cs[i])
  {
    seq(|cs|, i requires 0 <= i < |cs| => Command.RemoveComponent(entity, cs[i]))
  }

  /** The part of bucket `b` whose components are still in `owned`: what
      the removal loop of `RemoveEntity` has not reached yet. */
  function Remaining(b: Bucket, owned: set<Component>): Bucket {
    map k | k in b && b[k] in owned :: b[k]
  }

  lemma RemainingAll(b: Bucket)
    ensures Remaining(b, b.Values) == b
    ensures Remaining(b, {}) == map[]
  {
  }

  /** Removing one owned component by its tag is removing it from `owned`. */
  lemma RemainingStep(e: ElementTag, b: Bucket, owned: set<Component>, c: Component)
    requires OwnedBy(e, b) && owned <= b.Values && c in owned
    ensures Remaining(b, owned) - {c.tag} == Remaining(b, owned - {c})
  {
    forall k | k in b && b[k] in owned
      ensures k != c.tag <==> b[k] != c
    {
      assert b[k].tag == k;
    }
  }

  /** The kinds of a set of components. */
  function Kinds(cs: set<Component>): set<ComponentType> {
    set x | x in cs :: x.kind
  }

  /** The kinds of the removed components grow by the next one's kind. */
  lemma KindsStep(all: set<Component>, owned: set<Component>, c: Component)
    requires owned <= all && c in owned
    ensures Kinds(all - (owned - {c})) == Kinds(all - owned) + {c.kind}
  {
    assert all - (owned - {c}) == (all - owned) + {c};
  }

  /** One turn of the removal loop of `RemoveEntity`, on the maps:
      removing `c` by its tag, dropping its kind and recording its disposal
      is moving it from `owned` to the removed part. */
  lemma RemovalStep(comps: map<ElementTag, Bucket>, has: map<ElementTag, set<ComponentType>>,
                  d: multiset<Component>, tag: ElementTag, b: Bucket, has0: set<ComponentType>,
                  owned: set<Component>, c: Component)
    requires OwnedBy(tag, b) && owned <= b.Values && c in owned
    ensures comps[tag := Remaining(b, owned)][tag := Remaining(b, owned) - {c.tag}]
              == comps[tag := Remaining(b, owned - {c})]
    ensures has[tag := has0 - Kinds(b.Values - owned)][tag := has0 - Kinds(b.Values - owned) - {c.kind}]
              == has[tag := has0 - Kinds(b.Values - (owned - {c}))]
    ensures d + multiset(b.Values - owned) + multiset{c} == d + multiset(b.Values - (owned - {c}))
  {
    RemainingStep(tag, b, owned, c);
    KindsStep(b.Values, owned, c);
    var k := Kinds(b.Values - owned);
    assert has0 - k - {c.kind} == has0 - (k + {c.kind});
    assert b.Values - (owned - {c}) == (b.Values - owned) + {c};
  }

  class EntityComponentManager {
    var entities: set<ElementTag>
    /** `predicate`, the filter `GetEntities` applies. */
    var filter: ElementTag -> bool
    var entityHas: map<ElementTag, set<ComponentType>>
    var components: map<ElementTag, Bucket>
    var flyweightComponents: map<Flyweight, set<ElementTag>>
    /** Every `Dispose()` call made on an owned component, and on a flyweight. */
    var disposed: multiset<Component>
    var disposedFlyweights: multiset<Flyweight>
    var frameChanges: bool

    const orderContainer: EntityOrder.EntityOrderContainer
    const entitySynchronizer: SyncContext<Command>
    const comSynchronizer: SyncContext<Command>
    const flyweightComSynchronizer: SyncContext<Command>

    /** The committed dictionaries, as one value. */
    function Committed(): Store
      reads this
    {
      Store(entities, components, entityHas, flyweightComponents, disposed, disposedFlyweights)
    }

    /** The store invariant, and three separate queues. */
    predicate Valid()
      reads this
    {
      && ComponentStore.Valid(Committed())
      && entitySynchronizer != comSynchronizer
      && entitySynchronizer != flyweightComSynchronizer
      && comSynchronizer != flyweightComSynchronizer
    }

    /** The constructor (the change-notify sink is not modelled). */
    constructor (orderContainer: EntityOrder.EntityOrderContainer)
      ensures Valid()
      ensures Committed() == EmptyStore && !frameChanges
      ensures this.orderContainer == orderContainer
      ensures fresh(entitySynchronizer) && fresh(comSynchronizer) && fresh(flyweightComSynchronizer)
      ensures entitySynchronizer.pending == [] && entitySynchronizer.staged == []
      ensures comSynchronizer.pending == [] && comSynchronizer.staged == []
      ensures flyweightComSynchronizer.pending == [] && flyweightComSynchronizer.staged == []
      ensures forall t :: filter(t)
    {
      this.orderContainer := orderContainer;
      entities := {};
      filter := t => true;
      entityHas := map[];
      components := map[];
      flyweightComponents := map[];
      disposed := multiset{};
      disposedFlyweights := multiset{};
      frameChanges := false;
      entitySynchronizer := new SyncContext();
      comSynchronizer := new SyncContext();
      flyweightComSynchronizer := new SyncContext();
      new;
      EmptyStoreValid();
    }

    // ---- requests: only the queues change -------------------------------

    /** `CreateEntity(tag)`: a handle at once, the entity at the next commit. */
    method CreateEntity(tag: ElementTag) returns (en: GraphicEntity)
      requires Valid()
      modifies entitySynchronizer
      ensures entitySynchronizer.pending == old(entitySynchronizer.pending) + [Command.CreateEntity(tag)]
      ensures entitySynchronizer.staged == old(entitySynchronizer.staged)
      ensures fresh(en) && en.tag == tag && en.manager == this && en.order == orderContainer
      ensures Committed() == old(Committed())
    {
      en := new GraphicEntity(tag, this, orderContainer);
      entitySynchronizer.Add(Command.CreateEntity(tag));
    }

    /** `RemoveEntity(tag)`. */
    method RemoveEntity(tag: ElementTag)
      requires Valid()
      modifies entitySynchronizer
      ensures entitySynchronizer.pending == old(entitySynchronizer.pending) + [Command.RemoveEntity(tag)]
      ensures entitySynchronizer.staged == old(entitySynchronizer.staged)
      ensures Committed() == old(Committed())
    {
      entitySynchronizer.Add(Command.RemoveEntity(tag));
    }

    /** `AddComponent(tag, com)`; the component is handed back. */
    method AddComponent(entity: ElementTag, c: Component) returns (r: Component)
      requires Valid()
      modifies comSynchronizer
      ensures comSynchronizer.pending == old(comSynchronizer.pending) + [Command.AddComponent(entity, c)]
      ensures comSynchronizer.staged == old(comSynchronizer.staged)
      ensures r == c
      ensures Committed() == old(Committed())
    {
      comSynchronizer.Add(Command.AddComponent(entity, c));
      r := c;
    }

    /** `AddComponents(tag, coms)`. */
    method AddComponents(entity: ElementTag, cs: seq<Component>)
      requires Valid()
      modifies comSynchronizer
      ensures comSynchronizer.pending == old(comSynchronizer.pending) + AddRequests(entity, cs)
      ensures comSynchronizer.staged == old(comSynchronizer.staged)
      ensures Committed() == old(Committed())
    {
      comSynchronizer.AddRange(AddRequests(entity, cs));
    }

    /** `RemoveComponent(tag, com)`. */
    method RemoveComponent(entity: ElementTag, c: Component)
      requires Valid()
      modifies comSynchronizer
      ensures comSynchronizer.pending == old(comSynchronizer.pending) + [Command.RemoveComponent(entity, c)]
      ensures comSynchronizer.staged == old(comSynchronizer.staged)
      ensures Committed() == old(Committed())
    {
      comSynchronizer.Add(Command.RemoveComponent(entity, c));
    }

    /** `RemoveComponents(tag, params coms)`. */
    method RemoveComponents(entity: ElementTag, cs: seq<Component>)
      requires Valid()
      modifies comSynchronizer
      ensures comSynchronizer.pending == old(comSynchronizer.pending) + RemoveRequests(entity, cs)
      ensures comSynchronizer.staged == old(comSynchronizer.staged)
      ensures Committed() == old(Committed())
    {
      comSynchronizer.AddRange(RemoveRequests(entity, cs));
    }

    /** `RemoveComponents<T>(tag)`: one remove request per component of the
        kind the entity holds now (a snapshot, in no particular order); the
        bucket lookup throws for an entity that is not live. */
    method RemoveComponentsOfKind(entity: ElementTag, kind: ComponentType) returns (err: Option<Error>)
      requires Valid()
      modifies comSynchronizer
      ensures comSynchronizer.staged == old(comSynchronizer.staged)
      ensures !IsExisted(Committed(), entity) ==>
                err == Some(KeyNotFound) && comSynchronizer.pending == old(comSynchronizer.pending)
      ensures IsExisted(Committed(), entity) ==>
                var n := |old(comSynchronizer.pending)|;
                var targets := OfKind(components[entity], kind);
                && err == None
                && |comSynchronizer.pending| == n + |targets|
                && comSynchronizer.pending[..n] == old(comSynchronizer.pending)
                && (forall x | x in comSynchronizer.pending[n..] ::
                      x.RemoveComponent? && x.entity == entity && x.component in targets)
                && (forall c | c in targets :: Command.RemoveComponent(entity, c) in comSynchronizer.pending[n..])
    {
      if entity !in components {
        return Some(KeyNotFound);
      }
      var targets := OfKind(components[entity], kind);
      var todo := targets;
      ghost var start := comSynchronizer.pending;
      ghost var added: seq<Command> := [];
      while todo != {}
        invariant todo <= targets
        invariant comSynchronizer.staged == old(comSynchronizer.staged)
        invariant comSynchronizer.pending == start + added
        invariant |added| == |targets - todo|
        invariant forall x | x in added :: x.RemoveComponent? && x.entity == entity && x.component in targets - todo
        invariant forall c | c in targets - todo :: Command.RemoveComponent(entity, c) in added
        decreases todo
      {
        var c :| c in todo;
        comSynchronizer.Add(Command.RemoveComponent(entity, c));
        assert targets - (todo - {c}) == (targets - todo) + {c};
        added := added + [Command.RemoveComponent(entity, c)];
        todo := todo - {c};
      }
      assert comSynchronizer.pending[|start|..] == added;
      err := None;
    }

    /** `UpdateComponents<T>(tag, newComponent)`. */
    method UpdateComponents(entity: ElementTag, kind: ComponentType, c: Component)
      requires Valid()
      modifies comSynchronizer
      ensures comSynchronizer.pending == old(comSynchronizer.pending) + [Command.UpdateComponent(entity, kind, c)]
      ensures comSynchronizer.staged == old(comSynchronizer.staged)
      ensures Committed() == old(Committed())
    {
      comSynchronizer.Add(Command.UpdateComponent(entity, kind, c));
    }

    /** `AddComponent(tag, IFlyweightGraphicComponent)`. */
    method AddFlyweight(entity: ElementTag, f: Flyweight) returns (r: Flyweight)
      requires Valid()
      modifies flyweightComSynchronizer
      ensures flyweightComSynchronizer.pending == old(flyweightComSynchronizer.pending) + [Command.AddFlyweight(entity, f)]
      ensures flyweightComSynchronizer.staged == old(flyweightComSynchronizer.staged)
      ensures r == f
      ensures Committed() == old(Committed())
    {
      flyweightComSynchronizer.Add(Command.AddFlyweight(entity, f));
      r := f;
    }

    /** `RemoveComponent(tag, IFlyweightGraphicComponent)`. */
    method RemoveFlyweight(entity: ElementTag, f: Flyweight)
      requires Valid()
      modifies flyweightComSynchronizer
      ensures flyweightComSynchronizer.pending == old(flyweightComSynchronizer.pending) + [Command.RemoveFlyweight(entity, f)]
      ensures flyweightComSynchronizer.staged == old(flyweightComSynchronizer.staged)
      ensures Committed() == old(Committed())
    {
      flyweightComSynchronizer.Add(Command.RemoveFlyweight(entity, f));
    }

    /** `GetOrCreateComponent<T>(tag, newone)`: the one component of the
        kind if there is one (two or more make `Single` throw); otherwise an
        add of `newone` is requested and `newone` is returned. Two calls in
        one cycle both request an add. */
    method GetOrCreateComponent(entity: ElementTag, kind: ComponentType, newone: Component) returns (r: Result<Component, Error>)
      requires Valid()
      modifies comSynchronizer
      ensures comSynchronizer.staged == old(comSynchronizer.staged)
      ensures !IsExisted(Committed(), entity) ==>
                r == Err(KeyNotFound) && comSynchronizer.pending == old(comSynchronizer.pending)
      ensures IsExisted(Committed(), entity) && OfKind(components[entity], kind) != {} ==>
                r == GetComponent(Committed(), entity, kind) && comSynchronizer.pending == old(comSynchronizer.pending)
      ensures IsExisted(Committed(), entity) && OfKind(components[entity], kind) == {} ==>
                r == Ok(newone) && comSynchronizer.pending == old(comSynchronizer.pending) + [Command.AddComponent(entity, newone)]
    {
      if entity !in components {
        return Err(KeyNotFound);
      }
      var any := OfKind(components[entity], kind);
      if any != {} {
        return Single(any);
      }
      var _ := AddComponent(entity, newone);
      r := Ok(newone);
    }

    // ---- reads of the committed state ------------------------------------

    /** `SetFilter(predicate)`. */
    method SetFilter(p: ElementTag -> bool)
      modifies this`filter
      ensures filter == p
    {
      filter := p;
    }

    /** `GetEntities()`: the live tags the filter lets through. */
    function GetEntities(): (r: set<ElementTag>)
      reads this
      ensures forall t :: t in r <==> IsExisted(Committed(), t) && filter(t)
    {
      set t | t in entities && filter(t)
    }

    /** `GetEntity(Func<GraphicEntity, bool>)`: the live tags whose handle
        the predicate accepts. */
    function FindEntities(p: ElementTag -> bool): (r: set<ElementTag>)
      reads this
      ensures r <= entities
      ensures forall t | IsExisted(Committed(), t) :: t in r <==> p(t)
    {
      set t | t in entities && p(t)
    }

    /** `GetEntity(tag)`: a handle for a live tag; the empty handle is `None`. */
    method GetEntity(tag: ElementTag) returns (r: Option<GraphicEntity>)
      ensures r.Some? <==> IsExisted(Committed(), tag)
      ensures r.Some? ==> fresh(r.value) && r.value.tag == tag && r.value.manager == this && r.value.order == orderContainer
    {
      if tag !in entities {
        return None;
      }
      var en := new GraphicEntity(tag, this, orderContainer);
      r := Some(en);
    }

    /** `HasChanges`: requested entity or component work, or a pushed frame
        change. The flyweight queue is not consulted (it is not in the reads
        clause). */
    function HasChanges(): (r: bool)
      reads this, entitySynchronizer, comSynchronizer
      ensures r <==> || entitySynchronizer.pending != [] || entitySynchronizer.staged != []
                     || comSynchronizer.pending != [] || comSynchronizer.staged != []
                     || frameChanges
    {
      entitySynchronizer.IsChanged() || comSynchronizer.IsChanged() || frameChanges
    }

    // ---- the committed closures --------------------------------------------

    /** The `CreateEntity` closure. */
    method ApplyCreateEntity(tag: ElementTag) returns (err: Option<Error>)
      requires Valid()
      modifies this`entities, this`components, this`entityHas
      ensures Valid()
      ensures Applied(Committed(), err) == CommitCreateEntity(old(Committed()), tag)
    {
      entities := entities + {tag};
      if tag in components {
        return Some(DuplicateKey);
      }
      components := components[tag := map[]];
      entityHas := entityHas[tag := {}];
      err := None;
    }

    /** `_RemoveComponent(tag, IGraphicComponent)` on an entity that has a
        bucket: the component's tag leaves the bucket, its kind leaves the kind set and
        the instance is disposed. */
    method RemoveOwnedNow(entity: ElementTag, c: Component)
      requires entity in components && entity in entityHas
      modifies this`components, this`entityHas, this`disposed
      ensures old(Valid()) ==> Valid()
      ensures components == old(components)[entity := old(components)[entity] - {c.tag}]
      ensures entityHas == old(entityHas)[entity := old(entityHas)[entity] - {c.kind}]
      ensures disposed == old(disposed) + multiset{c}
    {
      components := components[entity := components[entity] - {c.tag}];
      entityHas := entityHas[entity := entityHas[entity] - {c.kind}];
      disposed := disposed + multiset{c};
    }

    /** The loop of the `RemoveEntity` closure: every component the live
        entity holds is removed with `_RemoveComponent`, one at a time, so
        each is disposed once. */
    method RemoveAllOwned(tag: ElementTag)
      requires tag in components && tag in entityHas && OwnedBy(tag, components[tag])
      modifies this`components, this`entityHas, this`disposed
      ensures tag in components && tag in entityHas
      ensures components - {tag} == old(components) - {tag}
      ensures entityHas - {tag} == old(entityHas) - {tag}
      ensures components[tag] == map[]
      ensures entityHas[tag] == old(entityHas)[tag] - Kinds(old(components)[tag].Values)
      ensures disposed == old(disposed) + multiset(old(components)[tag].Values)
    {
      ghost var comps0, has0, disposed0 := components, entityHas, disposed;
      ghost var b0 := components[tag];
      var owned := components[tag].Values;
      RemainingAll(b0);
      assert Kinds(b0.Values - owned) == {};
      assert has0[tag] - {} == has0[tag];
      while owned != {}
        invariant owned <= b0.Values
        invariant components == comps0[tag := Remaining(b0, owned)]
        invariant entityHas == has0[tag := has0[tag] - Kinds(b0.Values - owned)]
        invariant disposed == disposed0 + multiset(b0.Values - owned)
        decreases owned
      {
        var c :| c in owned;
        RemovalStep(comps0, has0, disposed0, tag, b0, has0[tag], owned, c);
        RemoveOwnedNow(tag, c);
        owned := owned - {c};
      }
      assert b0.Values - owned == b0.Values;
      assert components[tag] == map[] by {
        assert components[tag].Keys == {};
      }
    }

    /** The `RemoveEntity` closure: a no-op for a tag that is not live;
        otherwise the owned components go first, then the tag is erased
        from the live set, the buckets and the kind sets. */
    method ApplyRemoveEntity(tag: ElementTag) returns (err: Option<Error>)
      requires Valid()
      modifies this`entities, this`components, this`entityHas, this`disposed
      ensures Valid()
      ensures Applied(Committed(), err) == CommitRemoveEntity(old(Committed()), tag)
    {
      err := None;
      if tag !in entities {
        return;
      }
      RemoveAllOwned(tag);
      entities := entities - {tag};
      components := components - {tag};
      entityHas := entityHas - {tag};
    }

    /** The `AddComponent` closure (`_AddComponent`). */
    method ApplyAddComponent(entity: ElementTag, c: Component) returns (err: Option<Error>)
      requires Valid()
      modifies this`components, this`entityHas
      ensures Valid()
      ensures Applied(Committed(), err) == CommitAddComponent(old(Committed()), entity, c)
    {
      if entity !in components {
        return Some(KeyNotFound);
      }
      var attached := c.AttachTo(entity);
      if c.tag in components[entity] {
        return Some(DuplicateKey);
      }
      components := components[entity := components[entity][c.tag := attached]];
      entityHas := entityHas[entity := entityHas[entity] + {c.kind}];
      err := None;
    }

    /** The `RemoveComponent` closure. */
    method ApplyRemoveComponent(entity: ElementTag, c: Component) returns (err: Option<Error>)
      requires Valid()
      modifies this`components, this`entityHas, this`disposed
      ensures Valid()
      ensures Applied(Committed(), err) == CommitRemoveComponent(old(Committed()), entity, c)
    {
      if entity !in components {
        return Some(KeyNotFound);
      }
      RemoveOwnedNow(entity, c);
      err := None;
    }

    /** The `UpdateComponents` closure. */
    method ApplyUpdateComponent(entity: ElementTag, kind: ComponentType, c: Component) returns (err: Option<Error>)
      requires Valid()
      modifies this`components, this`entityHas, this`disposed
      ensures Valid()
      ensures Applied(Committed(), err) == CommitUpdateComponent(old(Committed()), entity, kind, c)
    {
      if entity !in components {
        return Some(KeyNotFound);
      }
      ghost var s0 := Committed();
      var any := OfKind(components[entity], kind);
      if any != {} {
        var single := Single(any);
        if single.Err? {
          return Some(single.error);
        }
        var prev := single.value;
        components := components[entity := components[entity] - {prev.tag}];
        disposed := disposed + multiset{prev};
        assert Committed() == Drop(s0, entity, prev);
      } else {
        entityHas := entityHas[entity := entityHas[entity] + {c.kind}];
      }
      ghost var s1 := Committed();
      assert s1 == ClearKind(s0, entity, kind, c.kind);
      if c.tag in components[entity] {
        return Some(DuplicateKey);
      }
      components := components[entity := components[entity][c.tag := c.AttachTo(entity)]];
      assert Committed() == Insert(s1, entity, c);
      err := None;
    }

    /** The flyweight `_AddComponent`. */
    method ApplyAddFlyweight(entity: ElementTag, f: Flyweight) returns (err: Option<Error>)
      requires Valid()
      modifies this`flyweightComponents, this`entityHas
      ensures Valid()
      ensures Applied(Committed(), err) == CommitAddFlyweight(old(Committed()), entity, f)
    {
      if f in flyweightComponents {
        flyweightComponents := flyweightComponents[f := flyweightComponents[f] + {entity}];
      } else {
        flyweightComponents := flyweightComponents[f := {entity}];
      }
      if entity !in entityHas {
        return Some(KeyNotFound);
      }
      entityHas := entityHas[entity := entityHas[entity] + {f.kind}];
      err := None;
    }

    /** The flyweight `_RemoveComponent`. */
    method ApplyRemoveFlyweight(entity: ElementTag, f: Flyweight) returns (err: Option<Error>)
      requires Valid()
      modifies this`flyweightComponents, this`entityHas, this`disposedFlyweights
      ensures Valid()
      ensures Applied(Committed(), err) == CommitRemoveFlyweight(old(Committed()), entity, f)
    {
      if f !in flyweightComponents {
        return Some(KeyNotFound);
      }
      var wasMember := entity in flyweightComponents[f];
      flyweightComponents := flyweightComponents[f := flyweightComponents[f] - {entity}];
      if !wasMember {
        disposedFlyweights := disposedFlyweights + multiset{f};
      }
      if entity !in entityHas {
        return Some(KeyNotFound);
      }
      entityHas := entityHas[entity := entityHas[entity] - {f.kind}];
      err := None;
    }

    /** Running one queued closure. */
    method ApplyCommand(cmd: Command) returns (err: Option<Error>)
      requires Valid()
      modifies this`entities, this`components, this`entityHas, this`flyweightComponents, this`disposed, this`disposedFlyweights
      ensures Valid()
      ensures Applied(Committed(), err) == Apply(old(Committed()), cmd)
    {
      match cmd
      case CreateEntity(t) => err := ApplyCreateEntity(t);
      case RemoveEntity(t) => err := ApplyRemoveEntity(t);
      case AddComponent(e, c) => err := ApplyAddComponent(e, c);
      case RemoveComponent(e, c) => err := ApplyRemoveComponent(e, c);
      case UpdateComponent(e, k, c) => err := ApplyUpdateComponent(e, k, c);
      case AddFlyweight(e, f) => err := ApplyAddFlyweight(e, f);
      case RemoveFlyweight(e, f) => err := ApplyRemoveFlyweight(e, f);
    }

    // ---- synchronization -------------------------------------------------

    /** `ctx.EndSynchronize(threadId)`: the staged commands run in FIFO
        order until one throws; the staged list is cleared either way. The
        thread id is only passed along. */
    method EndSynchronize(ctx: SyncContext<Command>, threadId: int) returns (err: Option<Error>)
      requires Valid()
      modifies this`entities, this`components, this`entityHas, this`flyweightComponents, this`disposed, this`disposedFlyweights, ctx
      ensures Valid()
      ensures Applied(Committed(), err) == ApplyAll(old(Committed()), old(ctx.staged))
      ensures ctx.staged == [] && ctx.pending == old(ctx.pending)
    {
      var cmds := ctx.staged;
      var i := 0;
      err := None;
      while i < |cmds| && err.None?
        invariant 0 <= i <= |cmds|
        invariant Valid()
        invariant ctx.staged == cmds && ctx.pending == old(ctx.pending)
        invariant err.None? ==> ApplyAll(Committed(), cmds[i..]) == ApplyAll(old(Committed()), cmds)
        invariant err.Some? ==> Applied(Committed(), err) == ApplyAll(old(Committed()), cmds)
        decreases |cmds| - i
      {
        ghost var prev := Committed();
        assert cmds[i..][0] == cmds[i] && cmds[i..][1..] == cmds[i + 1..];
        err := ApplyCommand(cmds[i]);
        i := i + 1;
      }
      ctx.ClearStaged();
    }

    /** The begin/end sequence shared by `Synchronize` and
        `FrameSynchronize`: flyweight, component and entity queues are
        staged; then the entity, component and flyweight batches run, and a
        throw leaves the later batches staged. */
    method SynchronizeQueues(threadId: int) returns (err: Option<Error>)
      requires Valid()
      modifies this`entities, this`components, this`entityHas, this`flyweightComponents, this`disposed, this`disposedFlyweights
      modifies entitySynchronizer, comSynchronizer, flyweightComSynchronizer
      ensures Valid()
      ensures var ent := old(entitySynchronizer.staged + entitySynchronizer.pending);
              var com := old(comSynchronizer.staged + comSynchronizer.pending);
              var fly := old(flyweightComSynchronizer.staged + flyweightComSynchronizer.pending);
              var a := ApplyAll(old(Committed()), ent);
              && Applied(Committed(), err) == CommitTriad(old(Committed()), ent, com, fly)
              && comSynchronizer.staged == (if a.error.Some? then com else [])
              && flyweightComSynchronizer.staged ==
                   (if a.error.Some? || ApplyAll(a.store, com).error.Some? then fly else [])
      ensures entitySynchronizer.pending == [] && entitySynchronizer.staged == []
      ensures comSynchronizer.pending == [] && flyweightComSynchronizer.pending == []
    {
      flyweightComSynchronizer.BeginSynchronize();
      comSynchronizer.BeginSynchronize();
      entitySynchronizer.BeginSynchronize();
      err := EndSynchronize(entitySynchronizer, threadId);
      if err.Some? {
        return;
      }
      err := EndSynchronize(comSynchronizer, threadId);
      if err.Some? {
        return;
      }
      err := EndSynchronize(flyweightComSynchronizer, threadId);
    }

    /** `Synchronize(threadId)`: the frame-change flag is reset, then every
        queue is committed. */
    method Synchronize(threadId: int) returns (err: Option<Error>)
      requires Valid()
      modifies this, entitySynchronizer, comSynchronizer, flyweightComSynchronizer
      ensures Valid() && !frameChanges && filter == old(filter)
      ensures var ent := old(entitySynchronizer.staged + entitySynchronizer.pending);
              var com := old(comSynchronizer.staged + comSynchronizer.pending);
              var fly := old(flyweightComSynchronizer.staged + flyweightComSynchronizer.pending);
              var a := ApplyAll(old(Committed()), ent);
              && Applied(Committed(), err) == CommitTriad(old(Committed()), ent, com, fly)
              && comSynchronizer.staged == (if a.error.Some? then com else [])
              && flyweightComSynchronizer.staged ==
                   (if a.error.Some? || ApplyAll(a.store, com).error.Some? then fly else [])
      ensures entitySynchronizer.pending == [] && entitySynchronizer.staged == []
      ensures comSynchronizer.pending == [] && flyweightComSynchronizer.pending == []
      ensures err.None? ==> !HasChanges() && !flyweightComSynchronizer.IsChanged()
    {
      frameChanges := false;
      err := SynchronizeQueues(threadId);
    }

    /** `FrameSynchronize(threadId)`: the flag remembers that this frame had
        work (it is set once and never reset here), then every queue is
        committed. */
    method FrameSynchronize(threadId: int) returns (err: Option<Error>)
      requires Valid()
      modifies this, entitySynchronizer, comSynchronizer, flyweightComSynchronizer
      ensures Valid() && filter == old(filter)
      ensures frameChanges == old(HasChanges())
      ensures var ent := old(entitySynchronizer.staged + entitySynchronizer.pending);
              var com := old(comSynchronizer.staged + comSynchronizer.pending);
              var fly := old(flyweightComSynchronizer.staged + flyweightComSynchronizer.pending);
              var a := ApplyAll(old(Committed()), ent);
              && Applied(Committed(), err) == CommitTriad(old(Committed()), ent, com, fly)
              && comSynchronizer.staged == (if a.error.Some? then com else [])
              && flyweightComSynchronizer.staged ==
                   (if a.error.Some? || ApplyAll(a.store, com).error.Some? then fly else [])
      ensures entitySynchronizer.pending == [] && entitySynchronizer.staged == []
      ensures comSynchronizer.pending == [] && flyweightComSynchronizer.pending == []
      ensures err.None? ==> (HasChanges() <==> old(HasChanges()))
    {
      if !frameChanges {
        frameChanges := HasChanges();
      }
      err := SynchronizeQueues(threadId);
    }

    /** `PushSynchronization()`. */
    method PushSynchronization()
      modifies this`frameChanges
      ensures frameChanges
      ensures HasChanges()
    {
      frameChanges := true;
    }

    /** The nested loops of `Dispose()`: one `Dispose()` call per held
        component, bucket by bucket. */
    method DisposeHeld()
      requires Valid()
      modifies this`disposed
      ensures disposed == old(disposed) + multiset(OwnedIn(components, components.Keys))
    {
      ghost var s0 := Committed();
      var todo := components.Keys;
      ghost var done: set<ElementTag> := {};
      ghost var held: set<Component> := {};
      while todo != {}
        invariant todo !! done && todo + done == components.Keys
        invariant held == OwnedIn(components, done)
        invariant disposed == old(disposed) + multiset(held)
        decreases todo
      {
        var e :| e in todo;
        OwnedInStep(s0, done, e);
        AccumulateDisposed(old(disposed), disposed, held, components[e].Values);
        disposed := disposed + multiset(components[e].Values);
        held := held + components[e].Values;
        todo := todo - {e};
        done := done + {e};
      }
      assert done == components.Keys;
    }

    /** `Dispose()`: every held component is disposed once; the maps are
        cleared (flyweights are dropped undisposed) and the queues discard
        their requests. */
    method Dispose()
      requires Valid()
      modifies this`entities, this`components, this`entityHas, this`flyweightComponents, this`disposed
      modifies entitySynchronizer, comSynchronizer, flyweightComSynchronizer
      ensures Valid()
      ensures Committed() == DisposeAll(old(Committed()))
      ensures !entitySynchronizer.IsChanged() && !comSynchronizer.IsChanged() && !flyweightComSynchronizer.IsChanged()
    {
      DisposeHeld();
      components := map[];
      entities := {};
      flyweightComponents := map[];
      entityHas := map[];
      entitySynchronizer.Dispose();
      comSynchronizer.Dispose();
      flyweightComSynchronizer.Dispose();
    }
  }

  /** A handle on one entity: its tag plus the store and the order index
      every call forwards to. */
  class GraphicEntity {
    const tag: ElementTag
    const manager: EntityComponentManager
    const order: EntityOrder.EntityOrderContainer

    constructor (tag: ElementTag, manager: EntityComponentManager, order: EntityOrder.EntityOrderContainer)
      ensures this.tag == tag && this.manager == manager && this.order == order
    {
      this.tag := tag;
      this.manager := manager;
      this.order := order;
    }

    /** `GetComponent<T>()`: the entity's one component of the kind; a
        handle whose entity is not live throws `KeyNotFound`. */
    function GetComponent(kind: ComponentType): (r: Result<Component, Error>)
      reads manager
      requires manager.Valid()
      ensures !IsExisted(manager.Committed(), tag) ==> r == Err(KeyNotFound)
      ensures r.Ok? ==> r.value in GetComponents() && r.value.kind == kind
      ensures r.Ok? ==> forall c | c in GetComponents() && c.kind == kind :: c == r.value
      ensures IsExisted(manager.Committed(), tag) ==>
                var mine := set c | c in GetComponents() && c.kind == kind;
                && (r.Ok? <==> |mine| == 1)
                && (mine == {} ==> r == Err(NoMatch))
                && (|mine| > 1 ==> r == Err(Ambiguous))
    {
      ComponentStore.GetComponent(manager.Committed(), tag, kind)
    }

    /** `GetComponents<T>()`. */
    function GetComponentsOfKind(kind: ComponentType): (r: Result<set<Component>, Error>)
      reads manager
      requires manager.Valid()
      ensures r.Err? <==> !IsExisted(manager.Committed(), tag)
      ensures r.Err? ==> r.error == KeyNotFound
      ensures r.Ok? ==> forall c :: c in r.value <==> c in GetComponents() && c.kind == kind
    {
      ComponentStore.GetComponentsOfKind(manager.Committed(), tag, kind)
    }

    /** `GetComponents()`: everything the entity holds; nothing for a handle
        whose entity is gone. */
    function GetComponents(): (r: set<Component>)
      reads manager
      requires manager.Valid()
      ensures !IsExisted(manager.Committed(), tag) ==> r == {}
      ensures IsExisted(manager.Committed(), tag) ==> r == manager.Committed().components[tag].Values
      ensures forall c | c in r :: c.entityTag == Some(tag)
    {
      ComponentStore.GetComponents(manager.Committed(), tag)
    }

    /** `Has<T>()`. */
    function Has(kind: ComponentType): (r: Result<bool, Error>)
      reads manager
      requires manager.Valid()
      ensures r.Err? <==> !IsExisted(manager.Committed(), tag)
      ensures r.Err? ==> r.error == KeyNotFound
      ensures r == Ok(true) <==> exists c | c in GetComponents() :: c.kind == kind
    {
      HasKind(manager.Committed(), tag, kind)
    }

    /** `GetOrderIndex<TSys>()`: this entity's index in the order container. */
    function GetOrderIndex(t: SystemType): (r: Result<EntityOrder.Int32, Error>)
      reads order
      ensures tag !in order.componentOrderIndex ==> r == Ok(EntityOrder.IntMax)
      ensures EntityOrder.HasOrder(order.State(), tag, t) ==> r == Ok(order.componentOrderIndex[tag][t])
      ensures tag in order.componentOrderIndex && !EntityOrder.HasOrder(order.State(), tag, t) ==> r == Err(KeyNotFound)
    {
      EntityOrder.Get(order.State(), tag, t)
    }

    /** `AddComponent<T>(component)`: the request carries this handle's tag;
        the same handle is returned for chaining. */
    method AddComponent(c: Component) returns (r: GraphicEntity)
      requires manager.Valid()
      modifies manager.comSynchronizer
      ensures manager.comSynchronizer.pending == old(manager.comSynchronizer.pending) + [Command.AddComponent(tag, c)]
      ensures manager.comSynchronizer.staged == old(manager.comSynchronizer.staged)
      ensures r == this
    {
      var _ := manager.AddComponent(tag, c);
      r := this;
    }

    /** `RemoveComponent(component)`. */
    method RemoveComponent(c: Component)
      requires manager.Valid()
      modifies manager.comSynchronizer
      ensures manager.comSynchronizer.pending == old(manager.comSynchronizer.pending) + [Command.RemoveComponent(tag, c)]
      ensures manager.comSynchronizer.staged == old(manager.comSynchronizer.staged)
    {
      manager.RemoveComponent(tag, c);
    }

    /** `RemoveComponentsOfType<TCom>()`: one remove request per component of
        the kind. The handle's loop queues the same requests as the store's
        `RemoveComponents<T>`, so it is delegated to that. */
    method RemoveComponentsOfType(kind: ComponentType) returns (err: Option<Error>)
      requires manager.Valid()
      modifies manager.comSynchronizer
      ensures manager.comSynchronizer.staged == old(manager.comSynchronizer.staged)
      ensures !IsExisted(manager.Committed(), tag) ==>
                err == Some(KeyNotFound) && manager.comSynchronizer.pending == old(manager.comSynchronizer.pending)
      ensures IsExisted(manager.Committed(), tag) ==>
                var n := |old(manager.comSynchronizer.pending)|;
                var targets := OfKind(manager.components[tag], kind);
                && err == None
                && |manager.comSynchronizer.pending| == n + |targets|
                && manager.comSynchronizer.pending[..n] == old(manager.comSynchronizer.pending)
                && (forall x | x in manager.comSynchronizer.pending[n..] ::
                      x.RemoveComponent? && x.entity == tag && x.component in targets)
                && (forall c | c in targets :: Command.RemoveComponent(tag, c) in manager.comSynchronizer.pending[n..])
    {
      err := manager.RemoveComponentsOfKind(tag, kind);
    }
  }
}
