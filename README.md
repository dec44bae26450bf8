# D3DLab entity/component store — a Dafny model

D3DLab keeps a scene as entities (tags) that own components. The
`EntityComponentManager` does not change its dictionaries when asked. Each
request (create or remove an entity, add, remove or update a component,
join or leave a shared "flyweight" component) goes onto one of three queues:
entity, component and flyweight. A `Synchronize` or `FrameSynchronize` call
stages the queues and then runs the staged commands: the entity batch
first, then the component batch, then the flyweight batch. Reads see only
what was committed. Beside the store, an `EntityOrderContainer` hands out
per-system order indices to entities. A `GraphicEntity` handle forwards to
the store and to the order container. `PolylineGameObject.Create` uses all
of this to request a line-list entity.

The model has two layers:

- **Pure layer.** `ComponentStore` holds the committed state as a value
  (`Store`). Every queued closure is a function `Commit…` that returns the
  new store and the exception it threw (`Applied`). A .NET exception keeps
  whatever changes were made before the throw. `Commit` proves facts about
  whole batches.
- **Imperative layer.** `EntityComponentManager`, `SyncContext`,
  `EntityOrderContainer` and `GraphicEntity` are classes with the source's
  fields. Each state-changing method is proved to leave the state that the
  pure function computes from the old state.

Modules, one per file:

| file | module | models |
|---|---|---|
| `wrappers.dfy` | `Wrappers` | `Option`, `Result` |
| `elements.dfy` | `Elements` | tags, component kinds, components, flyweights, exceptions |
| `component_store.dfy` | `ComponentStore` | committed state, reads, the committed closures, `Dispose` |
| `commit.dfy` | `Commit` | batches, the entity → component → flyweight order, flyweight sharing |
| `synchronization.dfy` | `Synchronization` | the request queue `SynchronizationContext` |
| `entity_order.dfy` | `EntityOrder` | `EntityOrderContainer` |
| `entity_component_manager.dfy` | `EntityComponentManagement` | `EntityComponentManager`, `GraphicEntity` |
| `polyline.dfy` | `PolylineGameObjects` | `PolylineGameObject.Create` |

## Model

| member | source | states |
|---|---|---|
| Elements.Component.AttachTo | D3DLab.ECS/EntityComponentManager.cs:230 | an attached component keeps its tag, kind and payload; its `EntityTag` is the entity |
| ComponentStore.OfKind | D3DLab.ECS/EntityComponentManager.cs:125 | `OfType<T>` keeps exactly the bucket's components of that runtime kind |
| ComponentStore.Single | D3DLab.ECS/EntityComponentManager.cs:122 | `Single()` succeeds exactly on a one-element collection and returns that element; it fails with "no element" on none and "more than one" on several |
| ComponentStore.IsExisted | D3DLab.ECS/EntityComponentManager.cs:72-74 | a tag is live in a valid store exactly when both its bucket and its kind set exist, so their lookups do not throw |
| ComponentStore.GetComponent | D3DLab.ECS/EntityComponentManager.cs:121-123 | an unknown tag throws; success exactly when the bucket holds one component of the kind, and that one is returned; none and several give the two `Single` errors |
| ComponentStore.GetComponentsOfKind | D3DLab.ECS/EntityComponentManager.cs:124-126 | an unknown tag throws; otherwise exactly the entity's components of the kind |
| ComponentStore.GetComponents | D3DLab.ECS/EntityComponentManager.cs:127-132 | an unknown tag gives an empty result; otherwise exactly the bucket's components |
| ComponentStore.GetAllOfKind | D3DLab.ECS/EntityComponentManager.cs:133-135 | exactly the components of the kind held by any entity |
| ComponentStore.TryGet | D3DLab.ECS/EntityComponentManager.cs:137-148 | an unknown tag throws; "not found" exactly when the entity has no component of the kind; otherwise the result of `Single` |
| ComponentStore.TryGetBoth | D3DLab.ECS/EntityComponentManager.cs:149-154 | true exactly when both `TryGet` lookups find one; `c1` is the first lookup's result; the second lookup is skipped (and `c2` is empty) when the first finds none; a throw from either lookup propagates with that lookup's own error; when the first finds one, `c2` is the second lookup's result |
| ComponentStore.HasKind | D3DLab.ECS/EntityComponentManager.cs:157-159 | an unknown tag throws key-not-found; true exactly when some held component has the kind |
| ComponentStore.HasAll | D3DLab.ECS/EntityComponentManager.cs:160-162 | true exactly when every listed kind is in the entity's kind set; an empty list is true even for an unknown tag, and a non-empty list on an unknown tag throws key-not-found |
| ComponentStore.GetComponentsOfKinds | D3DLab.ECS/EntityComponentManager.cs:163-166 | an unknown tag throws key-not-found; otherwise exactly the components whose kind is listed |
| ComponentStore.CommitCreateEntity | D3DLab.ECS/EntityComponentManager.cs:18-23 | a live tag throws "duplicate key" and nothing changes; otherwise the tag becomes live with an empty bucket and an empty kind set, and no other entity changes |
| ComponentStore.CommitRemoveEntity | D3DLab.ECS/EntityComponentManager.cs:29-44 | a tag that is not live is a no-op; a live tag is erased from the live set, the buckets and the kind sets, and every component it held is disposed once; flyweights and other entities are unchanged |
| ComponentStore.Insert | D3DLab.ECS/EntityComponentManager.cs:230-231 | the bucket gains exactly the attached component; when no component of its kind was there, `GetComponent` of that kind now returns it |
| ComponentStore.CommitAddComponent | D3DLab.ECS/EntityComponentManager.cs:229-234 | an unknown entity throws "key not found" and a tag already in the bucket throws "duplicate key", each with nothing changed; otherwise the attached component is added and its kind recorded |
| ComponentStore.Drop | D3DLab.ECS/EntityComponentManager.cs:182-183 | the bucket loses exactly the components with that tag, and the component is disposed |
| ComponentStore.RemoveOwned | D3DLab.ECS/EntityComponentManager.cs:235-240 | the component leaves the bucket and is disposed; its kind leaves the kind set even when another component of that kind remains |
| ComponentStore.CommitRemoveComponent | D3DLab.ECS/EntityComponentManager.cs:103-105 | an unknown entity throws with nothing changed; otherwise the removal described for `RemoveOwned` |
| ComponentStore.CommitUpdateComponent | D3DLab.ECS/EntityComponentManager.cs:177-194 | unknown entity: throws; several of the kind: `Single` throws, nothing changed; one of the kind: it is removed and disposed and the kind set is untouched; none: the new component's kind is recorded; the entity's components of other kinds stay; then the final `Add` throws "duplicate key" exactly when one of them has the new component's tag, leaving just those; otherwise the bucket is those plus the attached new component, and `GetComponent` of the kind returns it; the entity set, the flyweights and the disposed-flyweight record never change |
| ComponentStore.ClearKind | D3DLab.ECS/EntityComponentManager.cs:179-188 | with at most one component of the kind, afterwards the bucket holds exactly the components of other kinds; the one of the kind (if any) is disposed, and with none the new component's kind is recorded |
| ComponentStore.NoneOfKindLeft | D3DLab.ECS/EntityComponentManager.cs:179-182 | removing the single component of a kind leaves no component of that kind in the bucket |
| ComponentStore.CommitAddFlyweight | D3DLab.ECS/EntityComponentManager.cs:210-219 | the entity joins the flyweight's member set, which is created as a singleton if the flyweight is new; other flyweights are unchanged; the kind is then recorded, and an unknown entity throws after the registry has changed |
| ComponentStore.CommitRemoveFlyweight | D3DLab.ECS/EntityComponentManager.cs:220-227 | an unregistered flyweight throws with nothing changed; a member only leaves the set (no dispose, even when the set empties); a non-member disposes the flyweight; then the kind leaves the kind set, and an unknown entity throws |
| ComponentStore.Apply | D3DLab.ECS/EntityComponentManager.cs:269-271 | every committed closure keeps the store invariant |
| ComponentStore.ApplyAll | D3DLab.ECS/EntityComponentManager.cs:269-271 | a batch run in FIFO order, stopping at the first throw, keeps the store invariant |
| ComponentStore.DisposeAll | D3DLab.ECS/EntityComponentManager.cs:294-304 | every held component is disposed exactly once more; nothing is left live or registered; flyweights are dropped without being disposed |
| Commit.ApplyAllAppend | D3DLab.ECS/EntityComponentManager.cs:269-271 | running `xs + ys` is running `xs`, then `ys` on its result unless `xs` threw |
| Commit.CommitTriad | D3DLab.ECS/EntityComponentManager.cs:269-271 | the entity, component and flyweight batches run in that order, and a throw ends the commit |
| Commit.TriadIsOneOrderedBatch | D3DLab.ECS/EntityComponentManager.cs:262-272 | a commit is one FIFO batch with every entity command first, then every component command, then every flyweight command, whatever order the requests were made in |
| Commit.CreatedEntityTakesSameCycleComponent | D3DLab.ECS/EntityComponentManager.cs:262-272 | a component requested for an entity created in the same cycle is committed onto it, even if the component was requested first |
| Commit.SameCycleRemovalAfterEntityRemovalThrows | D3DLab.ECS/EntityComponentManager.cs:269-270 | removing a component in the cycle that removes its entity throws "key not found", because the entity batch runs first |
| Commit.SharedFlyweightJoin | D3DLab.ECS/EntityComponentManager.cs:210-215 | live entities joining one flyweight all become members; nothing is disposed and nothing throws |
| Commit.SharedFlyweightRelease | D3DLab.ECS/EntityComponentManager.cs:220-224 | distinct members releasing a flyweight leave its member set one by one; nothing is disposed and nothing throws |
| Commit.LastReleaseDoesNotDispose | D3DLab.ECS/EntityComponentManager.cs:220-224 | after all members joined and released, the flyweight is still registered with no members and undisposed; one more release by a live non-member disposes it exactly once |
| Commit.RemovingOneOfTwoDropsKind | D3DLab.ECS/EntityComponentManager.cs:235-237 | removing one of two components of a kind leaves the other in the bucket, so `Has<T>` stays true, yet `Has(tag, types)` for that kind becomes false |
| Synchronization.SyncContext.constructor | D3DLab.ECS/EntityComponentManager.cs:257-259 | a new queue holds nothing |
| Synchronization.SyncContext.Add | D3DLab.ECS/EntityComponentManager.cs:95-97 | one request joins the back of the pending list; the staged list is untouched |
| Synchronization.SyncContext.AddRange | D3DLab.ECS/EntityComponentManager.cs:90-92 | the requests join the back in order |
| Synchronization.SyncContext.IsChanged | D3DLab.ECS/EntityComponentManager.cs:246 | true exactly when some request is staged or pending, not yet run |
| Synchronization.SyncContext.BeginSynchronize | D3DLab.ECS/EntityComponentManager.cs:265-267 | the pending requests are staged behind the ones already staged, and nothing is left pending |
| Synchronization.SyncContext.ClearStaged | D3DLab.ECS/EntityComponentManager.cs:269-271 | after a run the staged list is empty; pending requests stay |
| Synchronization.SyncContext.Dispose | D3DLab.ECS/EntityComponentManager.cs:306-308 | the queue drops everything and is no longer changed |
| EntityOrder.Inc32 | D3DLab.Std.Engine.Core/GraphicEntity.cs:103 | unchecked `+ 1`: one more below `int.MaxValue`, and wraps to `int.MinValue` at it |
| EntityOrder.Increment | D3DLab.Std.Engine.Core/GraphicEntity.cs:99-106 | a system type's first increment yields 0 and each later one the previous value plus one; the value is stored and returned; no other counter or index changes |
| EntityOrder.Get | D3DLab.Std.Engine.Core/GraphicEntity.cs:91-97 | a tag with no registration gives `int.MaxValue`; a tag registered for the system gives its stored index (which may itself be `int.MaxValue`); a tag registered for other systems only gives "key not found" |
| EntityOrder.RegisterAt | D3DLab.Std.Engine.Core/GraphicEntity.cs:62-75 | a second registration of the same tag and system throws and changes nothing; otherwise the pair is registered, `Get` returns the given index, the system's counter still advances, and other tags and systems keep their indices |
| EntityOrder.Register | D3DLab.Std.Engine.Core/GraphicEntity.cs:77-89 | the counter always advances; a first registration registers the pair and stores the new counter value as its index, with other entries kept; a second one throws after the counter has advanced |
| EntityOrder.RegisterKeepsOtherTags | D3DLab.Std.Engine.Core/GraphicEntity.cs:77-89 | a first auto-registration of one tag stores the new counter value for it, and every other tag's lookup and registration for that system stay as they were |
| EntityOrder.RegisterEachNumbersInOrder | D3DLab.Std.Engine.Core/GraphicEntity.cs:77-106 | auto-registering n distinct new tags for a new system numbers them 0 … n-1 in order, and the counter ends at n-1 |
| EntityOrder.RegisterEachKeepsOtherCounters | D3DLab.Std.Engine.Core/GraphicEntity.cs:99-106 | registrations for one system type leave every other type's counter as it was |
| EntityOrder.EntityOrderContainer.constructor | D3DLab.Std.Engine.Core/GraphicEntity.cs:58-61 | both dictionaries start empty |
| EntityOrder.EntityOrderContainer.IncrementSystemOrderIndex | D3DLab.Std.Engine.Core/GraphicEntity.cs:99-106 | the container's state and result are those of `Increment` |
| EntityOrder.EntityOrderContainer.RegisterOrderAt | D3DLab.Std.Engine.Core/GraphicEntity.cs:62-75 | the container's state and exception are those of `RegisterAt` |
| EntityOrder.EntityOrderContainer.RegisterOrder | D3DLab.Std.Engine.Core/GraphicEntity.cs:77-89 | the container's state and exception are those of `Register` |
| EntityComponentManagement.AddRequests | D3DLab.ECS/EntityComponentManager.cs:89-93 | one add request per component, in order |
| EntityComponentManagement.RemoveRequests | D3DLab.ECS/EntityComponentManager.cs:114-118 | one remove request per component, in order |
| EntityComponentManagement.EntityComponentManager.constructor | D3DLab.ECS/EntityComponentManager.cs:254-260 | an empty valid store, three new empty queues, the given order container, and a filter that accepts every tag |
| EntityComponentManagement.EntityComponentManager.CreateEntity | D3DLab.ECS/EntityComponentManager.cs:15-26 | a handle for the tag is returned at once; only a create request is queued, and nothing is committed |
| EntityComponentManagement.EntityComponentManager.RemoveEntity | D3DLab.ECS/EntityComponentManager.cs:28-45 | only a remove request is queued |
| EntityComponentManagement.EntityComponentManager.AddComponent | D3DLab.ECS/EntityComponentManager.cs:94-99 | only an add request is queued; the component is returned |
| EntityComponentManagement.EntityComponentManager.AddComponents | D3DLab.ECS/EntityComponentManager.cs:89-93 | one add request per component, in order; nothing is committed |
| EntityComponentManagement.EntityComponentManager.RemoveComponent | D3DLab.ECS/EntityComponentManager.cs:102-106 | only a remove request is queued |
| EntityComponentManagement.EntityComponentManager.RemoveComponents | D3DLab.ECS/EntityComponentManager.cs:114-118 | one remove request per component, in order |
| EntityComponentManagement.EntityComponentManager.RemoveComponentsOfKind | D3DLab.ECS/EntityComponentManager.cs:107-113 | an entity that is not live throws and nothing is queued; otherwise exactly one remove request is queued for each component of the kind it holds now, and nothing else |
| EntityComponentManagement.EntityComponentManager.UpdateComponents | D3DLab.ECS/EntityComponentManager.cs:176-195 | only an update request is queued |
| EntityComponentManagement.EntityComponentManager.AddFlyweight | D3DLab.ECS/EntityComponentManager.cs:197-202 | only a flyweight add request is queued, on the flyweight queue |
| EntityComponentManagement.EntityComponentManager.RemoveFlyweight | D3DLab.ECS/EntityComponentManager.cs:204-208 | only a flyweight remove request is queued |
| EntityComponentManagement.EntityComponentManager.GetOrCreateComponent | D3DLab.ECS/EntityComponentManager.cs:167-174 | an entity that is not live throws; with components of the kind, the `GetComponent` result (so several throw); with none, an add of `newone` is queued and `newone` returned |
| EntityComponentManagement.EntityComponentManager.SetFilter | D3DLab.ECS/EntityComponentManager.cs:68-70 | the filter is replaced |
| EntityComponentManagement.EntityComponentManager.GetEntities | D3DLab.ECS/EntityComponentManager.cs:47-49 | exactly the live tags the filter accepts |
| EntityComponentManagement.EntityComponentManager.FindEntities | D3DLab.ECS/EntityComponentManager.cs:57-66 | exactly the live tags the predicate accepts |
| EntityComponentManagement.EntityComponentManager.GetEntity | D3DLab.ECS/EntityComponentManager.cs:50-56 | a new handle for the tag exactly when it is live; the empty handle otherwise |
| EntityComponentManagement.EntityComponentManager.HasChanges | D3DLab.ECS/EntityComponentManager.cs:244-248 | true exactly when the entity or component queue holds a request, or a frame change was pushed; the flyweight queue is not read |
| EntityComponentManagement.EntityComponentManager.ApplyCreateEntity | D3DLab.ECS/EntityComponentManager.cs:18-23 | the new state and exception are those of `CommitCreateEntity` |
| EntityComponentManagement.EntityComponentManager.RemoveOwnedNow | D3DLab.ECS/EntityComponentManager.cs:235-240 | the component's tag leaves the bucket, its kind leaves the kind set, it is disposed, and the store invariant is kept |
| EntityComponentManagement.EntityComponentManager.RemoveAllOwned | D3DLab.ECS/EntityComponentManager.cs:35-37 | removing a live entity's components one at a time leaves its bucket empty, takes the kind of every removed component out of its kind set, disposes each held component exactly once and touches no other entity |
| EntityComponentManagement.EntityComponentManager.ApplyRemoveEntity | D3DLab.ECS/EntityComponentManager.cs:29-44 | the new state is that of `CommitRemoveEntity` |
| EntityComponentManagement.EntityComponentManager.ApplyAddComponent | D3DLab.ECS/EntityComponentManager.cs:229-234 | the new state and exception are those of `CommitAddComponent` |
| EntityComponentManagement.EntityComponentManager.ApplyRemoveComponent | D3DLab.ECS/EntityComponentManager.cs:103-105 | the new state and exception are those of `CommitRemoveComponent` |
| EntityComponentManagement.EntityComponentManager.ApplyUpdateComponent | D3DLab.ECS/EntityComponentManager.cs:177-194 | the new state and exception are those of `CommitUpdateComponent` |
| EntityComponentManagement.EntityComponentManager.ApplyAddFlyweight | D3DLab.ECS/EntityComponentManager.cs:210-219 | the new state and exception are those of `CommitAddFlyweight` |
| EntityComponentManagement.EntityComponentManager.ApplyRemoveFlyweight | D3DLab.ECS/EntityComponentManager.cs:220-227 | the new state and exception are those of `CommitRemoveFlyweight` |
| EntityComponentManagement.EntityComponentManager.ApplyCommand | D3DLab.ECS/EntityComponentManager.cs:269-271 | running one queued closure gives the state and exception of `Apply` |
| EntityComponentManagement.EntityComponentManager.EndSynchronize | D3DLab.ECS/EntityComponentManager.cs:269-271 | the staged commands run in FIFO order until one throws, as `ApplyAll` says; the staged list is then empty and pending requests stay |
| EntityComponentManagement.EntityComponentManager.SynchronizeQueues | D3DLab.ECS/EntityComponentManager.cs:265-271 | the committed state is the triad over each queue's staged-then-pending requests; after a throw, the batches that did not run stay staged |
| EntityComponentManagement.EntityComponentManager.Synchronize | D3DLab.ECS/EntityComponentManager.cs:262-272 | the frame-change flag is reset and every queued request is committed in triad order; afterwards the entity queue and every pending list are empty, and the component and flyweight batches stay staged exactly when an earlier batch threw, so after a clean run nothing is left to do |
| EntityComponentManagement.EntityComponentManager.FrameSynchronize | D3DLab.ECS/EntityComponentManager.cs:276-288 | the flag becomes what `HasChanges` was before the call; requests are committed as in `Synchronize`, leaving the queues in the same state as there; after a clean commit `HasChanges` holds exactly when it held before the call |
| EntityComponentManagement.EntityComponentManager.PushSynchronization | D3DLab.ECS/EntityComponentManager.cs:290-292 | the flag is set, so `HasChanges` holds |
| EntityComponentManagement.EntityComponentManager.DisposeHeld | D3DLab.ECS/EntityComponentManager.cs:295-299 | every component held in any bucket is disposed exactly once |
| EntityComponentManagement.EntityComponentManager.Dispose | D3DLab.ECS/EntityComponentManager.cs:294-309 | the committed state becomes `DisposeAll` of the old one, and every queue is emptied |
| EntityComponentManagement.GraphicEntity.constructor | D3DLab.Std.Engine.Core/GraphicEntity.cs:11-16 | the handle holds the given tag, store and order container |
| EntityComponentManagement.GraphicEntity.GetComponent | D3DLab.Std.Engine.Core/GraphicEntity.cs:18-20 | a handle whose entity is not live throws; for a live entity it succeeds exactly when the entity holds one component of the kind, which is returned; none and several give the two `Single` errors |
| EntityComponentManagement.GraphicEntity.GetComponentsOfKind | D3DLab.Std.Engine.Core/GraphicEntity.cs:21-23 | throws key-not-found exactly when the entity is not live; otherwise exactly its components of the kind |
| EntityComponentManagement.GraphicEntity.GetComponents | D3DLab.Std.Engine.Core/GraphicEntity.cs:42-44 | empty for a handle whose entity is gone; for a live entity exactly its bucket; every returned component names this entity |
| EntityComponentManagement.GraphicEntity.Has | D3DLab.Std.Engine.Core/GraphicEntity.cs:39-41 | throws key-not-found exactly when the entity is not live; true exactly when it holds a component of the kind |
| EntityComponentManagement.GraphicEntity.GetOrderIndex | D3DLab.Std.Engine.Core/GraphicEntity.cs:46-49 | the container's `Get` for this handle's tag: `int.MaxValue` when the tag is unregistered, the stored index when the system is registered for it, and "key not found" otherwise |
| EntityComponentManagement.GraphicEntity.AddComponent | D3DLab.Std.Engine.Core/GraphicEntity.cs:25-28 | an add request carrying the handle's own tag is queued, and the same handle is returned |
| EntityComponentManagement.GraphicEntity.RemoveComponent | D3DLab.Std.Engine.Core/GraphicEntity.cs:29-31 | a remove request carrying the handle's own tag is queued |
| EntityComponentManagement.GraphicEntity.RemoveComponentsOfType | D3DLab.Std.Engine.Core/GraphicEntity.cs:32-36 | one remove request per component of the kind the entity now holds, and nothing else; an entity that is not live throws |
| PolylineGameObjects.PairIndicesShape | D3DLab.Wpf.Engine.App/GameObjects/PolylineGameObject.cs:19-22 | the index list for n points has length 2n, and position j holds j / 2 |
| PolylineGameObjects.PairIndicesPairs | D3DLab.Wpf.Engine.App/GameObjects/PolylineGameObject.cs:20-21 | for every i < n, positions 2i and 2i + 1 both hold i |
| PolylineGameObjects.PairIndicesSorted | D3DLab.Wpf.Engine.App/GameObjects/PolylineGameObject.cs:19-22 | the index list never decreases |
| PolylineGameObjects.GeometryComponent | D3DLab.Wpf.Engine.App/GameObjects/PolylineGameObject.cs:23-27 | a geometry component whose positions and colors are the given sequences, unchanged and in order, and whose index list is the pair list `PairIndices` of the point count (2 indices per point, point `i` at positions `2i` and `2i + 1`) |
| PolylineGameObjects.LineListComponent | D3DLab.Wpf.Engine.App/GameObjects/PolylineGameObject.cs:31 | a new, unattached line-list render component with the given tag |
| PolylineGameObjects.TransformComponent | D3DLab.Wpf.Engine.App/GameObjects/PolylineGameObject.cs:32 | a new, unattached transform component with the given tag |
| PolylineGameObjects.Create | D3DLab.Wpf.Engine.App/GameObjects/PolylineGameObject.cs:17-37 | exactly one entity request, for the given tag; exactly three component requests for that tag, in order geometry (pair index list), line-list render, transform; the returned object carries the tag |

## Left out

- `IManagerChangeNotify` (the `NotifyAdd`/`NotifyRemove` callbacks) is not modelled. A component's `Dispose()` is recorded as one more entry in the `disposed` multiset; its body is not modelled.
- The source of `SynchronizationContext` is not part of this model. The model assumes that `BeginSynchronize` stages the pending requests behind those already staged, and that `EndSynchronize` runs the staged requests in order, stops at the first exception and clears the staged list. It also assumes `IsChanged` means "a request is pending or staged" and that `Dispose` drops everything. Its locking is not modelled, and the thread id is passed along unused.
- Exceptions are values: a committed closure that throws returns its error together with the partial state. The model does not let the exception propagate out of `Synchronize`; the batches that did not run stay staged, as `SynchronizeQueues` states.
- The frame loop (`DefaultEngine`, `EngineCore`), `CameraBuilder`, the WPF scene and application classes, and the `IEntityManager`/`IComponentManager` interfaces are not part of this model.
- The type hierarchy is left out: `OfType<T>`, `is T` and `GetType()` are modelled as equality on one runtime kind, so a query for a base type or an interface is not modelled.
- Flyweights are keyed by value, while the source keys the registry by the instance's reference identity.
- Dictionary and hash-set enumeration order is not modelled: buckets and results are sets. So the order of the remove requests from `RemoveComponents<T>` and `RemoveComponentsOfType<TCom>` is left unspecified.
- Filters and predicates are total functions of the tag. `GetEntity(Func<GraphicEntity, bool>)` is modelled with a predicate over the handle's tag (`FindEntities`).
- The empty handle `GraphicEntity.Empty()` is `None`. The chaining result of `RegisterOrder` (the container itself) is not returned.
- `GraphicEntity.RemoveComponentsOfType` calls the manager's `RemoveComponents<T>`, which queues the same requests. The handle's own loop over the lazily evaluated `GetComponents<TCom>` is not repeated, since `RemoveComponent` only queues.
- The tags of the components that `PolylineGameObject.Create` constructs are chosen by their constructors; in the model they are parameters. The `Vector3`/`Vector4` contents are carried, never computed with.
- Counts and indices other than the order counters are unbounded integers; only the order counters are 32-bit, with wrap-around.
- Components are values, not shared objects. In the C# code `EntityTag` is written on the caller's own instance (`EntityComponentManager.cs:190`, `:230`), even before an `Add` that then throws. One instance added to two entities is one object in both buckets, and it reports the last entity as its owner. The model stores a separate attached copy per entity, and `AddComponent` returns the unattached value. So the model does not capture this aliasing: `Dispose` disposing that shared object twice, and `RemoveComponent` on one entity disposing the object the other still holds.
- `disposed` counts values: `RemoveOwned` records the value passed to it, while `DisposeAll` and `CommitRemoveEntity` record the attached values held in the buckets. With objects, both would be the same instance.
- `GetEntities`, `GetComponents<T>(tag)` and `GetComponents(tag, types)` return lazy views in the C# code, which later commits change as they are enumerated. The model returns a snapshot of the committed state.

### Behaviours of the C# code worth knowing

- The last member to release a flyweight does not dispose it (`EntityComponentManager.cs:220-224`). Only a release by a non-member disposes it (`Commit.LastReleaseDoesNotDispose`).
- The entity batch is committed before the component batch (`EntityComponentManager.cs:269-271`). So removing a component in the cycle that removes its entity throws (`Commit.SameCycleRemovalAfterEntityRemovalThrows`), and adding a component to an entity created in the same cycle succeeds even when it was requested first (`Commit.CreatedEntityTakesSameCycleComponent`).
- Removing an entity does not touch flyweight memberships (`EntityComponentManager.cs:29-44`).
- Removing a component drops its kind from the kind set even when another component of that kind remains (`EntityComponentManager.cs:237`, `Commit.RemovingOneOfTwoDropsKind`).
