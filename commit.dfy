/** Committing batches of queued commands: a FIFO batch, the fixed
    entity -> component -> flyweight triad that `Synchronize` runs, and what
    sequences of requests do to flyweights and kind sets
    (D3DLab.ECS/EntityComponentManager.cs). */
module Commit {
  import opened Wrappers
  import opened Elements
  import opened ComponentStore

  /** A batch stopped by a command that threw is reported with the state the
      store was left in; the running of commands in order is split at any point. */
  lemma {:induction false} ApplyAllAppend(s: Store, xs: seq<Command>, ys: seq<Command>)
    requires Valid(s)
    ensures ApplyAll(s, xs + ys) ==
              var a := ApplyAll(s, xs);
              if a.error.Some? then a else ApplyAll(a.store, ys)
    decreases |xs|
  {
    if xs == [] {
      assert xs + ys == ys;
    } else {
      assert (xs + ys)[0] == xs[0];
      assert (xs + ys)[1..] == xs[1..] + ys;
      var a := Apply(s, xs[0]);
      if a.error.None? {
        ApplyAllAppend(a.store, xs[1..], ys);
      }
    }
  }

  /** What one `Synchronize`/`FrameSynchronize` commits once each queue's
      pending commands have been staged: the entity batch, then the
      component batch, then the flyweight batch; a throw ends the commit. */
  function CommitTriad(s: Store, entityBatch: seq<Command>, componentBatch: seq<Command>, flyweightBatch: seq<Command>): (r: Applied)
    requires Valid(s)
    ensures Valid(r.store)
  {
    var a := ApplyAll(s, entityBatch);
    if a.error.Some? then a
    else
      var b := ApplyAll(a.store, componentBatch);
      if b.error.Some? then b
      else ApplyAll(b.store, flyweightBatch)
  }

  /** The triad is one FIFO batch with every entity command ahead of every
      component command, and those ahead of every flyweight command,
      whatever order the requests were made in. */
  lemma TriadIsOneOrderedBatch(s: Store, entityBatch: seq<Command>, componentBatch: seq<Command>, flyweightBatch: seq<Command>)
    requires Valid(s)
    ensures CommitTriad(s, entityBatch, componentBatch, flyweightBatch) ==
            ApplyAll(s, entityBatch + componentBatch + flyweightBatch)
  {
    ApplyAllAppend(s, entityBatch + componentBatch, flyweightBatch);
    ApplyAllAppend(s, entityBatch, componentBatch);
    var a := ApplyAll(s, entityBatch);
    if a.error.None? {
      ApplyAllAppend(a.store, componentBatch, flyweightBatch);
    }
  }

  /** A batch of one command is that command. */
  lemma ApplyAllSingle(s: Store, c: Command)
    requires Valid(s)
    ensures ApplyAll(s, [c]) == Apply(s, c)
  {
    assert [c][1..] == [];
  }

  /** A triad with only an entity batch and a component batch. */
  lemma TriadOfTwo(s: Store, e: Command, c: Command)
    requires Valid(s)
    ensures CommitTriad(s, [e], [c], []) ==
              var a := Apply(s, e);
              if a.error.Some? then a else Apply(a.store, c)
  {
    ApplyAllSingle(s, e);
    var a := Apply(s, e);
    if a.error.None? {
      ApplyAllSingle(a.store, c);
    }
  }

  /** An entity created in the same cycle as its component is already live
      when the component is added: one commit makes the component readable. */
  lemma CreatedEntityTakesSameCycleComponent(s: Store, tag: ElementTag, c: Component)
    requires Valid(s) && !IsExisted(s, tag)
    ensures var r := CommitTriad(s, [CreateEntity(tag)], [AddComponent(tag, c)], []);
            && r.error == None
            && IsExisted(r.store, tag)
            && GetComponent(r.store, tag, c.kind) == Ok(c.AttachTo(tag))
            && r.store.entityHas[tag] == {c.kind}
  {
    TriadOfTwo(s, CreateEntity(tag), AddComponent(tag, c));
    AddAfterCreate(s, tag, c);
  }

  /** The two committed closures of `CreatedEntityTakesSameCycleComponent`,
      without the batches around them. */
  lemma AddAfterCreate(s: Store, tag: ElementTag, c: Component)
    requires Valid(s) && !IsExisted(s, tag)
    ensures var a := Apply(s, CreateEntity(tag));
            && a.error == None
            && var b := Apply(a.store, AddComponent(tag, c));
               && b.error == None
               && IsExisted(b.store, tag)
               && GetComponent(b.store, tag, c.kind) == Ok(c.AttachTo(tag))
               && b.store.entityHas[tag] == {c.kind}
  {
    var a := CommitCreateEntity(s, tag);
    assert Apply(s, CreateEntity(tag)) == a;
    assert a.error == None && a.store.components[tag] == map[];
    assert OfKind(a.store.components[tag], c.kind) == {};
    assert Apply(a.store, AddComponent(tag, c)) == CommitAddComponent(a.store, tag, c);
  }

  /** The entity batch runs first, so removing an entity and, in the same
      cycle, one of its components ends the commit with KeyNotFound: the
      component batch finds the entity already gone. */
  lemma SameCycleRemovalAfterEntityRemovalThrows(s: Store, tag: ElementTag, c: Component)
    requires Valid(s) && IsExisted(s, tag)
    ensures var r := CommitTriad(s, [RemoveEntity(tag)], [RemoveComponent(tag, c)], []);
            && r.error == Some(KeyNotFound)
            && !IsExisted(r.store, tag)
            && r.store.disposed == s.disposed + multiset(GetComponents(s, tag))
  {
    TriadOfTwo(s, RemoveEntity(tag), RemoveComponent(tag, c));
  }

  // ---------------------------------------------------------------------
  // Flyweight sharing.
  // ---------------------------------------------------------------------

  /** One flyweight add request per entity, in order. */
  function JoinRequests(es: seq<ElementTag>, f: Flyweight): (r: seq<Command>)
    ensures |r| == |es|
    ensures forall i | 0 <= i < |es| :: r[i] == AddFlyweight(es[i], f)
  {
    if es == [] then [] else [AddFlyweight(es[0], f)] + JoinRequests(es[1..], f)
  }

  /** One flyweight remove request per entity, in order. */
  function ReleaseRequests(es: seq<ElementTag>, f: Flyweight): (r: seq<Command>)
    ensures |r| == |es|
    ensures forall i | 0 <= i < |es| :: r[i] == RemoveFlyweight(es[i], f)
  {
    if es == [] then [] else [RemoveFlyweight(es[0], f)] + ReleaseRequests(es[1..], f)
  }

  function Members(s: Store, f: Flyweight): set<ElementTag> {
    if f in s.flyweights then s.flyweights[f] else {}
  }

  function Elems(es: seq<ElementTag>): set<ElementTag> {
    set e | e in es
  }

  /** Unfolding a batch by its first command. */
  lemma ApplyAllCons(s: Store, c: Command, cs: seq<Command>)
    requires Valid(s)
    ensures ApplyAll(s, [c] + cs) ==
              var a := Apply(s, c);
              if a.error.Some? then a else ApplyAll(a.store, cs)
  {
    assert ([c] + cs)[0] == c;
    assert ([c] + cs)[1..] == cs;
  }

  /** The first request of a join batch by a live entity succeeds, so the
      rest of the batch runs on its result. */
  lemma JoinFirst(s: Store, f: Flyweight, es: seq<ElementTag>)
    requires Valid(s) && es != [] && IsExisted(s, es[0])
    ensures ApplyAll(s, JoinRequests(es, f)) ==
              ApplyAll(CommitAddFlyweight(s, es[0], f).store, JoinRequests(es[1..], f))
    ensures var a := CommitAddFlyweight(s, es[0], f).store;
            && Valid(a) && f in a.flyweights && Members(a, f) == Members(s, f) + {es[0]}
            && a.entities == s.entities && a.disposedFlyweights == s.disposedFlyweights
  {
    assert JoinRequests(es, f) == [AddFlyweight(es[0], f)] + JoinRequests(es[1..], f);
    ApplyAllCons(s, AddFlyweight(es[0], f), JoinRequests(es[1..], f));
  }

  /** Live entities that add the same flyweight all join one registration;
      nothing is disposed. */
  lemma {:induction false} SharedFlyweightJoin(s: Store, f: Flyweight, es: seq<ElementTag>)
    requires Valid(s) && Elems(es) <= s.entities
    ensures var r := ApplyAll(s, JoinRequests(es, f));
            && r.error == None
            && Members(r.store, f) == Members(s, f) + Elems(es)
            && (es != [] ==> f in r.store.flyweights)
            && r.store.entities == s.entities
            && r.store.disposedFlyweights == s.disposedFlyweights
    decreases |es|
  {
    if es == [] {
      assert Elems(es) == {};
    } else {
      ElemsCons(es);
      JoinFirst(s, f, es);
      SharedFlyweightJoin(CommitAddFlyweight(s, es[0], f).store, f, es[1..]);
    }
  }

  lemma TailOfDistinct(es: seq<ElementTag>)
    requires es != [] && Distinct(es)
    ensures Distinct(es[1..]) && es[0] !in Elems(es[1..])
    ensures Elems(es) == {es[0]} + Elems(es[1..])
  {
    ElemsCons(es);
    forall i, j | 0 <= i < j < |es[1..]|
      ensures es[1..][i] != es[1..][j]
    {
      assert es[1..][i] == es[i + 1] && es[1..][j] == es[j + 1];
    }
  }

  lemma ElemsCons(es: seq<ElementTag>)
    requires es != []
    ensures Elems(es) == {es[0]} + Elems(es[1..])
  {
    assert es == [es[0]] + es[1..];
  }

  /** Members that release a flyweight leave its membership set one by one;
      the instance is not disposed, not even when the set becomes empty. */
  lemma {:induction false} SharedFlyweightRelease(s: Store, f: Flyweight, es: seq<ElementTag>)
    requires Valid(s) && f in s.flyweights
    requires Elems(es) <= s.entities && Elems(es) <= s.flyweights[f]
    requires Distinct(es)
    ensures var r := ApplyAll(s, ReleaseRequests(es, f));
            && r.error == None
            && f in r.store.flyweights
            && Members(r.store, f) == Members(s, f) - Elems(es)
            && r.store.entities == s.entities
            && r.store.disposedFlyweights == s.disposedFlyweights
    decreases |es|
  {
    if es == [] {
      assert Elems(es) == {};
    } else {
      TailOfDistinct(es);
      var a := CommitRemoveFlyweight(s, es[0], f);
      var rest := ReleaseRequests(es[1..], f);
      var r := ApplyAll(a.store, rest);
      assert ApplyAll(s, ReleaseRequests(es, f)) == r by {
        assert ReleaseRequests(es, f) == [RemoveFlyweight(es[0], f)] + rest;
        ApplyAllCons(s, RemoveFlyweight(es[0], f), rest);
      }
      assert Valid(a.store) && a.error == None && f in a.store.flyweights;
      assert a.store.entities == s.entities && a.store.disposedFlyweights == s.disposedFlyweights;
      assert a.store.flyweights[f] == s.flyweights[f] - {es[0]};
      assert r.error == None && f in r.store.flyweights && r.store.entities == s.entities
          && r.store.disposedFlyweights == s.disposedFlyweights
          && Members(r.store, f) == Members(a.store, f) - Elems(es[1..]) by {
        SharedFlyweightRelease(a.store, f, es[1..]);
      }
    }
  }

  /** Distinct live entities that share a flyweight and then all release it
      leave it registered with no members and not disposed; the next release,
      by any live entity, is a non-member release and disposes it once. */
  lemma LastReleaseDoesNotDispose(s: Store, f: Flyweight, es: seq<ElementTag>, late: ElementTag)
    requires Valid(s) && f !in s.flyweights && es != []
    requires Elems(es) <= s.entities && Distinct(es)
    requires IsExisted(s, late)
    ensures var r := ApplyAll(s, JoinRequests(es, f) + ReleaseRequests(es, f));
            && r.error == None
            && f in r.store.flyweights && r.store.flyweights[f] == {}
            && r.store.disposedFlyweights == s.disposedFlyweights
    ensures var r := ApplyAll(s, JoinRequests(es, f) + ReleaseRequests(es, f) + [RemoveFlyweight(late, f)]);
            && r.error == None
            && r.store.disposedFlyweights == s.disposedFlyweights + multiset{f}
  {
    var joins := JoinRequests(es, f);
    var releases := ReleaseRequests(es, f);
    var joined := ApplyAll(s, joins);
    SharedFlyweightJoin(s, f, es);
    assert Members(joined.store, f) == Elems(es);
    var released := ApplyAll(joined.store, releases);
    SharedFlyweightRelease(joined.store, f, es);
    ApplyAllAppend(s, joins, releases);
    assert ApplyAll(s, joins + releases) == released;
    assert released.store.flyweights[f] == {} && IsExisted(released.store, late);
    ApplyAllAppend(s, joins + releases, [RemoveFlyweight(late, f)]);
    ApplyAllSingle(released.store, RemoveFlyweight(late, f));
  }

  /** Removing one of two components of the same kind drops the kind from
      the entity's kind set although the other one is still held: the
      kind-set query then disagrees with the bucket. */
  lemma RemovingOneOfTwoDropsKind(s: Store, entity: ElementTag, a: Component, b: Component)
    requires Valid(s) && IsExisted(s, entity)
    requires a in GetComponents(s, entity) && b in GetComponents(s, entity)
    requires a != b && a.kind == b.kind
    ensures CommitRemoveComponent(s, entity, a).error == None
    ensures var t := CommitRemoveComponent(s, entity, a).store;
            && b in GetComponents(t, entity)
            && HasKind(t, entity, a.kind) == Ok(true)
            && HasAll(t, entity, [a.kind]) == Ok(false)
  {
    var bucket := s.components[entity];
    var ka :| ka in bucket && bucket[ka] == a;
    var kb :| kb in bucket && bucket[kb] == b;
    assert b.tag != a.tag;
  }
}
