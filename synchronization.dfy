/** The deferred command queue that every store mutation goes through
    (`SynchronizationContext<TOwner, TInput>`; its source is not part of this
    model, so it is modelled from how D3DLab.ECS/EntityComponentManager.cs
    uses it). Producers append to `pending`; `BeginSynchronize` moves what is
    pending behind whatever is still staged; the owner then runs `staged` in
    FIFO order (see `EntityComponentManager.EndSynchronize`) and clears it. */
module Synchronization {

  class SyncContext<C> {
    /** Commands requested since the last `BeginSynchronize`. */
    var pending: seq<C>
    /** Commands moved out of `pending`, waiting to be run by the owner. */
    var staged: seq<C>

    constructor ()
      ensures pending == [] && staged == []
    {
      pending := [];
      staged := [];
    }

    /** `Add(action, input)`: one request, at the back. */
    method Add(c: C)
      modifies this
      ensures pending == old(pending) + [c]
      ensures staged == old(staged)
    {
      pending := pending + [c];
    }

    /** `AddRange(action, inputs)`: one request per input, in order. */
    method AddRange(cs: seq<C>)
      modifies this
      ensures pending == old(pending) + cs
      ensures staged == old(staged)
    {
      pending := pending + cs;
    }

    /** `BeginSynchronize()`: what is pending is staged; later requests wait
        for the next cycle. */
    method BeginSynchronize()
      modifies this
      ensures staged == old(staged) + old(pending)
      ensures pending == []
    {
      staged := staged + pending;
      pending := [];
    }

    /** The last step of `EndSynchronize(threadId)`, once the staged
        commands have run (or one of them threw). */
    method ClearStaged()
      modifies this
      ensures staged == []
      ensures pending == old(pending)
    {
      staged := [];
    }

    /** `IsChanged`: some request has not been run yet. */
    function IsChanged(): (r: bool)
      reads this
      ensures r <==> staged + pending != []
    {
      pending != [] || staged != []
    }

    /** `Dispose()`: requests not yet run are dropped. */
    method Dispose()
      modifies this
      ensures pending == [] && staged == []
      ensures !IsChanged()
    {
      pending := [];
      staged := [];
    }
  }
}
