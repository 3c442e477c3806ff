/** The dispatcher as its loop thread sees it: the two vectors of objects to delete later, the list
    of posted callbacks, and the code that runs them. Callbacks and destructors re-enter the
    dispatcher, so each carries the calls that it makes. */
module DispatcherModule {
  import opened Bytes

  datatype Action =
    | CallPost(callback: Task)
    | CallDeferredDelete(target: Option<Task>)
    | CallClear

  /** A posted callback or a deletable object; `script` is what running it, or destroying it, does. */
  datatype Task = Task(name: nat, script: seq<Action>)

  class Dispatcher {
    var postCallbacks: seq<Task>
    var postArmed: bool
    var toDelete1: seq<Task>
    var toDelete2: seq<Task>
    var currentIsFirst: bool
    var deferredDeleting: bool
    var deleteArmed: bool

    // Every non-null object submitted for deletion, every object told that its deletion is pending,
    // and every object destroyed, in order; `dying` is what is left of the vector being cleared.
    // Likewise for callbacks, `batch` being the list that `runPostCallbacks` moved out.
    ghost var submitted: seq<Task>
    ghost var notified: seq<Task>
    ghost var deleted: seq<Task>
    ghost var dying: seq<Task>
    ghost var posted: seq<Task>
    ghost var executed: seq<Task>
    ghost var batch: seq<Task>
    // The event has been disarmed and its callback is about to take the list, or the vector.
    ghost var takePending: bool
    ghost var clearPending: bool

    function Current(): seq<Task>
      reads this
    {
      if currentIsFirst then toDelete1 else toDelete2
    }

    function Other(): seq<Task>
      reads this
    {
      if currentIsFirst then toDelete2 else toDelete1
    }

    /** Exactly once and in order of submission, for deletions and for callbacks; the vector that is
        not current is empty except during a clear; whatever waits has its event armed. */
    ghost predicate Valid()
      reads this
    {
      deleted + dying + Current() == submitted && notified == submitted &&
      (if deferredDeleting then !clearPending else dying == [] && Other() == []) &&
      (Current() != [] ==> deleteArmed || clearPending) &&
      executed + batch + postCallbacks == posted &&
      (postCallbacks != [] ==> postArmed || takePending)
    }

    /** What a call made from inside a callback or a destructor may do to the rest: it only adds
        submissions and posts, and leaves the lists being worked on alone. */
    twostate predicate Reentered()
      reads this
    {
      takePending == old(takePending) && (clearPending ==> old(clearPending)) &&
      deferredDeleting == old(deferredDeleting) &&
      batch == old(batch) && executed == old(executed) &&
      old(posted) <= posted && old(submitted) <= submitted && old(deleted) <= deleted &&
      (old(deferredDeleting) ==>
         dying == old(dying) && deleted == old(deleted) && Other() == old(Other()) &&
         currentIsFirst == old(currentIsFirst))
    }

    constructor ()
      ensures Valid() && !deferredDeleting && !takePending && !clearPending && submitted == [] && posted == []
    {
      postCallbacks, postArmed := [], false;
      toDelete1, toDelete2, currentIsFirst := [], [], true;
      deferredDeleting, deleteArmed := false, false;
      submitted, notified, deleted, dying := [], [], [], [];
      posted, executed, batch := [], [], [];
      takePending, clearPending := false, false;
    }

    method Post(callback: Task)
      requires Valid()
      modifies this
      ensures Valid() && Reentered()
      ensures posted == old(posted) + [callback] && submitted == old(submitted) && deleted == old(deleted)
      ensures Current() == old(Current())
    {
      var doPost := postCallbacks == [];
      Associative(executed + batch, postCallbacks, [callback]);
      postCallbacks := postCallbacks + [callback];
      posted := posted + [callback];
      if doPost {
        postArmed := true;
      }
    }

    method DeferredDelete(target: Option<Task>)
      requires Valid()
      modifies this
      ensures Valid() && Reentered()
      ensures target.None? ==> submitted == old(submitted) && Current() == old(Current())
      ensures target.Some? ==> submitted == old(submitted) + [target.value]
      ensures target.Some? ==> Current() == old(Current()) + [target.value]
      ensures posted == old(posted) && deleted == old(deleted)
    {
      if target.Some? {
        notified := notified + [target.value];
        Associative(deleted + dying, Current(), [target.value]);
        if currentIsFirst {
          toDelete1 := toDelete1 + [target.value];
        } else {
          toDelete2 := toDelete2 + [target.value];
        }
        submitted := submitted + [target.value];
        var size := if currentIsFirst then |toDelete1| else |toDelete2|;
        if size == 1 {
          deleteArmed := true;
        }
      }
    }

    /** Makes the other vector the current one, so that what is submitted from now on goes there. */
    method BeginClear() returns (toDelete: seq<Task>)
      requires Valid() && !deferredDeleting
      modifies this`currentIsFirst, this`deferredDeleting, this`dying, this`clearPending
      ensures Valid() && deferredDeleting && toDelete == dying == Other() == old(Current()) && Current() == []
    {
      toDelete := if currentIsFirst then toDelete1 else toDelete2;
      clearPending := false;
      currentIsFirst := !currentIsFirst;
      deferredDeleting := true;
      dying := toDelete;
    }

    /** Empties the vector that has been worked through. */
    method EndClear()
      requires Valid() && deferredDeleting && dying == []
      modifies this`toDelete1, this`toDelete2, this`deferredDeleting
      ensures Valid() && !deferredDeleting && Current() == old(Current())
    {
      if currentIsFirst {
        toDelete2 := [];
      } else {
        toDelete1 := [];
      }
      deferredDeleting := false;
    }

    /** The calls made by one callback or destructor. */
    method Perform(script: seq<Action>)
      requires Valid()
      modifies this
      ensures Valid() && Reentered()
      decreases if deferredDeleting then 0 else 2, 1
    {
      var i := 0;
      while i < |script|
        invariant Valid() && Reentered()
      {
        match script[i] {
          case CallPost(callback) => Post(callback);
          case CallDeferredDelete(target) => DeferredDelete(target);
          case CallClear => ClearDeferredDeleteList();
        }
        i := i + 1;
      }
    }

    /** The destructor of the first object of the vector being cleared. */
    method Destroy(task: Task)
      requires Valid() && deferredDeleting && dying != [] && task == dying[0]
      modifies this
      ensures Valid() && deferredDeleting && dying == old(dying)[1..] && deleted + dying == old(deleted + dying)
      ensures Other() == old(Other()) && currentIsFirst == old(currentIsFirst)
      ensures executed == old(executed) && batch == old(batch) && takePending == old(takePending)
      ensures old(posted) <= posted && old(submitted) <= submitted
      decreases 1, 0
    {
      Associative(deleted, [task], dying[1..]);
      assert dying == [task] + dying[1..];
      deleted := deleted + [task];
      dying := dying[1..];
      Perform(task.script);
    }

    method DestroyAll(toDelete: seq<Task>)
      requires Valid() && deferredDeleting && dying == toDelete
      modifies this
      ensures Valid() && deferredDeleting && dying == [] && deleted == old(deleted) + toDelete
      ensures Other() == old(Other()) && currentIsFirst == old(currentIsFirst)
      ensures executed == old(executed) && batch == old(batch) && takePending == old(takePending)
      ensures old(posted) <= posted && old(submitted) <= submitted
      decreases 1, 1
    {
      var i := 0;
      while i < |toDelete|
        invariant 0 <= i <= |toDelete|
        invariant Valid() && deferredDeleting
        invariant dying == toDelete[i..] && deleted + dying == old(deleted) + toDelete
        invariant Other() == old(Other()) && currentIsFirst == old(currentIsFirst)
        invariant executed == old(executed) && batch == old(batch) && takePending == old(takePending)
        invariant old(posted) <= posted && old(submitted) <= submitted
      {
        Destroy(toDelete[i]);
        i := i + 1;
      }
    }

    /** Destroys, in order, all that had been submitted when it was called, and nothing else:
        destructors that submit more fill the other vector, and a destructor that asks for another
        clear gets none. */
    method ClearDeferredDeleteList()
      requires Valid()
      modifies this
      ensures Valid() && Reentered()
      ensures old(deferredDeleting) ==>
                submitted == old(submitted) && posted == old(posted) && Current() == old(Current())
      ensures !old(deferredDeleting) ==> deleted == old(submitted) && !clearPending
      decreases if deferredDeleting then 0 else 2, 0
    {
      var numToDelete := if currentIsFirst then |toDelete1| else |toDelete2|;
      if deferredDeleting || numToDelete == 0 {
        clearPending := false;
        return;
      }
      var toDelete := BeginClear();
      DestroyAll(toDelete);
      EndClear();
    }

    /** The critical section: the list is moved out, and what was queued is now the batch. */
    method TakePostCallbacks() returns (callbacks: seq<Task>)
      requires Valid() && batch == []
      modifies this`postCallbacks, this`batch, this`takePending
      ensures Valid() && batch == callbacks == old(postCallbacks) && !takePending && postCallbacks == []
      ensures executed + batch == posted
    {
      callbacks := postCallbacks;
      postCallbacks := [];
      takePending := false;
      batch := callbacks;
    }

    /** Runs the first callback of the batch. */
    method Execute(task: Task)
      requires Valid() && !deferredDeleting && batch != [] && task == batch[0] && !takePending
      modifies this
      ensures Valid() && !deferredDeleting && batch == old(batch)[1..] && !takePending
      ensures executed + batch == old(executed + batch) && executed == old(executed) + [task]
      ensures old(deleted) <= deleted && old(posted) <= posted
    {
      Associative(executed, [task], batch[1..]);
      assert batch == [task] + batch[1..];
      executed := executed + [task];
      batch := batch[1..];
      Perform(task.script);
    }

    /** Runs what was posted before the list was taken, in order and once each; what the callbacks
        post stays queued, with the event armed again. */
    method RunPostCallbacks()
      requires Valid() && !deferredDeleting && batch == []
      modifies this
      ensures Valid() && !deferredDeleting && batch == [] && !takePending
      ensures old(posted) <= executed <= posted
      ensures old(submitted) <= deleted
    {
      takePending := true;
      ClearDeferredDeleteList();
      var callbacks := TakePostCallbacks();
      while callbacks != []
        invariant Valid() && !deferredDeleting && batch == callbacks && !takePending
        invariant old(posted) <= executed + batch && old(submitted) <= deleted
        decreases |callbacks|
      {
        Execute(callbacks[0]);
        callbacks := callbacks[1..];
      }
      assert executed + batch == executed;
    }

    /** The event loop disarms an event before it calls back. */
    method OnPostEvent()
      requires Valid() && !deferredDeleting && batch == [] && postArmed
      modifies this
      ensures Valid() && !deferredDeleting && batch == [] && !takePending
      ensures old(posted) <= executed <= posted
      ensures old(submitted) <= deleted
    {
      postArmed := false;
      takePending := true;
      RunPostCallbacks();
    }

    method OnDeferredDeleteEvent()
      requires Valid() && !deferredDeleting && deleteArmed
      modifies this
      ensures Valid() && !deferredDeleting && !clearPending
      ensures deleted == old(submitted) && executed == old(executed)
    {
      deleteArmed := false;
      clearPending := true;
      ClearDeferredDeleteList();
    }
  }
}
