/**
 The two ends of a watch stream: the request handler that fills a queue from the server's store, and
 the reader that feeds what comes out of the stream into the client's store.
 */
module WatchStream {
  import opened Signals
  import opened SignalStores

  /** The queue has been added once to the slots of each of the names. */
  ghost predicate Connects(before: Slots, after: Slots, names: seq<string>, queue: MessageQueue) {
    forall s :: SlotsOf(after, s) == SlotsOf(before, s) + if s in names then [queue] else []
  }

  lemma ConnectsOneMore(before: Slots, after: Slots, names: seq<string>, name: string, queue: MessageQueue)
    requires Connects(before, after, names, queue) && name !in names
    ensures Connects(before, after[name := SlotsOf(after, name) + [queue]], names + [name], queue)
  {
    assert SlotsOf(after, name) == SlotsOf(before, name);
  }

  /**
   While a watcher's queue is connected, an emission is put in it exactly if it is one of the signals that it watches:
   this is what an emission does in the protocol.
   */
  lemma EmissionReachesWatchedQueue(before: Slots, after: Slots, names: seq<string>, queue: MessageQueue, m: Message)
    requires Connects(before, after, names, queue) && forall n :: queue !in SlotsOf(before, n)
    requires "" !in names && ALL_SIGNALS !in names
    ensures Offered(after, queue, [m]) == if m.field in names then [m] else []
  {
    var watched := set n | n in names;
    forall n
      ensures Times(SlotsOf(after, n), queue) == if n in watched then 1 else 0
    {
      assert Times(SlotsOf(after, n), queue) ==
             Times(SlotsOf(before, n), queue) + Times(if n in names then [queue] else [], queue);
      assert Times(SlotsOf(before, n), queue) == 0;
    }
    ConnectedReceivesItsSignals(after, queue, watched, [m]);
    assert [m][..0] == [];
    assert Selected([m], watched) == Selected([], watched) + if m.field in watched then [m] else [];
  }

  class SignalRequestHandler {
    const signalStore: CachingSignalStore
    const maxQueueSize: int

    constructor (signalStore: CachingSignalStore, maxQueueSize: int)
      ensures this.signalStore == signalStore && this.maxQueueSize == maxQueueSize
    {
      this.signalStore, this.maxQueueSize := signalStore, maxQueueSize;
    }

    /**
     Connect a new queue to the given signals, one by one, and put the end-of-snapshot marker; `ok` is
     false where that raises because the queue is full.  Without overflow, the queue holds a snapshot
     of the server's cache, whatever the order of replay, followed by the marker.
     */
    method Watch(names: seq<string>) returns (queue: MessageQueue, ok: bool)
      requires signalStore.Valid() && Distinct(names) && forall s :: s in names ==> s in signalStore.signalNames
      modifies signalStore`slots
      ensures fresh(queue) && queue.maxSize == maxQueueSize && signalStore.Valid()
      ensures ok ==> queue.items != [] && queue.items[|queue.items| - 1] == MARKER
      ensures !ok ==> queue.lost
      ensures !queue.lost ==>
                && Snapshot(signalStore.cache, names, queue.items[..|queue.items| - 1])
                && forall s :: s in names ==> Held(Fold(map[], queue.items), s) == Held(signalStore.cache, s)
      ensures Connects(old(signalStore.slots), signalStore.slots, names, queue)
    {
      queue := new MessageQueue(maxQueueSize);
      ConnectEach(names, queue);
      ghost var replayed := queue.items;
      var full := queue.PutNowait(MARKER);
      ok := !full;
      if !queue.lost {
        assert queue.items[..|queue.items| - 1] == replayed;
        FoldSnoc(map[], replayed, MARKER);
      }
    }

    method ConnectEach(names: seq<string>, queue: MessageQueue)
      requires signalStore.Valid() && Distinct(names) && forall s :: s in names ==> s in signalStore.signalNames
      requires queue.items == []
      modifies signalStore`slots, queue
      ensures signalStore.Valid()
      ensures !queue.lost ==> Snapshot(signalStore.cache, names, queue.items)
      ensures Connects(old(signalStore.slots), signalStore.slots, names, queue)
    {
      var i := 0;
      while i < |names|
        invariant 0 <= i <= |names| && signalStore.Valid()
        invariant !queue.lost ==> Snapshot(signalStore.cache, names[..i], queue.items)
        invariant Connects(old(signalStore.slots), signalStore.slots, names[..i], queue)
      {
        PrefixSnoc(names, i);
        ConnectsOneMore(old(signalStore.slots), signalStore.slots, names[..i], names[i], queue);
        ghost var before := queue.items;
        var _, keys := signalStore.ConnectSignal(names[i], queue);
        if !queue.lost {
          SnapshotGrows(signalStore.cache, names[..i], before, names[i], keys);
        }
        i := i + 1;
      }
      assert names[..i] == names;
    }
  }

  class ThreadReader {
    var active: bool

    constructor ()
      ensures !active
    {
      active := false;
    }

    /**
     Emit the messages of the stream into the client's store, until the stream ends or the reader is
     found to have been stopped; `stopped(n)` tells whether that has happened by the `n`th message.
     */
    method Worker(stream: seq<Message>, store: CachingSignalStore, stopped: nat -> bool) returns (taken: nat)
      requires store.Valid()
      requires forall m :: m in stream ==> m.field == "" || m.field in store.signalNames
      modifies this`active, store`cache, store`completed, Queues(store.slots)
      ensures store.Valid() && !active
      ensures taken <= |stream|
      ensures forall n :: 1 <= n < taken ==> !stopped(n)
      ensures taken < |stream| ==> taken > 0 && stopped(taken)
      ensures store.cache == Fold(old(store.cache), stream[..taken])
      ensures store.completed == (old(store.completed) ||
                exists n :: 0 <= n < taken && Action(stream[n]) == NoAction)
    {
      active := true;
      taken := 0;
      while taken < |stream|
        invariant taken <= |stream| && store.Valid()
        invariant active
        invariant forall n :: 1 <= n <= taken ==> !stopped(n)
        invariant store.cache == Fold(old(store.cache), stream[..taken])
        invariant store.completed == (old(store.completed) ||
                    exists n :: 0 <= n < taken && Action(stream[n]) == NoAction)
      {
        PrefixSnoc(stream, taken);
        FoldSnoc(old(store.cache), stream[..taken], stream[taken]);
        store.Emit(stream[taken]);
        taken := taken + 1;
        if stopped(taken) {
          active := false;
          break;
        }
      }
      active := false;
    }
  }
}
