/**
 The signal/slot store with a replay cache, and the bounded queues that watchers connect to it.

 Slots are modelled by the queues whose `put_nowait` is registered as the callback.  A callback that
 raises is caught and logged by the caller, so a full queue silently loses the message.
 */
module SignalStores {
  import opened Options
  import opened Collections
  import opened Signals
  import opened Emissions
  import opened SentMessages

  const ALL_SIGNALS := "*"

  type Slots = map<string, seq<MessageQueue>>

  // ---- Bounded queues

  function Offer(maxSize: int, items: seq<Message>, m: Message): seq<Message> {
    if maxSize > 0 && |items| >= maxSize then items else items + [m]
  }

  function OfferAll(maxSize: int, items: seq<Message>, ms: seq<Message>): seq<Message> {
    if ms == [] then items
    else Offer(maxSize, OfferAll(maxSize, items, ms[..|ms| - 1]), ms[|ms| - 1])
  }

  /** Offered messages arrive in order up to the capacity, and everything beyond it is lost. */
  lemma {:induction false} OfferAllIsTruncation(maxSize: int, items: seq<Message>, ms: seq<Message>)
    requires maxSize > 0 ==> |items| <= maxSize
    ensures var room := if maxSize > 0 && maxSize - |items| < |ms| then maxSize - |items| else |ms|;
            OfferAll(maxSize, items, ms) == items + ms[..room]
  {
    if ms != [] {
      OfferAllIsTruncation(maxSize, items, ms[..|ms| - 1]);
    }
  }

  /** A queue for messages on their way to one watcher. */
  class MessageQueue {
    const maxSize: int  // no limit unless positive
    var items: seq<Message>
    ghost var lost: bool  // a message was refused

    constructor (maxSize: int)
      ensures this.maxSize == maxSize && items == [] && !lost
    {
      this.maxSize := maxSize;
      items, lost := [], false;
    }

    method PutNowait(m: Message) returns (full: bool)
      modifies this
      ensures full <==> maxSize > 0 && |old(items)| >= maxSize
      ensures items == if full then old(items) else old(items) + [m]
      ensures items == Offer(maxSize, old(items), m)
      ensures lost == (old(lost) || full)
    {
      full := maxSize > 0 && |items| >= maxSize;
      if full {
        lost := true;
      } else {
        items := items + [m];
      }
    }

    method Get() returns (m: Message)
      requires items != []
      modifies this`items
      ensures old(items) == [m] + items
    {
      m := items[0];
      items := items[1..];
    }
  }

  // ---- Deliveries

  function SlotsOf(slots: Slots, name: string): seq<MessageQueue> {
    if name in slots then slots[name] else []
  }

  /** The slots that a message goes to: those of its signal, then those connected to all signals. */
  function Targets(slots: Slots, field: string): seq<MessageQueue> {
    if field == "" then [] else SlotsOf(slots, field) + SlotsOf(slots, ALL_SIGNALS)
  }

  ghost function Queues(slots: Slots): set<MessageQueue> {
    set n, q | n in slots && q in slots[n] :: q
  }

  function Copies(m: Message, n: nat): seq<Message> {
    seq(n, _ => m)
  }

  /** How often a queue occurs in a list of slots. */
  ghost function Times(targets: seq<MessageQueue>, q: MessageQueue): nat {
    multiset(targets)[q]
  }

  /** The copies of `sent` that queue `q` is offered: one for each time it is connected. */
  ghost function Offered(slots: Slots, q: MessageQueue, sent: seq<Message>): seq<Message> {
    if sent == [] then []
    else
      var m := sent[|sent| - 1];
      Offered(slots, q, sent[..|sent| - 1]) + Copies(m, Times(Targets(slots, m.field), q))
  }

  lemma OfferAllSnoc(maxSize: int, items: seq<Message>, ms: seq<Message>, m: Message)
    ensures OfferAll(maxSize, items, ms + [m]) == Offer(maxSize, OfferAll(maxSize, items, ms), m)
  {
    assert (ms + [m])[..|ms|] == ms;
  }

  lemma {:induction false} OfferAllAppend(maxSize: int, items: seq<Message>, a: seq<Message>, b: seq<Message>)
    ensures OfferAll(maxSize, items, a + b) == OfferAll(maxSize, OfferAll(maxSize, items, a), b)
  {
    if b == [] {
      assert a + b == a;
    } else {
      AppendLast(a, b);
      OfferAllAppend(maxSize, items, a, b[..|b| - 1]);
    }
  }

  lemma {:induction false} OfferedAppend(slots: Slots, q: MessageQueue, a: seq<Message>, b: seq<Message>)
    ensures Offered(slots, q, a + b) == Offered(slots, q, a) + Offered(slots, q, b)
  {
    if b == [] {
      assert a + b == a;
    } else {
      AppendLast(a, b);
      OfferedAppend(slots, q, a, b[..|b| - 1]);
    }
  }

  lemma TwoRounds(q: MessageQueue, slots: Slots, start: seq<Message>, a: seq<Message>, b: seq<Message>)
    ensures OfferAll(q.maxSize, OfferAll(q.maxSize, start, Offered(slots, q, a)), Offered(slots, q, b)) ==
            OfferAll(q.maxSize, start, Offered(slots, q, a + b))
  {
    OfferedAppend(slots, q, a, b);
    OfferAllAppend(q.maxSize, start, Offered(slots, q, a), Offered(slots, q, b));
  }

  /** Queues that hold what they are offered after `a` hold, after `b` as well, what both offer. */
  lemma Relay(slots: Slots, a: seq<Message>, b: seq<Message>)
    ensures forall q, start | q in Queues(slots) ::
              OfferAll(q.maxSize, OfferAll(q.maxSize, start, Offered(slots, q, a)), Offered(slots, q, b)) ==
              OfferAll(q.maxSize, start, Offered(slots, q, a + b))
  {
    forall q, start | q in Queues(slots)
      ensures OfferAll(q.maxSize, OfferAll(q.maxSize, start, Offered(slots, q, a)), Offered(slots, q, b)) ==
              OfferAll(q.maxSize, start, Offered(slots, q, a + b))
    {
      TwoRounds(q, slots, start, a, b);
    }
  }

  lemma TimesOfNext(targets: seq<MessageQueue>, i: nat)
    requires i < |targets|
    ensures forall q :: Times(targets[..i + 1], q) == Times(targets[..i], q) + if q == targets[i] then 1 else 0
  {
    assert targets[..i + 1] == targets[..i] + [targets[i]];
  }

  lemma OneMoreCopy(maxSize: int, items: seq<Message>, m: Message, n: nat)
    ensures OfferAll(maxSize, items, Copies(m, n + 1)) == Offer(maxSize, OfferAll(maxSize, items, Copies(m, n)), m)
  {
    assert Copies(m, n + 1)[..n] == Copies(m, n);
  }

  lemma ReplayedAll(cache: Cache, names: seq<string>, replayed: seq<Message>)
    requires Snapshot(cache, names, replayed) && forall s :: s in cache ==> s in names
    ensures forall s :: Held(Fold(map[], replayed), s) == Held(cache, s)
  {
    forall s | s !in names
      ensures Held(Fold(map[], replayed), s) == Held(cache, s)
    {
      FoldOtherSignals(map[], replayed, s);
    }
  }

  /** Messages of the given signals, in order. */
  function Selected(sent: seq<Message>, names: set<string>): seq<Message> {
    if sent == [] then []
    else
      var m := sent[|sent| - 1];
      Selected(sent[..|sent| - 1], names) + if m.field in names then [m] else []
  }

  /** A queue that is connected once to each of some signals is offered every message of theirs, once and in order. */
  lemma {:induction false} ConnectedReceivesItsSignals(slots: Slots, q: MessageQueue, names: set<string>,
                                                       sent: seq<Message>)
    requires "" !in names && ALL_SIGNALS !in names
    requires forall n :: Times(SlotsOf(slots, n), q) == if n in names then 1 else 0
    ensures Offered(slots, q, sent) == Selected(sent, names)
  {
    if sent != [] {
      var m := sent[|sent| - 1];
      ConnectedReceivesItsSignals(slots, q, names, sent[..|sent| - 1]);
      TargetsTimes(slots, m.field, q);
      CopiesOfOne(m);
    }
  }

  lemma TargetsTimes(slots: Slots, field: string, q: MessageQueue)
    ensures Times(Targets(slots, field), q) ==
            if field == "" then 0 else Times(SlotsOf(slots, field), q) + Times(SlotsOf(slots, ALL_SIGNALS), q)
  {
  }

  lemma CopiesOfOne(m: Message)
    ensures Copies(m, 1) == [m] && Copies(m, 0) == []
  {
  }

  /** A queue that is connected to all signals is offered every message that names one. */
  lemma {:induction false} ConnectedToAllReceivesAll(slots: Slots, q: MessageQueue, names: set<string>,
                                                     sent: seq<Message>)
    requires forall n :: Times(SlotsOf(slots, n), q) == if n == ALL_SIGNALS then 1 else 0
    requires "" !in names && forall m :: m in sent ==> m.field == "" || (m.field in names && m.field != ALL_SIGNALS)
    ensures Offered(slots, q, sent) == Selected(sent, names)
  {
    if sent != [] {
      var m := sent[|sent| - 1];
      ConnectedToAllReceivesAll(slots, q, names, sent[..|sent| - 1]);
      TargetsTimes(slots, m.field, q);
      CopiesOfOne(m);
    }
  }

  // ---- Lists of keys

  /** The keys of a set, each once, that a map does not have. */
  ghost predicate ListsMissing(ks: seq<Key>, keys: set<Key>, updated: map<string, Payload>) {
    Distinct(ks) && forall k :: k in ks <==> k in keys && !InMap(k, updated)
  }

  lemma MissingSnoc(ks: seq<Key>, keys: set<Key>, updated: map<string, Payload>, k: Key)
    requires ListsMissing(ks, keys, updated) && k !in keys
    ensures ListsMissing(if InMap(k, updated) then ks else ks + [k], keys + {k}, updated)
  {
    DistinctSnoc(ks, k);
  }

  ghost predicate Lists(xs: seq<string>, names: set<string>) {
    Distinct(xs) && forall x :: x in xs <==> x in names
  }

  lemma ListsSnoc(xs: seq<string>, names: set<string>, x: string)
    requires Lists(xs, names) && x !in names
    ensures x !in xs && Lists(xs + [x], names + {x})
  {
    DistinctSnoc(xs, x);
  }

  // ---- The store

  /** A store of signals with a cache that is replayed to new slots. */
  class CachingSignalStore {
    const signalNames: seq<string>  // the fields of the message's `oneof`, in declared order
    var slots: Slots
    var cache: Cache
    var completed: bool

    ghost predicate Valid()
      reads this
    {
      && "" !in signalNames
      && WellKept(cache)
      && (forall s :: s in cache ==> s in signalNames)
    }

    constructor (signalNames: seq<string>)
      requires "" !in signalNames
      ensures Valid() && this.signalNames == signalNames
      ensures slots == map[] && cache == map[] && !completed
    {
      this.signalNames := signalNames;
      slots, cache, completed := map[], map[], false;
    }

    method EmitTo(q: MessageQueue, m: Message)
      modifies q
      ensures q.items == Offer(q.maxSize, old(q.items), m)
      ensures q.lost == (old(q.lost) || (q.maxSize > 0 && |old(q.items)| >= q.maxSize))
    {
      var _ := q.PutNowait(m);  // a full queue raises, which is caught and logged
    }

    /** Deliver a message to a list of slots, in which the same queue may occur more than once. */
    method EmitToEach(targets: seq<MessageQueue>, m: Message)
      modifies set q | q in targets
      ensures forall q | q in targets ::
                q.items == OfferAll(q.maxSize, old(q.items), Copies(m, Times(targets, q)))
    {
      var i := 0;
      while i < |targets|
        invariant 0 <= i <= |targets|
        invariant forall q | q in targets ::
                    q.items == OfferAll(q.maxSize, old(q.items), Copies(m, Times(targets[..i], q)))
      {
        ghost var q := targets[i];
        TimesOfNext(targets, i);
        OneMoreCopy(q.maxSize, old(q.items), m, Times(targets[..i], q));
        EmitTo(targets[i], m);
        i := i + 1;
      }
      assert targets[..i] == targets;
    }

    /** Update the cache, then deliver to the slots; an unmapped message also completes the snapshot. */
    method Emit(m: Message)
      requires Valid() && (m.field == "" || m.field in signalNames)
      modifies this`cache, this`completed, Queues(slots)
      ensures Valid()
      ensures cache == UpdateCache(old(cache), m)
      ensures completed == (old(completed) || Action(m) == NoAction)
      ensures forall q | q in Queues(slots) ::
                q.items == OfferAll(q.maxSize, old(q.items), Offered(slots, q, [m]))
    {
      FoldKeepsWellKept(cache, [m]);
      FoldSnoc(cache, [], m);
      assert [] + [m] == [m];
      if m.field != "" {
        cache := cache[m.field := UpdateMap(Held(cache, m.field), m)];
        ghost var named, all := SlotsOf(slots, m.field), SlotsOf(slots, ALL_SIGNALS);
        forall q | q in Queues(slots)
          ensures Offered(slots, q, [m]) ==
                  Copies(m, Times(named, q)) + Copies(m, Times(all, q))
        {
          OneMessageOffered(q, m);
        }
        label start:
        if m.field in slots {
          EmitToEach(slots[m.field], m);
        }
        label half:
        assert forall q | q in Queues(slots) ::
            q.items == OfferAll(q.maxSize, old@start(q.items), Copies(m, Times(named, q)));
        if ALL_SIGNALS in slots {
          EmitToEach(slots[ALL_SIGNALS], m);
        }
        forall q | q in Queues(slots)
          ensures q.items == OfferAll(q.maxSize, old(q.items), Offered(slots, q, [m]))
        {
          OfferAllAppend(q.maxSize, old(q.items), Copies(m, Times(named, q)), Copies(m, Times(all, q)));
        }
      } else {
        forall q | q in Queues(slots)
          ensures Offered(slots, q, [m]) == []
        {
          OneMessageOffered(q, m);
        }
      }
      if Action(m) == NoAction {
        completed := true;
      }
    }

    lemma OneMessageOffered(q: MessageQueue, m: Message)
      ensures Offered(slots, q, [m]) == Copies(m, Times(Targets(slots, m.field), q))
      ensures m.field == "" ==> Offered(slots, q, [m]) == []
      ensures m.field != "" ==>
                Offered(slots, q, [m]) ==
                Copies(m, Times(SlotsOf(slots, m.field), q)) + Copies(m, Times(SlotsOf(slots, ALL_SIGNALS), q))
    {
      assert [m][..0] == [];
      assert Offered(slots, q, []) == [];
    }

    /** Build and emit a mapping message; `known` is false where building it raises for an unknown name. */
    method EmitMapping(name: string, key: string, value: Option<Payload>, action: Option<MappingAction>)
      returns (known: bool, ghost sent: seq<Message>)
      requires Valid()
      modifies this`cache, this`completed, Queues(slots)
      ensures Valid()
      ensures !known <==> name != "" && name !in signalNames && Emission(old(cache), name, key, value, action) != []
      ensures sent == if known then Emission(old(cache), name, key, value, action) else []
      ensures cache == Fold(old(cache), sent)
      ensures completed == (old(completed) || exists m :: m in sent && Action(m) == NoAction)
      ensures forall q | q in Queues(slots) ::
                q.items == OfferAll(q.maxSize, old(q.items), Offered(slots, q, sent))
    {
      var act := action;
      if key != "" && act.None? {
        act := DerivedAction(CachedValue(cache, name, Named(key)), value);
      }
      known, sent := true, [];
      if act.Some? {
        if name == "" || name in signalNames {
          var m := Build(name, key, value, act.value);
          sent := [m];
          assert sent[1..] == [];
          assert Fold(cache, sent) == UpdateCache(cache, m);
          Emit(m);
        } else {
          known := false;
        }
      }
    }

    /**
     Bring the cached map of a signal in line with `updated` by emitting removals and then additions
     and updates.  `empty`, when provided, is sent with removals instead of the cached value.
     */
    method EmitMapUpdate(name: string, updated: map<string, Payload>, empty: Option<Payload>)
      returns (known: bool, ghost sent: seq<Message>)
      requires Valid()
      modifies this`cache, this`completed, Queues(slots)
      ensures Valid()
      ensures known <==> name in signalNames
      ensures known ==> CachedMap(cache, name) == Keyed(updated)
      ensures known ==> HoldsExactly(cache, name, updated)
      ensures !known ==> sent == []
      ensures forall m :: m in sent ==> m.field == name
      ensures forall s :: s != name ==> Held(cache, s) == Held(old(cache), s)
      ensures forall m :: m in sent ==> BringsInLine(CachedMap(old(cache), name), updated, empty, m)
      ensures OnePerDifference(CachedMap(old(cache), name), CachedMap(cache, name), sent)
      ensures DerivedRun(old(cache), sent)
      ensures cache == Fold(old(cache), sent)
      ensures completed == old(completed)
      ensures forall q | q in Queues(slots) ::
                q.items == OfferAll(q.maxSize, old(q.items), Offered(slots, q, sent))
    {
      sent := [];
      known := name in signalNames;
      if known {
        ghost var ks := EmitRemovals(name, updated, empty);
        ghost var removals := Removals(old(cache), name, empty, ks);
        ghost var xs := EmitUpdates(name, updated);
        ghost var updates := Updates(Fold(old(cache), removals), name, updated, xs);
        FoldAppend(old(cache), removals, updates);
        Relay(slots, removals, updates);
        sent := removals + updates;
        SynchronizationIsExact(old(cache), name, updated, empty, ks, xs, sent);
        KeyedIsHeld(cache, name, updated);
        SynchronizationBringsInLine(old(cache), name, updated, empty, ks, xs, sent);
      }
    }

    /** The first loop of `emit_map_update`: remove the cached keys that `updated` does not have. */
    method EmitRemovals(name: string, updated: map<string, Payload>, empty: Option<Payload>)
      returns (ghost ks: seq<Key>)
      requires Valid() && name in signalNames
      modifies this`cache, this`completed, Queues(slots)
      ensures Valid() && completed == old(completed)
      ensures Distinct(ks)
      ensures forall k :: k in ks <==> k in Held(old(cache), name) && !InMap(k, updated)
      ensures cache == Fold(old(cache), Removals(old(cache), name, empty, ks))
      ensures forall q | q in Queues(slots) ::
                q.items == OfferAll(q.maxSize, old(q.items),
                                    Offered(slots, q, Removals(old(cache), name, empty, ks)))
    {
      ks := [];
      ghost var sent := [];
      var current := Held(cache, name);
      var rest := current.Keys;
      while rest != {}
        invariant Valid() && completed == old(completed) && rest <= current.Keys
        invariant ListsMissing(ks, current.Keys - rest, updated)
        invariant sent == Removals(old(cache), name, empty, ks) && cache == Fold(old(cache), sent)
        invariant forall q | q in Queues(slots) ::
                    q.items == OfferAll(q.maxSize, old(q.items), Offered(slots, q, sent))
        decreases rest
      {
        var k :| k in rest;
        OneLess(current.Keys, rest, k);
        MissingSnoc(ks, current.Keys - rest, updated, k);
        if !InMap(k, updated) {
          var value := if empty.None? then current[k].payload else empty.value;
          RemovalEmission(old(cache), cache, name, empty, k);
          var _, next := EmitMapping(name, if k.Unkeyed? then "" else k.text, Some(value), Some(Removal));
          Relay(slots, sent, next);
          FoldAppend(old(cache), sent, next);
          RemovalsSnoc(old(cache), name, empty, ks, k);
          ks, sent := ks + [k], sent + next;
        }
        rest := rest - {k};
      }
    }

    /** The second loop of `emit_map_update`: add or update the keys of `updated`. */
    method EmitUpdates(name: string, updated: map<string, Payload>) returns (ghost xs: seq<string>)
      requires Valid() && name in signalNames
      modifies this`cache, this`completed, Queues(slots)
      ensures Valid() && completed == old(completed)
      ensures Distinct(xs)
      ensures forall x :: x in xs <==> x in updated
      ensures cache == Fold(old(cache), Updates(old(cache), name, updated, xs))
      ensures forall q | q in Queues(slots) ::
                q.items == OfferAll(q.maxSize, old(q.items), Offered(slots, q, Updates(old(cache), name, updated, xs)))
    {
      xs := [];
      ghost var sent := [];
      var todo := updated.Keys;
      while todo != {}
        invariant Valid() && completed == old(completed) && todo <= updated.Keys
        invariant Lists(xs, updated.Keys - todo)
        invariant sent == Updates(old(cache), name, updated, xs) && cache == Fold(old(cache), sent)
        invariant forall q | q in Queues(slots) ::
                    q.items == OfferAll(q.maxSize, old(q.items), Offered(slots, q, sent))
        decreases todo
      {
        var x :| x in todo;
        OneLess(updated.Keys, todo, x);
        ListsSnoc(xs, updated.Keys - todo, x);
        DerivedIsMapped(cache, name, x, Some(updated[x]));
        var _, next := EmitMapping(name, x, Some(updated[x]), None);
        Relay(slots, sent, next);
        FoldAppend(old(cache), sent, next);
        UpdatesSnoc(old(cache), name, updated, xs, x);
        xs, sent := xs + [x], sent + next;
        todo := todo - {x};
      }
    }

    /** Replay the cached messages of a signal to one slot, in some order. */
    method EmitCachedTo(name: string, q: MessageQueue) returns (ghost keys: seq<Key>)
      requires Valid()
      modifies q
      ensures Enumerates(keys, Held(cache, name).Keys)
      ensures q.items == OfferAll(q.maxSize, old(q.items), Replay(Held(cache, name), keys))
      ensures !q.lost ==> !old(q.lost) && q.items == old(q.items) + Replay(Held(cache, name), keys)
    {
      keys := [];
      var d := Held(cache, name);
      var rest := d.Keys;
      ghost var done: set<Key> := {};
      while rest != {}
        invariant done + rest == d.Keys && done !! rest && Enumerates(keys, done)
        invariant q.items == OfferAll(q.maxSize, old(q.items), Replay(d, keys))
        invariant !q.lost ==> !old(q.lost) && q.items == old(q.items) + Replay(d, keys)
        decreases rest
      {
        var k :| k in rest;
        ReplaySnoc(d, keys, k);
        OfferAllSnoc(q.maxSize, old(q.items), Replay(d, keys), d[k]);
        EnumeratesSnoc(keys, done, k);
        EmitTo(q, d[k]);
        keys, done, rest := keys + [k], done + {k}, rest - {k};
      }
      assert done == d.Keys;
    }

    /** Register a slot for one signal, and replay what is cached; `ok` is false for an unknown signal. */
    method ConnectSignal(name: string, q: MessageQueue) returns (ok: bool, ghost keys: seq<Key>)
      requires Valid()
      modifies this`slots, q
      ensures Valid()
      ensures ok <==> name in signalNames
      ensures !ok ==> slots == old(slots) && q.items == old(q.items) && q.lost == old(q.lost)
      ensures ok ==> slots == old(slots)[name := SlotsOf(old(slots), name) + [q]]
      ensures ok ==> Enumerates(keys, Held(cache, name).Keys)
      ensures ok ==> q.items == OfferAll(q.maxSize, old(q.items), Replay(Held(cache, name), keys))
      ensures ok && !q.lost ==> !old(q.lost) && q.items == old(q.items) + Replay(Held(cache, name), keys)
    {
      ok, keys := name in signalNames, [];
      if ok {
        slots := slots[name := SlotsOf(slots, name) + [q]];
        keys := EmitCachedTo(name, q);
      }
    }

    /** Register a slot for all signals, and replay each of them in declared order. */
    method ConnectAll(q: MessageQueue) returns (ghost replayed: seq<Message>)
      requires Valid() && Distinct(signalNames)
      modifies this`slots, q
      ensures Valid()
      ensures slots == old(slots)[ALL_SIGNALS := SlotsOf(old(slots), ALL_SIGNALS) + [q]]
      ensures Snapshot(cache, signalNames, replayed)
      ensures forall s :: Held(Fold(map[], replayed), s) == Held(cache, s)
      ensures q.items == OfferAll(q.maxSize, old(q.items), replayed)
      ensures !q.lost ==> !old(q.lost) && q.items == old(q.items) + replayed
    {
      slots := slots[ALL_SIGNALS := SlotsOf(slots, ALL_SIGNALS) + [q]];
      replayed := [];
      var i := 0;
      while i < |signalNames|
        invariant 0 <= i <= |signalNames|
        invariant slots == old(slots)[ALL_SIGNALS := SlotsOf(old(slots), ALL_SIGNALS) + [q]]
        invariant Snapshot(cache, signalNames[..i], replayed)
        invariant q.items == OfferAll(q.maxSize, old(q.items), replayed)
        invariant !q.lost ==> !old(q.lost) && q.items == old(q.items) + replayed
      {
        PrefixSnoc(signalNames, i);
        ghost var keys := EmitCachedTo(signalNames[i], q);
        ghost var more := Replay(Held(cache, signalNames[i]), keys);
        SnapshotGrows(cache, signalNames[..i], replayed, signalNames[i], keys);
        OfferAllAppend(q.maxSize, old(q.items), replayed, more);
        Associative(old(q.items), replayed, more);
        replayed := replayed + more;
        i := i + 1;
      }
      assert signalNames[..i] == signalNames;
      ReplayedAll(cache, signalNames, replayed);
    }
  }

  /** No slot is offered a removal without a value. */
  lemma RemovalWithoutValueReachesNoSlot(c: Cache, name: string, key: string, slots: Slots, q: MessageQueue)
    requires key != ""
    ensures Offered(slots, q, Emission(c, name, key, None, None)) == []
  {
    RemovalWithoutValueIsIgnored(c, name, key);
    var sent := Emission(c, name, key, None, None);
    if sent != [] {
      assert sent == [sent[0]];
      assert sent[..0] == [];
      assert Offered(slots, q, []) == [];
    }
  }
}
