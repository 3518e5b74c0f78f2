/** What messages say, field by field: what is found in a cache after one, and what a store sends to keep a map. */
module SentMessages {
  import opened Options
  import opened Signals
  import opened Emissions

  // ---- Lookups in a cache

  /** The cache key of a message with a mapping key, or without any. */
  function CacheKey(key: string): Key {
    if key == "" then Unkeyed else Named(key)
  }

  /**
   After a message, its value is found under its signal and its key, or under none unless its action is in the
   enumeration; after a removal nothing is.  Every other lookup finds what it found before.
   */
  lemma MessageIsFound(c: Cache, m: Message, name: string, k: Key)
    ensures CachedValue(UpdateCache(c, m), name, k) ==
              if name != m.field || m.field == "" then CachedValue(c, name, k)
              else
                match m.action
                case Unrecognized => if k == Unkeyed then Some(m.payload) else CachedValue(c, name, k)
                case Recognized(action) =>
                  if k != CacheKey(m.key) then CachedValue(c, name, k)
                  else if action == Removal then None
                  else Some(m.payload)
  {
  }

  /** An empty cache has no value; a cached map has the values that are found. */
  lemma CachedMapHoldsValues(c: Cache, name: string, k: Key)
    ensures CachedValue(map[], name, k) == None
    ensures At(CachedMap(c, name), k) == CachedValue(c, name, k)
  {
  }

  // ---- Mapping messages

  /**
   The message that is sent for a key: an action that is given is sent as it is, and otherwise one is derived from
   what is cached and what is provided.
   */
  lemma EmittedMessageIs(c: Cache, name: string, key: string, value: Option<Payload>, action: Option<MappingAction>)
    requires name != ""
    ensures Emission(c, name, key, value, action) ==
              match (action, value)
              case (Some(a), Some(v)) => [Message(name, v, Recognized(a), key)]
              case (Some(a), None) => [Message("", Payload(""), Recognized(a), key)]
              case (None, Some(v)) =>
                if key == "" || CachedValue(c, name, Named(key)) == Some(v) then []
                else if CachedValue(c, name, Named(key)) == None then [Message(name, v, Recognized(Addition), key)]
                else [Message(name, v, Recognized(Update), key)]
              case (None, None) =>
                if key == "" || CachedValue(c, name, Named(key)) == None then []
                else [Message("", Payload(""), Recognized(Removal), key)]
  {
  }

  // ---- Synchronizing a map

  /** Under every key of a map its value is found, but for the empty key, and under no other key is any. */
  ghost predicate HoldsExactly(c: Cache, name: string, updated: map<string, Payload>) {
    forall k :: CachedValue(c, name, k) ==
                if k.Named? && k.text != "" && k.text in updated then Some(updated[k.text]) else None
  }

  lemma KeyedIsHeld(c: Cache, name: string, updated: map<string, Payload>)
    requires CachedMap(c, name) == Keyed(updated)
    ensures HoldsExactly(c, name, updated)
  {
    forall k
      ensures CachedValue(c, name, k) ==
              if k.Named? && k.text != "" && k.text in updated then Some(updated[k.text]) else None
    {
      assert k in CachedMap(c, name) <==> k in Keyed(updated);
    }
  }

  /**
   A message that brings a map in line with `updated`: the removal of a key that this does not have, with the value
   that is provided for removals, or else with the one that was cached; or the value of a key that is new or differs.
   */
  predicate BringsInLine(before: map<Key, Payload>, updated: map<string, Payload>, empty: Option<Payload>,
                         m: Message)
  {
    var k := CacheKey(m.key);
    match m.action
    case Unrecognized => false
    case Recognized(NoAction) => false
    case Recognized(Removal) =>
      && k in before && (m.key == "" || m.key !in updated)
      && m.payload == if empty.Some? then empty.value else before[k]
    case Recognized(Addition) => m.key != "" && m.key in updated && k !in before && m.payload == updated[m.key]
    case Recognized(Update) =>
      && m.key != "" && m.key in updated && k in before && before[k] != updated[m.key]
      && m.payload == updated[m.key]
  }

  predicate IsRemovalOf(c: Cache, name: string, empty: Option<Payload>, ks: seq<Key>, m: Message) {
    var k := CacheKey(m.key);
    && k in ks && k in CachedMap(c, name) && m.action == Recognized(Removal)
    && m.payload == if empty.Some? then empty.value else CachedMap(c, name)[k]
  }

  lemma {:induction false} RemovalsCarry(c: Cache, name: string, empty: Option<Payload>, ks: seq<Key>)
    requires WellKept(c) && forall k :: k in ks ==> k in Held(c, name)
    ensures forall m :: m in Removals(c, name, empty, ks) ==> IsRemovalOf(c, name, empty, ks, m)
  {
    if ks != [] {
      var k := ks[|ks| - 1];
      NoEmptyKey(c, name);
      RemovalsCarry(c, name, empty, ks[..|ks| - 1]);
      assert IsRemovalOf(c, name, empty, ks, RemovalOf(c, name, empty, k));
    }
  }

  predicate IsUpdateTo(updated: map<string, Payload>, m: Message) {
    && (m.action == Recognized(Addition) || m.action == Recognized(Update))
    && m.key != "" && m.key in updated && m.payload == updated[m.key]
  }

  lemma {:induction false} UpdatesCarry(c: Cache, name: string, updated: map<string, Payload>, xs: seq<string>)
    requires name != "" && forall x :: x in xs ==> x in updated
    ensures forall m :: m in Updates(c, name, updated, xs) ==> IsUpdateTo(updated, m)
  {
    if xs != [] {
      var sent, x := Updates(c, name, updated, xs[..|xs| - 1]), xs[|xs| - 1];
      UpdatesCarry(c, name, updated, xs[..|xs| - 1]);
      EmittedMessageIs(Fold(c, sent), name, x, Some(updated[x]), None);
    }
  }

  /** When every key occurs once, each message of a derived run is what the table prescribes before the run. */
  lemma {:induction false} DerivedFromStart(c: Cache, name: string, sent: seq<Message>, i: nat)
    requires DerivedRun(c, sent) && DistinctKeys(sent) && i < |sent|
    requires forall m :: m in sent ==> m.field == name
    ensures Derived(c, sent[i])
    decreases |sent|
  {
    if i > 0 {
      var rest := sent[1..];
      assert forall j :: 0 <= j < |rest| ==> rest[j] == sent[j + 1];
      DerivedFromStart(UpdateCache(c, sent[0]), name, rest, i - 1);
      assert KeyOf(sent[0]) != KeyOf(sent[i]);
    }
  }

  /** Everything that is sent to synchronize a map brings it in line. */
  lemma SynchronizationBringsInLine(c: Cache, name: string, updated: map<string, Payload>, empty: Option<Payload>,
                                    ks: seq<Key>, xs: seq<string>, sent: seq<Message>)
    requires WellKept(c) && name != ""
    requires forall k :: k in ks <==> k in Held(c, name) && !InMap(k, updated)
    requires forall x :: x in xs <==> x in updated
    requires sent == Removals(c, name, empty, ks) + Updates(Fold(c, Removals(c, name, empty, ks)), name, updated, xs)
    requires DerivedRun(c, sent) && DistinctKeys(sent) && forall m :: m in sent ==> m.field == name
    ensures forall m :: m in sent ==> BringsInLine(CachedMap(c, name), updated, empty, m)
  {
    var removals := Removals(c, name, empty, ks);
    RemovalsCarry(c, name, empty, ks);
    UpdatesCarry(Fold(c, removals), name, updated, xs);
    forall m | m in sent
      ensures BringsInLine(CachedMap(c, name), updated, empty, m)
    {
      var i :| 0 <= i < |sent| && sent[i] == m;
      DerivedFromStart(c, name, sent, i);
      assert m in removals || m in Updates(Fold(c, removals), name, updated, xs);
      InLine(c, name, updated, empty, ks, m);
    }
  }

  lemma InLine(c: Cache, name: string, updated: map<string, Payload>, empty: Option<Payload>, ks: seq<Key>,
               m: Message)
    requires m.field == name && Derived(c, m) && forall k :: k in ks <==> k in Held(c, name) && !InMap(k, updated)
    requires IsRemovalOf(c, name, empty, ks, m) || IsUpdateTo(updated, m)
    ensures BringsInLine(CachedMap(c, name), updated, empty, m)
  {
  }
}
