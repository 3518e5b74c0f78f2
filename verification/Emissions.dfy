/**
 The mapping messages that a store derives from its cache: which action to emit for a key, and which
 run of messages brings a whole cached map in line with a given one.
 */
module Emissions {
  import opened Options
  import opened Signals

  // ---- Cached values

  function CachedValue(c: Cache, name: string, k: Key): Option<Payload> {
    if k in Held(c, name) then Some(Held(c, name)[k].payload) else None
  }

  /** The cached payloads of one signal. */
  function CachedMap(c: Cache, name: string): map<Key, Payload> {
    map k | k in Held(c, name) :: Held(c, name)[k].payload
  }

  /** The keys of `updated` as cache keys; the empty key cannot be cached. */
  function Keyed(updated: map<string, Payload>): map<Key, Payload> {
    map k | k in (set x | x in updated && x != "" :: Named(x)) :: updated[k.text]
  }

  // ---- Constructed messages

  /** The action to emit, given what is cached and what is provided; None for no emission. */
  function DerivedAction(cached: Option<Payload>, value: Option<Payload>): Option<MappingAction> {
    match (cached, value)
    case (None, None) => None
    case (Some(_), None) => Some(Removal)
    case (None, Some(_)) => Some(Addition)
    case (Some(oldValue), Some(newValue)) => if oldValue != newValue then Some(Update) else None
  }

  /** A `oneof` field constructed without a value stays unselected. */
  function Build(name: string, key: string, value: Option<Payload>, action: MappingAction): Message {
    if value.Some? then Message(name, value.value, Recognized(action), key)
    else Message("", Payload(""), Recognized(action), key)
  }

  /** What `emit_mapping` emits in cache `c`. */
  function Emission(c: Cache, name: string, key: string, value: Option<Payload>, action: Option<MappingAction>)
    : seq<Message>
  {
    var act := if key != "" && action.None? then DerivedAction(CachedValue(c, name, Named(key)), value) else action;
    if act.None? then [] else [Build(name, key, value, act.value)]
  }

  /** A derived emission with a value brings the key to that value, with the action the table prescribes. */
  lemma DerivedEmissionSetsValue(c: Cache, name: string, key: string, value: Payload)
    requires name != "" && key != ""
    ensures var sent := Emission(c, name, key, Some(value), None);
            && CachedValue(Fold(c, sent), name, Named(key)) == Some(value)
            && DerivedRun(c, sent)
            && (sent == [] <==> CachedValue(c, name, Named(key)) == Some(value))
  {
    var sent := Emission(c, name, key, Some(value), None);
    if sent != [] {
      assert sent[1..] == [];
      assert Fold(c, sent) == UpdateCache(c, sent[0]);
    }
  }

  /**
   The derivation table promises that an emission without a value removes a cached key.  The message
   built for it selects no signal, so it reaches neither the cache nor any slot: the promise is met if
   and only if there is nothing to remove.
   */
  lemma DerivedEmissionReachesValueIff(c: Cache, name: string, key: string, value: Option<Payload>)
    requires name != "" && key != ""
    ensures CachedValue(Fold(c, Emission(c, name, key, value, None)), name, Named(key)) == value
            <==> value.Some? || Named(key) !in Held(c, name)
  {
    if value.Some? {
      DerivedEmissionSetsValue(c, name, key, value.value);
    } else {
      var sent := Emission(c, name, key, None, None);
      if sent != [] {
        assert sent[1..] == [];
        assert Fold(c, sent) == UpdateCache(c, sent[0]) == c;
      }
    }
  }

  /** A removal that is derived without a value selects no signal: it changes no cache, and is of no signal. */
  lemma RemovalWithoutValueIsIgnored(c: Cache, name: string, key: string)
    requires key != ""
    ensures var sent := Emission(c, name, key, None, None);
            && (sent != [] <==> Named(key) in Held(c, name))
            && (sent != [] ==> |sent| == 1 && sent[0].field == "" && Action(sent[0]) == Removal)
            && Fold(c, sent) == c
  {
    var sent := Emission(c, name, key, None, None);
    if sent != [] {
      assert sent[1..] == [];
      assert Fold(c, sent) == UpdateCache(c, sent[0]);
    }
  }

  // ---- Synchronizing a whole map

  lemma RemovedAndKeyed(start: map<Key, Payload>, updated: map<string, Payload>, gone: set<Key>)
    requires Named("") !in start
    requires forall k :: k in gone <==> k in start && !InMap(k, updated)
    ensures start - gone + Keyed(updated) == Keyed(updated)
  {
    var left := start - gone + Keyed(updated);
    assert left.Keys == Keyed(updated).Keys;
  }

  lemma KeyedAdd(start: map<Key, Payload>, done: map<string, Payload>, x: string, value: Payload)
    ensures start + Keyed(done[x := value]) ==
            if x == "" then start + Keyed(done) else (start + Keyed(done))[Named(x) := value]
  {
  }

  lemma NoEmptyKey(c: Cache, name: string)
    requires WellKept(c)
    ensures Named("") !in Held(c, name)
  {
    assert name in c ==> WellKeptMap(name, c[name]);
  }

  /** The cache key `k` is a key of `updated`. */
  predicate InMap(k: Key, updated: map<string, Payload>) {
    k.Named? && k.text in updated
  }

  function At(m: map<Key, Payload>, k: Key): Option<Payload> {
    if k in m then Some(m[k]) else None
  }

  ghost predicate DistinctKeys(sent: seq<Message>) {
    forall i, j :: 0 <= i < j < |sent| ==> KeyOf(sent[i]) != KeyOf(sent[j])
  }

  /** `sent` holds exactly one message for each key on which `before` and `after` differ. */
  ghost predicate OnePerDifference(before: map<Key, Payload>, after: map<Key, Payload>, sent: seq<Message>) {
    && DistinctKeys(sent)
    && (forall i :: 0 <= i < |sent| ==> At(before, KeyOf(sent[i])) != At(after, KeyOf(sent[i])))
    && (forall k :: At(before, k) != At(after, k) ==> exists i :: 0 <= i < |sent| && KeyOf(sent[i]) == k)
  }

  /** `sent` is a derived run about one signal that leads from `c0` to `c` and touches each key once. */
  ghost predicate Progress(c0: Cache, c: Cache, name: string, sent: seq<Message>, touched: set<Key>) {
    && DerivedRun(c0, sent)
    && c == Fold(c0, sent)
    && DistinctKeys(sent)
    && (forall m :: m in sent ==> m.field == name && KeyOf(m) in touched)
  }

  /** One more derived emission, for a key that has not been touched yet. */
  lemma Stepped(c0: Cache, c: Cache, name: string, sent: seq<Message>, m: Message, touched: set<Key>)
    requires Progress(c0, c, name, sent, touched)
    requires m.field == name && Derived(c, m) && KeyOf(m) !in touched
    ensures Progress(c0, UpdateCache(c, m), name, sent + [m], touched + {KeyOf(m)})
  {
    DerivedRunSnoc(c0, sent, m);
    FoldSnoc(c0, sent, m);
    assert forall i :: 0 <= i < |sent| ==> sent[i] in sent;
  }

  lemma CachedMapUpdate(c: Cache, m: Message)
    requires m.field != ""
    ensures CachedMap(UpdateCache(c, m), m.field) ==
            if Action(m) == Removal then CachedMap(c, m.field) - {KeyOf(m)}
            else CachedMap(c, m.field)[KeyOf(m) := m.payload]
  {
    assert Held(UpdateCache(c, m), m.field) == UpdateMap(Held(c, m.field), m);
  }

  /** One more difference, on a key that the rest of the run does not touch, put in front. */
  lemma OneMoreDifference(before: map<Key, Payload>, mid: map<Key, Payload>, after: map<Key, Payload>,
                          sent: seq<Message>)
    requires sent != [] && DistinctKeys(sent) && OnePerDifference(mid, after, sent[1..])
    requires At(before, KeyOf(sent[0])) != At(mid, KeyOf(sent[0]))
    requires forall k :: k != KeyOf(sent[0]) ==> At(before, k) == At(mid, k)
    ensures OnePerDifference(before, after, sent)
  {
    var rest, k0 := sent[1..], KeyOf(sent[0]);
    assert forall i :: 0 <= i < |rest| ==> rest[i] == sent[i + 1];
    assert At(mid, k0) == At(after, k0);
    forall i | 0 <= i < |sent|
      ensures At(before, KeyOf(sent[i])) != At(after, KeyOf(sent[i]))
    {
      if i > 0 {
        assert KeyOf(rest[i - 1]) == KeyOf(sent[i]);
      }
    }
    forall k | At(before, k) != At(after, k)
      ensures exists i :: 0 <= i < |sent| && KeyOf(sent[i]) == k
    {
      if k == k0 {
        assert KeyOf(sent[0]) == k;
      } else {
        var i :| 0 <= i < |rest| && KeyOf(rest[i]) == k;
        assert KeyOf(sent[i + 1]) == k;
      }
    }
  }

  /** A derived run that touches each key at most once holds one message per difference it makes. */
  lemma {:induction false} OnceEachIsOnePerDifference(c0: Cache, name: string, sent: seq<Message>)
    requires DerivedRun(c0, sent) && DistinctKeys(sent) && forall m :: m in sent ==> m.field == name
    ensures OnePerDifference(CachedMap(c0, name), CachedMap(Fold(c0, sent), name), sent)
    decreases |sent|
  {
    if sent != [] {
      var c1 := UpdateCache(c0, sent[0]);
      OnceEachIsOnePerDifference(c1, name, sent[1..]);
      CachedMapUpdate(c0, sent[0]);
      OneMoreDifference(CachedMap(c0, name), CachedMap(c1, name), CachedMap(Fold(c0, sent), name), sent);
    }
  }

  /** The removals of cached keys, in the given order. */
  function Removals(c: Cache, name: string, empty: Option<Payload>, ks: seq<Key>): seq<Message>
    requires forall k :: k in ks ==> k in Held(c, name)
  {
    if ks == [] then []
    else
      var k := ks[|ks| - 1];
      Removals(c, name, empty, ks[..|ks| - 1]) + [RemovalOf(c, name, empty, k)]
  }

  function RemovalOf(c: Cache, name: string, empty: Option<Payload>, k: Key): Message
    requires k in Held(c, name)
  {
    var value := if empty.None? then Held(c, name)[k].payload else empty.value;
    Build(name, if k.Unkeyed? then "" else k.text, Some(value), Removal)
  }

  /** The derived emissions of values for the given names, in the given order. */
  function Updates(c: Cache, name: string, updated: map<string, Payload>, xs: seq<string>): seq<Message>
    requires forall x :: x in xs ==> x in updated
  {
    if xs == [] then []
    else
      var sent, x := Updates(c, name, updated, xs[..|xs| - 1]), xs[|xs| - 1];
      sent + Emission(Fold(c, sent), name, x, Some(updated[x]), None)
  }

  lemma UpdatesSnoc(c: Cache, name: string, updated: map<string, Payload>, xs: seq<string>, x: string)
    requires x in updated && forall y :: y in xs ==> y in updated
    ensures var sent := Updates(c, name, updated, xs);
            Updates(c, name, updated, xs + [x]) == sent + Emission(Fold(c, sent), name, x, Some(updated[x]), None)
  {
    assert (xs + [x])[..|xs|] == xs;
  }

  lemma RemovalsSnoc(c: Cache, name: string, empty: Option<Payload>, ks: seq<Key>, k: Key)
    requires k in Held(c, name) && forall y :: y in ks ==> y in Held(c, name)
    ensures Removals(c, name, empty, ks + [k]) == Removals(c, name, empty, ks) + [RemovalOf(c, name, empty, k)]
  {
    assert (ks + [k])[..|ks|] == ks;
  }

  /** A removal is emitted the same in every cache. */
  lemma RemovalEmission(c: Cache, now: Cache, name: string, empty: Option<Payload>, k: Key)
    requires k in Held(c, name)
    ensures var value := if empty.None? then Held(c, name)[k].payload else empty.value;
            var m := RemovalOf(c, name, empty, k);
            && Emission(now, name, if k.Unkeyed? then "" else k.text, Some(value), Some(Removal)) == [m]
            && Mapped([m])
  {
  }

  /** All messages carry a mapping action. */
  ghost predicate Mapped(sent: seq<Message>) {
    forall m :: m in sent ==> Action(m) != NoAction
  }

  lemma DerivedIsMapped(c: Cache, name: string, key: string, value: Option<Payload>)
    ensures Mapped(Emission(c, name, key, value, None))
  {
  }

  /** The elements of a sequence. */
  function Elements<T>(xs: seq<T>): set<T> {
    set x | x in xs
  }

  lemma ElementsSnoc<T>(xs: seq<T>, x: T)
    ensures Elements(xs + [x]) == Elements(xs) + {x}
  {
  }

  lemma RemovalOne(c0: Cache, c: Cache, name: string, empty: Option<Payload>, k: Key)
    requires WellKept(c0) && k in Held(c0, name) && k in Held(c, name)
    ensures var m := RemovalOf(c0, name, empty, k);
            && m.field == name != "" && KeyOf(m) == k && Derived(c, m) && Action(m) == Removal
            && CachedMap(UpdateCache(c, m), name) == CachedMap(c, name) - {k}
  {
    NoEmptyKey(c0, name);
    assert WellKeptMap(name, c0[name]);
    CachedMapUpdate(c, RemovalOf(c0, name, empty, k));
  }

  lemma UpdateOne(c: Cache, name: string, x: string, value: Payload)
    requires name != ""
    ensures var next := Emission(c, name, x, Some(value), None);
            && |next| <= 1
            && (next != [] ==>
                  && next[0].field == name && KeyOf(next[0]) == Named(x)
                  && Derived(c, next[0]) && Fold(c, next) == UpdateCache(c, next[0]))
            && CachedMap(Fold(c, next), name) ==
               if x == "" then CachedMap(c, name) else CachedMap(c, name)[Named(x) := value]
  {
    var next := Emission(c, name, x, Some(value), None);
    if next != [] {
      CachedMapUpdate(c, next[0]);
      FoldSnoc(c, [], next[0]);
      assert [] + [next[0]] == next;
    }
  }

  lemma {:induction false} RemovalsRemove(c: Cache, name: string, empty: Option<Payload>, ks: seq<Key>)
    requires WellKept(c) && Distinct(ks) && forall k :: k in ks ==> k in Held(c, name)
    ensures CachedMap(Fold(c, Removals(c, name, empty, ks)), name) == CachedMap(c, name) - Elements(ks)
  {
    if ks != [] {
      var n := |ks| - 1;
      var before, k := Removals(c, name, empty, ks[..n]), ks[n];
      DistinctFront(ks);
      RemovalsRemove(c, name, empty, ks[..n]);
      assert ks == ks[..n] + [k];
      ElementsSnoc(ks[..n], k);
      assert k in CachedMap(Fold(c, before), name);
      RemovalOne(c, Fold(c, before), name, empty, k);
      FoldSnoc(c, before, RemovalOf(c, name, empty, k));
    }
  }

  lemma {:induction false} RemovalsProgress(c: Cache, name: string, empty: Option<Payload>, ks: seq<Key>)
    requires WellKept(c) && Distinct(ks) && forall k :: k in ks ==> k in Held(c, name)
    ensures var sent := Removals(c, name, empty, ks);
            Progress(c, Fold(c, sent), name, sent, Elements(ks))
  {
    if ks != [] {
      var n := |ks| - 1;
      var before, k := Removals(c, name, empty, ks[..n]), ks[n];
      DistinctFront(ks);
      RemovalsProgress(c, name, empty, ks[..n]);
      RemovalsRemove(c, name, empty, ks[..n]);
      assert ks == ks[..n] + [k];
      ElementsSnoc(ks[..n], k);
      assert k in CachedMap(Fold(c, before), name);
      RemovalOne(c, Fold(c, before), name, empty, k);
      Stepped(c, Fold(c, before), name, before, RemovalOf(c, name, empty, k), Elements(ks[..n]));
    }
  }

  /** The part of a map at the given keys. */
  function Restrict(updated: map<string, Payload>, xs: seq<string>): map<string, Payload>
    requires forall x :: x in xs ==> x in updated
  {
    map x | x in xs :: updated[x]
  }

  lemma RestrictSnoc(updated: map<string, Payload>, xs: seq<string>)
    requires xs != [] && forall x :: x in xs ==> x in updated
    ensures Restrict(updated, xs) == Restrict(updated, xs[..|xs| - 1])[xs[|xs| - 1] := updated[xs[|xs| - 1]]]
  {
    assert xs == xs[..|xs| - 1] + [xs[|xs| - 1]];
  }

  lemma {:induction false} UpdatesSet(c: Cache, name: string, updated: map<string, Payload>, xs: seq<string>)
    requires name != "" && forall x :: x in xs ==> x in updated
    ensures CachedMap(Fold(c, Updates(c, name, updated, xs)), name) == CachedMap(c, name) + Keyed(Restrict(updated, xs))
  {
    if xs != [] {
      var n := |xs| - 1;
      var x, sent := xs[n], Updates(c, name, updated, xs[..n]);
      UpdatesSet(c, name, updated, xs[..n]);
      RestrictSnoc(updated, xs);
      KeyedAdd(CachedMap(c, name), Restrict(updated, xs[..n]), x, updated[x]);
      UpdateOne(Fold(c, sent), name, x, updated[x]);
      FoldAppend(c, sent, Emission(Fold(c, sent), name, x, Some(updated[x]), None));
    }
  }

  lemma UpdateProgress(c0: Cache, c: Cache, name: string, before: seq<Message>, touched: set<Key>,
                       x: string, value: Payload)
    returns (all: set<Key>)
    requires name != "" && Progress(c0, c, name, before, touched) && Named(x) !in touched
    ensures var sent := before + Emission(c, name, x, Some(value), None);
            Progress(c0, Fold(c0, sent), name, sent, all)
    ensures all <= touched + {Named(x)}
  {
    var next := Emission(c, name, x, Some(value), None);
    UpdateOne(c, name, x, value);
    if next == [] {
      all := touched;
      assert before + next == before;
    } else {
      all := touched + {Named(x)};
      Stepped(c0, c, name, before, next[0], touched);
      assert next == [next[0]];
    }
  }

  lemma {:induction false} UpdatesProgress(
      c0: Cache, before: seq<Message>, touched: set<Key>, name: string, updated: map<string, Payload>, xs: seq<string>)
    returns (all: set<Key>)
    requires name != "" && Progress(c0, Fold(c0, before), name, before, touched)
    requires Distinct(xs) && forall x :: x in xs ==> x in updated && Named(x) !in touched
    ensures var sent := Updates(Fold(c0, before), name, updated, xs);
            Progress(c0, Fold(c0, before + sent), name, before + sent, all)
    ensures forall k :: k in all ==> k in touched || (k.Named? && k.text in xs)
  {
    var c := Fold(c0, before);
    if xs == [] {
      all := touched;
      assert before + [] == before;
    } else {
      var n := |xs| - 1;
      var x, sent := xs[n], Updates(c, name, updated, xs[..n]);
      DistinctFront(xs);
      all := UpdatesProgress(c0, before, touched, name, updated, xs[..n]);
      FoldAppend(c0, before, sent);
      assert before + (sent + Emission(Fold(c, sent), name, x, Some(updated[x]), None)) ==
             before + sent + Emission(Fold(c, sent), name, x, Some(updated[x]), None);
      all := UpdateProgress(c0, Fold(c, sent), name, before + sent, all, x, updated[x]);
    }
  }

  /** Removing exactly the missing keys and then setting all values makes the cached map equal to `updated`. */
  lemma SynchronizationReachesMap(c: Cache, name: string, updated: map<string, Payload>, empty: Option<Payload>,
                                  ks: seq<Key>, xs: seq<string>)
    requires WellKept(c) && name != ""
    requires Distinct(ks) && forall k :: k in ks <==> k in Held(c, name) && !InMap(k, updated)
    requires forall x :: x in xs <==> x in updated
    ensures CachedMap(Fold(Fold(c, Removals(c, name, empty, ks)),
                           Updates(Fold(c, Removals(c, name, empty, ks)), name, updated, xs)), name) == Keyed(updated)
  {
    RemovalsRemove(c, name, empty, ks);
    UpdatesSet(Fold(c, Removals(c, name, empty, ks)), name, updated, xs);
    assert Restrict(updated, xs) == updated;
    NoEmptyKey(c, name);
    RemovedAndKeyed(CachedMap(c, name), updated, Elements(ks));
  }

  /** Removals of exactly the missing keys, then derived emissions of all values, in any order. */
  lemma SynchronizationIsExact(c: Cache, name: string, updated: map<string, Payload>, empty: Option<Payload>,
                               ks: seq<Key>, xs: seq<string>, sent: seq<Message>)
    requires WellKept(c) && name != ""
    requires Distinct(ks) && forall k :: k in ks <==> k in Held(c, name) && !InMap(k, updated)
    requires Distinct(xs) && forall x :: x in xs <==> x in updated
    requires sent == Removals(c, name, empty, ks) + Updates(Fold(c, Removals(c, name, empty, ks)), name, updated, xs)
    ensures CachedMap(Fold(c, sent), name) == Keyed(updated)
    ensures DerivedRun(c, sent)
    ensures OnePerDifference(CachedMap(c, name), CachedMap(Fold(c, sent), name), sent)
    ensures forall m :: m in sent ==> m.field == name
    ensures forall s :: s != name ==> Held(Fold(c, sent), s) == Held(c, s)
  {
    var removals := Removals(c, name, empty, ks);
    SynchronizationReachesMap(c, name, updated, empty, ks, xs);
    FoldAppend(c, removals, Updates(Fold(c, removals), name, updated, xs));
    RemovalsProgress(c, name, empty, ks);
    var all := UpdatesProgress(c, removals, Elements(ks), name, updated, xs);
    OnceEachIsOnePerDifference(c, name, sent);
    forall s | s != name
      ensures Held(Fold(c, sent), s) == Held(c, s)
    {
      FoldOtherSignals(c, sent, s);
    }
  }
}
