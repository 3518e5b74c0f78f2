/**
 Signal messages, and what a signal cache makes of a sequence of them.

 A message names at most one signal (the selected field of a `oneof`), and for mapping signals it
 carries an action and a key.  A cache keeps, for each signal, the latest message of each key.
 */
module Signals {
  import opened Options

  /** The value carried by a message. */
  datatype Payload = Payload(text: string)

  datatype MappingAction = NoAction | Addition | Update | Removal

  /** The action field of a message: absent or outside the enumeration, or one of the actions. */
  datatype ActionField = Unrecognized | Recognized(action: MappingAction)

  /**
   One signal message.  `field` is "" when no field of the `oneof` is selected.
   */
  datatype Message = Message(field: string, payload: Payload, action: ActionField, key: string)

  /** A cache key; messages without a mapping key share one. */
  datatype Key = Unkeyed | Named(text: string)
  type Datamap = map<Key, Message>
  type Cache = map<string, Datamap>

  /** The empty message that ends the initial snapshot of a watch stream. */
  const MARKER := Message("", Payload(""), Recognized(NoAction), "")

  function Action(m: Message): MappingAction {
    if m.action.Recognized? then m.action.action else NoAction
  }

  function KeyOf(m: Message): Key {
    if m.action.Recognized? && m.key != "" then Named(m.key) else Unkeyed
  }

  /** The datamap of a signal; an absent signal and an empty datamap are not told apart. */
  function Held(c: Cache, s: string): Datamap {
    if s in c then c[s] else map[]
  }

  function UpdateMap(d: Datamap, m: Message): Datamap {
    if Action(m) == Removal then d - {KeyOf(m)} else d[KeyOf(m) := m]
  }

  function UpdateCache(c: Cache, m: Message): Cache {
    if m.field == "" then c else c[m.field := UpdateMap(Held(c, m.field), m)]
  }

  /** The cache after receiving all of `ms` in order. */
  function Fold(c: Cache, ms: seq<Message>): Cache
    decreases |ms|
  {
    if ms == [] then c else Fold(UpdateCache(c, ms[0]), ms[1..])
  }

  /** Cached messages sit under their own signal and key, and are never removals. */
  ghost predicate WellKept(c: Cache) {
    forall s :: s in c ==> WellKeptMap(s, c[s])
  }

  ghost predicate WellKeptMap(s: string, d: Datamap) {
    forall k :: k in d ==> s != "" && d[k].field == s && KeyOf(d[k]) == k && Action(d[k]) != Removal
  }

  lemma {:induction false} FoldAppend(c: Cache, a: seq<Message>, b: seq<Message>)
    ensures Fold(c, a + b) == Fold(Fold(c, a), b)
    decreases |a|
  {
    if a == [] {
      assert a + b == b;
    } else {
      assert (a + b)[1..] == a[1..] + b;
      FoldAppend(UpdateCache(c, a[0]), a[1..], b);
    }
  }

  lemma FoldSnoc(c: Cache, a: seq<Message>, m: Message)
    ensures Fold(c, a + [m]) == UpdateCache(Fold(c, a), m)
  {
    FoldAppend(c, a, [m]);
    assert [m][1..] == [];
    assert Fold(UpdateCache(Fold(c, a), m), []) == UpdateCache(Fold(c, a), m);
  }

  lemma UpdateKeepsWellKept(c: Cache, m: Message)
    requires WellKept(c)
    ensures WellKept(UpdateCache(c, m))
  {
    if m.field != "" {
      assert WellKeptMap(m.field, Held(c, m.field));
      assert WellKeptMap(m.field, UpdateMap(Held(c, m.field), m));
    }
  }

  lemma {:induction false} FoldKeepsWellKept(c: Cache, ms: seq<Message>)
    requires WellKept(c)
    ensures WellKept(Fold(c, ms))
    decreases |ms|
  {
    if ms != [] {
      UpdateKeepsWellKept(c, ms[0]);
      FoldKeepsWellKept(UpdateCache(c, ms[0]), ms[1..]);
    }
  }

  /** What a fold leaves for one signal depends only on what was held for that signal. */
  lemma {:induction false} FoldCongruence(c: Cache, c': Cache, ms: seq<Message>, s: string)
    requires Held(c, s) == Held(c', s)
    ensures Held(Fold(c, ms), s) == Held(Fold(c', ms), s)
    decreases |ms|
  {
    if ms != [] {
      FoldCongruence(UpdateCache(c, ms[0]), UpdateCache(c', ms[0]), ms[1..], s);
    }
  }

  lemma {:induction false} FoldOtherSignals(c: Cache, ms: seq<Message>, s: string)
    requires forall m :: m in ms ==> m.field != s
    ensures Held(Fold(c, ms), s) == Held(c, s)
    decreases |ms|
  {
    if ms != [] {
      FoldOtherSignals(UpdateCache(c, ms[0]), ms[1..], s);
    }
  }

  // ---- Latest emission per key

  /** The last message of a history that concerns a signal and key, unless it removes the key. */
  function Latest(history: seq<Message>, s: string, k: Key): Option<Message> {
    if history == [] then None
    else
      var m := history[|history| - 1];
      if m.field == s && KeyOf(m) == k then
        if Action(m) == Removal then None else Some(m)
      else Latest(history[..|history| - 1], s, k)
  }

  /** A cache filled from a history holds the latest emission of each key, and nothing else. */
  lemma {:induction false} CacheHoldsLatest(history: seq<Message>, s: string, k: Key)
    requires s != ""
    ensures k in Held(Fold(map[], history), s) <==> Latest(history, s, k).Some?
    ensures k in Held(Fold(map[], history), s) ==>
              Held(Fold(map[], history), s)[k] == Latest(history, s, k).value
  {
    if history != [] {
      var n := |history| - 1;
      assert history == history[..n] + [history[n]];
      CacheHoldsLatest(history[..n], s, k);
      FoldSnoc(map[], history[..n], history[n]);
    }
  }

  // ---- Replay of a cached signal

  ghost predicate Distinct<T>(xs: seq<T>) {
    forall i {:trigger xs[..i]} :: 0 <= i < |xs| ==> xs[i] !in xs[..i]
  }

  lemma DistinctSnoc<T>(xs: seq<T>, x: T)
    requires Distinct(xs) && x !in xs
    ensures Distinct(xs + [x])
  {
    var ys := xs + [x];
    forall i | 0 <= i < |ys|
      ensures ys[i] !in ys[..i]
    {
      assert ys[..i] == xs[..i];
    }
  }

  lemma DistinctFront<T>(xs: seq<T>)
    requires Distinct(xs) && xs != []
    ensures Distinct(xs[..|xs| - 1]) && xs[|xs| - 1] !in xs[..|xs| - 1]
  {
    var front := xs[..|xs| - 1];
    forall i | 0 <= i < |front|
      ensures front[i] !in front[..i]
    {
      assert front[..i] == xs[..i];
    }
  }

  lemma AppendLast<T>(a: seq<T>, b: seq<T>)
    requires b != []
    ensures (a + b)[..|a + b| - 1] == a + b[..|b| - 1] && (a + b)[|a + b| - 1] == b[|b| - 1]
  {
  }

  lemma PrefixSnoc<T>(xs: seq<T>, i: nat)
    requires i < |xs|
    ensures xs[..i + 1] == xs[..i] + [xs[i]]
  {
  }

  /** `keys` lists every element of `all` exactly once. */
  ghost predicate Enumerates(keys: seq<Key>, all: set<Key>) {
    (forall k :: k in keys <==> k in all) && Distinct(keys)
  }

  lemma EnumeratesSnoc(keys: seq<Key>, all: set<Key>, k: Key)
    requires Enumerates(keys, all) && k !in all
    ensures Enumerates(keys + [k], all + {k})
  {
    DistinctSnoc(keys, k);
  }

  function Replay(d: Datamap, keys: seq<Key>): (r: seq<Message>)
    requires forall k :: k in keys ==> k in d
    ensures |r| == |keys|
  {
    seq(|keys|, i requires 0 <= i < |keys| => d[keys[i]])
  }

  lemma ReplaySnoc(d: Datamap, keys: seq<Key>, k: Key)
    requires k in d && forall k' :: k' in keys ==> k' in d
    ensures Replay(d, keys + [k]) == Replay(d, keys) + [d[k]]
  {
  }

  /** The part of a datamap that sits at the given keys. */
  function Part(d: Datamap, keys: seq<Key>): Datamap
    requires forall k :: k in keys ==> k in d
  {
    map k | k in keys :: d[k]
  }

  lemma PartCons(e: Datamap, d: Datamap, keys: seq<Key>)
    requires keys != [] && forall k :: k in keys ==> k in d
    ensures e[keys[0] := d[keys[0]]] + Part(d, keys[1..]) == e + Part(d, keys)
  {
    var left, right := e[keys[0] := d[keys[0]]] + Part(d, keys[1..]), e + Part(d, keys);
    assert forall k :: k in keys <==> k == keys[0] || k in keys[1..];
    assert left.Keys == right.Keys;
  }

  /** Replaying part of a cached datamap adds exactly that part to whatever the receiver holds. */
  lemma {:induction false} ReplayAdds(c: Cache, s: string, d: Datamap, keys: seq<Key>)
    requires WellKeptMap(s, d)
    requires forall k :: k in keys ==> k in d
    ensures Held(Fold(c, Replay(d, keys)), s) == Held(c, s) + Part(d, keys)
    decreases |keys|
  {
    if keys != [] {
      var m := d[keys[0]];
      assert keys[0] in d;
      var c' := UpdateCache(c, m);
      assert Held(c', s) == Held(c, s)[keys[0] := m];
      assert Replay(d, keys) == [m] + Replay(d, keys[1..]);
      assert Replay(d, keys)[1..] == Replay(d, keys[1..]);
      ReplayAdds(c', s, d, keys[1..]);
      PartCons(Held(c, s), d, keys);
    }
  }

  /** Replaying a whole cached datamap, in any order, to a receiver that holds nothing rebuilds it. */
  lemma ReplayRebuilds(c: Cache, server: Cache, s: string, keys: seq<Key>)
    requires WellKept(server) && Held(c, s) == map[]
    requires Enumerates(keys, Held(server, s).Keys)
    ensures Held(Fold(c, Replay(Held(server, s), keys)), s) == Held(server, s)
  {
    var d := Held(server, s);
    ReplayAdds(c, s, d, keys);
    assert Part(d, keys) == d;
  }

  /** `stream` is about the given signals only, and rebuilds exactly what is cached for them. */
  ghost predicate Snapshot(c: Cache, names: seq<string>, stream: seq<Message>) {
    && (forall m :: m in stream ==> m.field in names)
    && (forall s :: s in names ==> Held(Fold(map[], stream), s) == Held(c, s))
  }

  lemma SnapshotGrows(c: Cache, names: seq<string>, stream: seq<Message>, s: string, keys: seq<Key>)
    requires WellKept(c) && Snapshot(c, names, stream) && s !in names
    requires Enumerates(keys, Held(c, s).Keys)
    ensures Snapshot(c, names + [s], stream + Replay(Held(c, s), keys))
  {
    var mid, replay := Fold(map[], stream), Replay(Held(c, s), keys);
    FoldAppend(map[], stream, replay);
    FoldOtherSignals(map[], stream, s);
    ReplayRebuilds(mid, c, s, keys);
    ReplayIsOfSignal(c, s, keys);
    forall s' | s' in names
      ensures Held(Fold(map[], stream + replay), s') == Held(c, s')
    {
      FoldOtherSignals(mid, replay, s');
    }
  }

  lemma ReplayIsOfSignal(server: Cache, s: string, keys: seq<Key>)
    requires WellKept(server)
    requires forall k :: k in keys ==> k in Held(server, s)
    ensures forall m :: m in Replay(Held(server, s), keys) ==> m.field == s
  {
    assert WellKeptMap(s, Held(server, s));
  }

  /**
   A late subscriber catches up: whatever was emitted before it connected, folding the replayed cache
   and then the live messages leaves it with the same state per key as a subscriber that has been
   connected from the very beginning.
   */
  lemma LateSubscriberCatchesUp(before: seq<Message>, live: seq<Message>, s: string, keys: seq<Key>)
    requires Enumerates(keys, Held(Fold(map[], before), s).Keys)
    ensures Held(Fold(map[], Replay(Held(Fold(map[], before), s), keys) + live), s) ==
            Held(Fold(map[], before + live), s)
  {
    var server := Fold(map[], before);
    FoldKeepsWellKept(map[], before);
    var replayed := Replay(Held(server, s), keys);
    ReplayRebuilds(map[], server, s, keys);
    FoldCongruence(Fold(map[], replayed), server, live, s);
    FoldAppend(map[], replayed, live);
    FoldAppend(map[], before, live);
  }

  // ---- Derived mapping actions

  /** `m` is the emission that the derivation table prescribes in cache `c` for its own signal and key. */
  ghost predicate Derived(c: Cache, m: Message) {
    var d, k := Held(c, m.field), KeyOf(m);
    && m.field != ""
    && (match Action(m)
        case NoAction => false
        case Addition => k !in d
        case Update => k in d && d[k].payload != m.payload
        case Removal => k in d)
  }

  ghost predicate DerivedRun(c: Cache, ms: seq<Message>)
    decreases |ms|
  {
    ms == [] || (Derived(c, ms[0]) && DerivedRun(UpdateCache(c, ms[0]), ms[1..]))
  }

  lemma {:induction false} DerivedRunSnoc(c: Cache, ms: seq<Message>, m: Message)
    requires DerivedRun(c, ms) && Derived(Fold(c, ms), m)
    ensures DerivedRun(c, ms + [m])
    decreases |ms|
  {
    if ms == [] {
      assert (ms + [m])[1..] == [];
    } else {
      assert (ms + [m])[1..] == ms[1..] + [m];
      DerivedRunSnoc(UpdateCache(c, ms[0]), ms[1..], m);
    }
  }

  /** The actions that a receiver sees for one key of one signal. */
  function ActionsFor(ms: seq<Message>, s: string, k: Key): seq<MappingAction> {
    if ms == [] then []
    else (if ms[0].field == s && KeyOf(ms[0]) == k then [Action(ms[0])] else []) + ActionsFor(ms[1..], s, k)
  }

  /** A key's life: ADDITION UPDATE* REMOVAL, repeatedly; `present` tells whether it starts alive. */
  predicate Lifecycle(present: bool, actions: seq<MappingAction>)
    decreases |actions|
  {
    actions == [] ||
    (match actions[0]
     case NoAction => false
     case Addition => !present && Lifecycle(true, actions[1..])
     case Update => present && Lifecycle(true, actions[1..])
     case Removal => present && Lifecycle(false, actions[1..]))
  }

  /** Over any run of derived emissions, each key of each signal goes through whole life cycles. */
  lemma {:induction false} DerivedRunsFollowLifecycles(c: Cache, ms: seq<Message>, s: string, k: Key)
    requires DerivedRun(c, ms)
    ensures Lifecycle(k in Held(c, s), ActionsFor(ms, s, k))
    decreases |ms|
  {
    if ms != [] {
      DerivedRunsFollowLifecycles(UpdateCache(c, ms[0]), ms[1..], s, k);
      var rest := ActionsFor(ms[1..], s, k);
      if ms[0].field == s && KeyOf(ms[0]) == k {
        assert ([Action(ms[0])] + rest)[1..] == rest;
      } else {
        assert ActionsFor(ms, s, k) == rest;
      }
    }
  }
}
