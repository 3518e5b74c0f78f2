/**
 Replication of a server's signal cache to a client over one watch stream.

 The server connects a queue to one signal after another, each connection replaying the cache, then
 puts an empty marker message; the client emits every message it takes from the stream into its own
 caching store.  Emissions may fall between any two of these steps.
 */
module WatchProtocol {
  import opened Options
  import opened Collections
  import opened Signals
  import opened SignalStores

  /** A bounded queue and the stream it feeds; what was put, and what of it was refused, is recorded. */
  datatype Pipe = Pipe(
    capacity: int,           // queue limit, none unless positive
    queue: seq<Message>,     // in flight
    delivered: seq<Message>, // what has been taken from the queue
    offered: seq<Message>,   // what has been put, whether it found room or not
    refused: set<nat>)       // positions in it of what found the queue full

  /** The state of one watch stream.  `snapshot` and `markAt` record history. */
  datatype Watch = Watch(
    server: Cache,      // the server's cache
    names: seq<string>, // the signals to be watched
    connected: nat,     // how many of them are connected
    marked: bool,       // the marker has been put
    pipe: Pipe,         // from the server to the client
    client: Cache,      // the client's cache
    completed: bool,    // the client's completion event
    snapshot: Cache,    // the server's cache when the marker was put
    markAt: nat)        // the marker's position in what has been put

  datatype Step = Emit(m: Message) | ConnectNext(keys: seq<Key>) | EnqueueMarker | Deliver

  function Connected(w: Watch): seq<string>
    requires w.connected <= |w.names|
  {
    w.names[..w.connected]
  }

  /** Put a message in the queue; it is lost if the queue is full. */
  function Put(p: Pipe, m: Message): Pipe {
    if p.capacity > 0 && |p.queue| >= p.capacity then
      p.(offered := p.offered + [m], refused := p.refused + {|p.offered|})
    else
      p.(offered := p.offered + [m], queue := p.queue + [m])
  }

  function PutAll(p: Pipe, ms: seq<Message>): Pipe {
    if ms == [] then p else Put(PutAll(p, ms[..|ms| - 1]), ms[|ms| - 1])
  }

  function Take(p: Pipe): Pipe
    requires p.queue != []
  {
    p.(queue := p.queue[1..], delivered := p.delivered + [p.queue[0]])
  }

  function Stream(p: Pipe): seq<Message> {
    p.delivered + p.queue
  }

  ghost predicate Enabled(w: Watch, step: Step) {
    match step
    case Emit(m) => true
    case ConnectNext(keys) =>
      w.connected < |w.names| && Enumerates(keys, Held(w.server, w.names[w.connected]).Keys)
    case EnqueueMarker => w.connected == |w.names| && !w.marked
    case Deliver => w.pipe.queue != []
  }

  function Next(w: Watch, step: Step): Watch
    requires Enabled(w, step) && w.connected <= |w.names|
  {
    match step
    case Emit(m) =>
      w.(server := UpdateCache(w.server, m),
         pipe := if m.field != "" && m.field in Connected(w) then Put(w.pipe, m) else w.pipe)
    case ConnectNext(keys) =>
      w.(connected := w.connected + 1, pipe := PutAll(w.pipe, Replay(Held(w.server, w.names[w.connected]), keys)))
    case EnqueueMarker =>
      w.(marked := true, snapshot := w.server, markAt := |w.pipe.offered|, pipe := Put(w.pipe, MARKER))
    case Deliver =>
      var m := w.pipe.queue[0];
      w.(pipe := Take(w.pipe), client := UpdateCache(w.client, m),
         completed := w.completed || Action(m) == NoAction)
  }

  /** A watch starts on any well-kept server cache, with a client that holds nothing. */
  ghost predicate Start(w: Watch) {
    && WellKept(w.server) && Distinct(w.names) && "" !in w.names
    && w.connected == 0 && !w.marked
    && w.pipe == Pipe(w.pipe.capacity, [], [], [], {}) && w.client == map[] && !w.completed
  }

  ghost predicate StepTo(w: Watch, step: Step, w': Watch) {
    w.connected <= |w.names| && Enabled(w, step) && w' == Next(w, step)
  }

  /** The states passed by a run of the protocol, in any interleaving of its steps. */
  ghost predicate Run(states: seq<Watch>, steps: seq<Step>) {
    && |states| == |steps| + 1
    && Start(states[0])
    && forall i :: 0 <= i < |steps| ==> StepTo(states[i], steps[i], states[i + 1])
  }

  // ---- What was put, and what of it arrives

  /** What is left of a sequence without the refused positions. */
  function Kept(ms: seq<Message>, refused: set<nat>): seq<Message> {
    if ms == [] then []
    else Kept(ms[..|ms| - 1], refused) + if |ms| - 1 in refused then [] else [ms[|ms| - 1]]
  }

  ghost predicate Arrives(p: Pipe) {
    && Stream(p) == Kept(p.offered, p.refused)
    && forall j :: j in p.refused ==> j < |p.offered|
  }

  lemma {:induction false} KeptIgnoresLater(ms: seq<Message>, refused: set<nat>, n: nat)
    requires |ms| <= n
    ensures Kept(ms, refused + {n}) == Kept(ms, refused)
  {
    if ms != [] {
      KeptIgnoresLater(ms[..|ms| - 1], refused, n);
    }
  }

  lemma {:induction false} KeptAll(ms: seq<Message>)
    ensures Kept(ms, {}) == ms
  {
    if ms != [] {
      KeptAll(ms[..|ms| - 1]);
    }
  }

  lemma KeptSnoc(ms: seq<Message>, refused: set<nat>, m: Message)
    ensures Kept(ms + [m], refused) == Kept(ms, refused) + if |ms| in refused then [] else [m]
  {
    assert (ms + [m])[..|ms|] == ms;
  }

  lemma PutArrives(p: Pipe, m: Message)
    requires Arrives(p)
    ensures Arrives(Put(p, m))
  {
    var n := |p.offered|;
    if p.capacity > 0 && |p.queue| >= p.capacity {
      KeptSnoc(p.offered, p.refused + {n}, m);
      KeptIgnoresLater(p.offered, p.refused, n);
    } else {
      KeptSnoc(p.offered, p.refused, m);
      assert p.delivered + (p.queue + [m]) == Stream(p) + [m];
    }
  }

  /** Messages are put one by one: all are offered, those that find room arrive, and nothing else changes. */
  lemma {:induction false} PutAllArrives(p: Pipe, ms: seq<Message>)
    requires Arrives(p)
    ensures var q := PutAll(p, ms);
            && Arrives(q) && q.offered == p.offered + ms && q.queue == OfferAll(p.capacity, p.queue, ms)
            && q.delivered == p.delivered && q.capacity == p.capacity
  {
    if ms == [] {
      assert p.offered + ms == p.offered;
    } else {
      var front := ms[..|ms| - 1];
      PutAllArrives(p, front);
      PutArrives(PutAll(p, front), ms[|ms| - 1]);
      assert ms == front + [ms[|ms| - 1]];
      Associative(p.offered, front, [ms[|ms| - 1]]);
    }
  }

  // ---- What every step keeps

  /** What was put amounts to the server's cache for every connected signal, and concerns no other. */
  ghost predicate InSync(server: Cache, connected: seq<string>, offered: seq<Message>) {
    && (forall s :: s in connected ==> Held(Fold(map[], offered), s) == Held(server, s))
    && (forall m :: m in offered ==> m.field == "" || m.field in connected)
  }

  /** What was put before the marker amounts to the server's cache at the marker. */
  ghost predicate Marked(names: seq<string>, offered: seq<Message>, snapshot: Cache, markAt: nat) {
    && markAt < |offered| && offered[markAt] == MARKER
    && (forall s :: s in names ==> Held(Fold(map[], offered[..markAt]), s) == Held(snapshot, s))
  }

  /** A client makes a cache of what it takes from the stream, and is complete after an unmapped message. */
  ghost predicate Received(delivered: seq<Message>, client: Cache, completed: bool) {
    && client == Fold(map[], delivered)
    && (completed <==> exists i :: 0 <= i < |delivered| && Action(delivered[i]) == NoAction)
  }

  ghost predicate Inv(w: Watch) {
    && WellKept(w.server) && Distinct(w.names) && "" !in w.names
    && w.connected <= |w.names|
    && Arrives(w.pipe) && Received(w.pipe.delivered, w.client, w.completed)
    && InSync(w.server, Connected(w), w.pipe.offered)
    && (w.marked ==> w.connected == |w.names| && Marked(w.names, w.pipe.offered, w.snapshot, w.markAt))
  }

  lemma MarkedExtends(names: seq<string>, offered: seq<Message>, snapshot: Cache, markAt: nat, m: Message)
    requires Marked(names, offered, snapshot, markAt)
    ensures Marked(names, offered + [m], snapshot, markAt)
  {
    assert (offered + [m])[..markAt] == offered[..markAt];
  }

  lemma EmitKeepsSync(server: Cache, connected: seq<string>, offered: seq<Message>, m: Message)
    requires InSync(server, connected, offered) && "" !in connected
    ensures InSync(UpdateCache(server, m), connected, if m.field in connected then offered + [m] else offered)
  {
    if m.field in connected {
      FoldSnoc(map[], offered, m);
      assert Held(Fold(map[], offered), m.field) == Held(server, m.field);
    }
  }

  lemma EmitKeepsInv(w: Watch, m: Message)
    requires Inv(w)
    ensures Inv(Next(w, Emit(m)))
  {
    UpdateKeepsWellKept(w.server, m);
    EmitKeepsSync(w.server, Connected(w), w.pipe.offered, m);
    PutArrives(w.pipe, m);
    if w.marked {
      MarkedExtends(w.names, w.pipe.offered, w.snapshot, w.markAt, m);
    }
  }

  lemma ConnectKeepsSync(server: Cache, connected: seq<string>, offered: seq<Message>, s0: string, keys: seq<Key>)
    requires InSync(server, connected, offered) && WellKept(server) && s0 != "" && s0 !in connected
    requires Enumerates(keys, Held(server, s0).Keys)
    ensures InSync(server, connected + [s0], offered + Replay(Held(server, s0), keys))
  {
    var replay := Replay(Held(server, s0), keys);
    FoldAppend(map[], offered, replay);
    ReplayIsOfSignal(server, s0, keys);
    FoldOtherSignals(map[], offered, s0);
    ReplayRebuilds(Fold(map[], offered), server, s0, keys);
    forall s | s in connected
      ensures Held(Fold(map[], offered + replay), s) == Held(server, s)
    {
      FoldOtherSignals(Fold(map[], offered), replay, s);
    }
  }

  lemma ConnectKeepsInv(w: Watch, keys: seq<Key>)
    requires Inv(w) && Enabled(w, ConnectNext(keys))
    ensures Inv(Next(w, ConnectNext(keys)))
  {
    var s0 := w.names[w.connected];
    assert s0 in w.names && s0 !in Connected(w);
    assert w.names[..w.connected + 1] == Connected(w) + [s0];
    ConnectKeepsSync(w.server, Connected(w), w.pipe.offered, s0, keys);
    PutAllArrives(w.pipe, Replay(Held(w.server, s0), keys));
  }

  lemma MarkerKeepsSync(server: Cache, names: seq<string>, offered: seq<Message>)
    requires InSync(server, names, offered)
    ensures InSync(server, names, offered + [MARKER]) && Marked(names, offered + [MARKER], server, |offered|)
  {
    FoldSnoc(map[], offered, MARKER);
    assert (offered + [MARKER])[..|offered|] == offered;
  }

  lemma MarkerKeepsInv(w: Watch)
    requires Inv(w) && Enabled(w, EnqueueMarker)
    ensures Inv(Next(w, EnqueueMarker))
  {
    PutArrives(w.pipe, MARKER);
    assert Connected(w) == w.names;
    MarkerKeepsSync(w.server, w.names, w.pipe.offered);
  }

  lemma ReceiveOne(delivered: seq<Message>, client: Cache, completed: bool, m: Message)
    requires Received(delivered, client, completed)
    ensures Received(delivered + [m], UpdateCache(client, m), completed || Action(m) == NoAction)
  {
    FoldSnoc(map[], delivered, m);
    assert (delivered + [m])[|delivered|] == m;
    assert forall i :: 0 <= i < |delivered| ==> (delivered + [m])[i] == delivered[i];
  }

  lemma DeliverKeepsInv(w: Watch)
    requires Inv(w) && Enabled(w, Deliver)
    ensures Inv(Next(w, Deliver))
  {
    ReceiveOne(w.pipe.delivered, w.client, w.completed, w.pipe.queue[0]);
    assert Stream(Take(w.pipe)) == Stream(w.pipe);
  }

  lemma StepKeepsInv(w: Watch, step: Step, w': Watch)
    requires Inv(w) && StepTo(w, step, w')
    ensures Inv(w') && w'.names == w.names
  {
    match step
    case Emit(m) => EmitKeepsInv(w, m);
    case ConnectNext(keys) => ConnectKeepsInv(w, keys);
    case EnqueueMarker => MarkerKeepsInv(w);
    case Deliver => DeliverKeepsInv(w);
  }

  lemma {:induction false} RunsKeepInv(states: seq<Watch>, steps: seq<Step>, i: nat)
    requires Run(states, steps) && i < |states|
    ensures Inv(states[i]) && states[i].names == states[0].names
  {
    if i > 0 {
      RunsKeepInv(states, steps, i - 1);
      StepKeepsInv(states[i - 1], steps[i - 1], states[i]);
    }
  }

  // ---- Replication

  lemma AllArrives(p: Pipe)
    requires Arrives(p) && p.refused == {}
    ensures Stream(p) == p.offered
  {
    KeptAll(p.offered);
  }

  /**
   In every reachable state in which no message was lost, folding what is in flight onto the client's
   cache gives exactly the server's cache, for every signal connected so far.
   */
  lemma ClientPlusQueueIsServer(states: seq<Watch>, steps: seq<Step>, i: nat, s: string)
    requires Run(states, steps) && i < |states|
    ensures var w := states[i];
            && w.connected <= |w.names|
            && (w.pipe.refused == {} && s in Connected(w) ==>
                  Held(Fold(w.client, w.pipe.queue), s) == Held(w.server, s))
  {
    var w := states[i];
    RunsKeepInv(states, steps, i);
    FoldAppend(map[], w.pipe.delivered, w.pipe.queue);
    if w.pipe.refused == {} {
      AllArrives(w.pipe);
    }
  }

  lemma {:induction false} KeptFrom(ms: seq<Message>, refused: set<nat>, i: nat) returns (j: nat)
    requires i < |Kept(ms, refused)|
    ensures j < |ms| && j !in refused && Kept(ms, refused)[i] == ms[j]
  {
    var front := Kept(ms[..|ms| - 1], refused);
    if i < |front| {
      j := KeptFrom(ms[..|ms| - 1], refused, i);
    } else {
      j := |ms| - 1;
    }
  }

  /** Nothing of a signal that is not connected, or not watched at all, reaches the client, whatever is lost. */
  lemma UnconnectedSignalsAreUntouched(states: seq<Watch>, steps: seq<Step>, i: nat, s: string)
    requires Run(states, steps) && i < |states| && s != ""
    ensures var w := states[i];
            && w.connected <= |w.names|
            && (s !in Connected(w) ==> Held(w.client, s) == map[] && forall m :: m in Stream(w.pipe) ==> m.field != s)
  {
    var w := states[i];
    RunsKeepInv(states, steps, i);
    if s !in Connected(w) {
      forall n | 0 <= n < |Stream(w.pipe)|
        ensures Stream(w.pipe)[n].field != s
      {
        var j := KeptFrom(w.pipe.offered, w.pipe.refused, n);
        assert w.pipe.offered[j] in w.pipe.offered;
      }
      assert forall m :: m in w.pipe.delivered ==> m in Stream(w.pipe);
      FoldOtherSignals(map[], w.pipe.delivered, s);
    }
  }

  // ---- Overflow

  /** The queue keeps within its limit. */
  predicate IsBounded(p: Pipe) {
    p.capacity > 0 ==> |p.queue| <= p.capacity
  }

  lemma PutLosesIff(p: Pipe, m: Message)
    requires Arrives(p) && IsBounded(p)
    ensures var q := Put(p, m);
            && IsBounded(q) && p.refused <= q.refused && q.capacity == p.capacity
            && (q.refused == p.refused <==> p.capacity <= 0 || |p.queue| + 1 <= p.capacity)
            && (q.refused == p.refused ==> |q.queue| == |p.queue| + 1)
            && |p.queue| <= |q.queue|
  {
    assert |p.offered| !in p.refused;
  }

  lemma {:induction false} PutAllLosesIff(p: Pipe, ms: seq<Message>)
    requires Arrives(p) && IsBounded(p)
    ensures var q := PutAll(p, ms);
            && IsBounded(q) && p.refused <= q.refused && q.capacity == p.capacity
            && (q.refused == p.refused <==> p.capacity <= 0 || |p.queue| + |ms| <= p.capacity)
            && (q.refused == p.refused ==> |q.queue| == |p.queue| + |ms|)
            && |p.queue| <= |q.queue|
  {
    if ms != [] {
      var front := ms[..|ms| - 1];
      PutAllLosesIff(p, front);
      PutAllArrives(p, front);
      PutLosesIff(PutAll(p, front), ms[|ms| - 1]);
    }
  }

  /** There is room for everything that a step offers. */
  predicate HasRoom(p: Pipe, q: Pipe) {
    p.capacity <= 0 || |p.queue| + |q.offered| - |p.offered| <= p.capacity
  }

  lemma StepLosesIff(w: Watch, step: Step, w': Watch)
    requires Inv(w) && StepTo(w, step, w') && IsBounded(w.pipe)
    ensures IsBounded(w'.pipe) && w.pipe.refused <= w'.pipe.refused
    ensures w'.pipe.refused == w.pipe.refused <==> HasRoom(w.pipe, w'.pipe)
  {
    match step
    case Emit(m) => PutLosesIff(w.pipe, m);
    case ConnectNext(keys) =>
      var replay := Replay(Held(w.server, w.names[w.connected]), keys);
      PutAllArrives(w.pipe, replay);
      PutAllLosesIff(w.pipe, replay);
    case EnqueueMarker => PutLosesIff(w.pipe, MARKER);
    case Deliver =>
  }

  /** Messages are lost exactly where a step offers more than there is room for; never, if the queue has no limit. */
  lemma {:induction false} NothingIsLostIff(states: seq<Watch>, steps: seq<Step>, i: nat)
    requires Run(states, steps) && i < |states|
    ensures IsBounded(states[i].pipe)
    ensures states[i].pipe.refused == {} <==>
            forall k :: 0 <= k < i ==> HasRoom(states[k].pipe, states[k + 1].pipe)
  {
    if i > 0 {
      NothingIsLostIff(states, steps, i - 1);
      RunsKeepInv(states, steps, i - 1);
      StepLosesIff(states[i - 1], steps[i - 1], states[i]);
      assert states[i] == states[i - 1 + 1];
    }
  }

  predicate Concerns(m: Message, s: string, k: Key) {
    m.field == s && KeyOf(m) == k
  }

  /** Both caches hold the same message for a signal and key, or none. */
  predicate Agree(c: Cache, d: Cache, s: string, k: Key) {
    && (k in Held(c, s) <==> k in Held(d, s))
    && (k in Held(c, s) ==> Held(c, s)[k] == Held(d, s)[k])
  }

  /** The last message for a signal and key was refused, and would have changed what had arrived before it. */
  predicate Missed(ms: seq<Message>, refused: set<nat>, s: string, k: Key) {
    && ms != []
    && var n := |ms| - 1;
       if Concerns(ms[n], s, k) then
         n in refused && Latest(Kept(ms[..n], refused), s, k) != if Action(ms[n]) == Removal then None else Some(ms[n])
       else Missed(ms[..n], refused, s, k)
  }

  lemma {:induction false} LatestKeptIff(ms: seq<Message>, refused: set<nat>, s: string, k: Key)
    ensures Latest(Kept(ms, refused), s, k) == Latest(ms, s, k) <==> !Missed(ms, refused, s, k)
  {
    if ms != [] {
      LatestKeptIff(ms[..|ms| - 1], refused, s, k);
      LatestSnoc(Kept(ms[..|ms| - 1], refused), ms[|ms| - 1], s, k);
    }
  }

  lemma LatestSnoc(ms: seq<Message>, m: Message, s: string, k: Key)
    ensures Latest(ms + [m], s, k) ==
            if !Concerns(m, s, k) then Latest(ms, s, k) else if Action(m) == Removal then None else Some(m)
    ensures Latest(ms + [], s, k) == Latest(ms, s, k)
  {
    assert (ms + [m])[..|ms|] == ms && ms + [] == ms;
  }

  lemma AgreeIffLatest(a: seq<Message>, b: seq<Message>, s: string, k: Key)
    requires s != ""
    ensures Agree(Fold(map[], a), Fold(map[], b), s, k) <==> Latest(a, s, k) == Latest(b, s, k)
  {
    CacheHoldsLatest(a, s, k);
    CacheHoldsLatest(b, s, k);
  }

  lemma InStepIff(w: Watch, s: string, k: Key)
    requires Inv(w) && s in Connected(w)
    ensures Agree(Fold(w.client, w.pipe.queue), w.server, s, k) <==> !Missed(w.pipe.offered, w.pipe.refused, s, k)
  {
    assert s in w.names;
    FoldAppend(map[], w.pipe.delivered, w.pipe.queue);
    AgreeIffLatest(Stream(w.pipe), w.pipe.offered, s, k);
    LatestKeptIff(w.pipe.offered, w.pipe.refused, s, k);
  }

  /**
   In every reachable state, whatever was lost, the client is, or will be after what is in flight, out of step with
   the server at a key exactly when the last message for it was refused and would have changed something.
   */
  lemma OutOfStepIffMissed(states: seq<Watch>, steps: seq<Step>, i: nat, s: string, k: Key)
    requires Run(states, steps) && i < |states|
    ensures var w := states[i];
            && w.connected <= |w.names|
            && (s in Connected(w) ==>
                  (Agree(Fold(w.client, w.pipe.queue), w.server, s, k) <==>
                     !Missed(w.pipe.offered, w.pipe.refused, s, k)))
  {
    RunsKeepInv(states, steps, i);
    if s in Connected(states[i]) {
      InStepIff(states[i], s, k);
    }
  }

  /** An emission of a connected signal that finds room brings its key back in step. */
  lemma NextEmissionHeals(states: seq<Watch>, steps: seq<Step>, i: nat)
    requires Run(states, steps) && i < |steps| && steps[i].Emit?
    ensures var w, w', m := states[i], states[i + 1], steps[i].m;
            && w.connected <= |w.names|
            && (m.field in Connected(w) && (w.pipe.capacity > 0 ==> |w.pipe.queue| < w.pipe.capacity) ==>
                  Agree(Fold(w'.client, w'.pipe.queue), w'.server, m.field, KeyOf(m)))
  {
    var w, w', m := states[i], states[i + 1], steps[i].m;
    RunsKeepInv(states, steps, i);
    assert StepTo(w, steps[i], w');
    if m.field in Connected(w) && (w.pipe.capacity > 0 ==> |w.pipe.queue| < w.pipe.capacity) {
      EmitKeepsInv(w, m);
      InStepIff(w', m.field, KeyOf(m));
    }
  }

  // ---- Completion

  /** No message ahead of the marker in the stream is unmapped. */
  ghost predicate MappedUpToMarker(w: Watch) {
    forall i :: 0 <= i < w.markAt && i < |Stream(w.pipe)| ==> Action(Stream(w.pipe)[i]) != NoAction
  }

  /** The client holds the snapshot, brought forward by what was delivered after the marker. */
  ghost predicate PastSnapshot(w: Watch) {
    && |w.pipe.delivered| > w.markAt
    && (forall s :: s in w.names ==> Held(w.client, s) == Held(Fold(w.snapshot, w.pipe.delivered[w.markAt + 1..]), s))
  }

  lemma MarkerDelivered(w: Watch)
    requires Inv(w) && w.pipe.refused == {} && w.marked && |w.pipe.delivered| > w.markAt
    ensures PastSnapshot(w) && w.completed
  {
    AllArrives(w.pipe);
    var stream, after := Stream(w.pipe), w.pipe.delivered[w.markAt + 1..];
    assert w.pipe.delivered[w.markAt] == stream[w.markAt] == MARKER;
    var before := stream[..w.markAt];
    assert w.pipe.delivered == before + [MARKER] + after;
    FoldAppend(map[], before + [MARKER], after);
    FoldSnoc(map[], before, MARKER);
    forall s | s in w.names
      ensures Held(w.client, s) == Held(Fold(w.snapshot, after), s)
    {
      FoldCongruence(Fold(map[], before), w.snapshot, after, s);
    }
  }

  lemma CompletedBeforeMarker(w: Watch)
    requires Inv(w) && w.pipe.refused == {} && w.marked
    ensures |w.pipe.delivered| <= w.markAt && w.completed ==> !MappedUpToMarker(w)
    ensures |w.pipe.delivered| == w.markAt && !MappedUpToMarker(w) ==> w.completed
  {
    AllArrives(w.pipe);
    var stream := Stream(w.pipe);
    assert forall i :: 0 <= i < |w.pipe.delivered| ==> w.pipe.delivered[i] == stream[i];
    if |w.pipe.delivered| <= w.markAt && w.completed {
      var i :| 0 <= i < |w.pipe.delivered| && Action(w.pipe.delivered[i]) == NoAction;
      assert Action(stream[i]) == NoAction;
    }
    if |w.pipe.delivered| == w.markAt && !MappedUpToMarker(w) {
      var i :| 0 <= i < w.markAt && i < |stream| && Action(stream[i]) == NoAction;
      assert Action(w.pipe.delivered[i]) == NoAction;
    }
  }

  /**
   Just before the marker is delivered, the client is already complete exactly when some unmapped
   message precedes the marker.  Once the marker is delivered, the client is complete and holds the
   server's cache at the marker, plus what was delivered since.
   */
  lemma CompletionMeansSnapshotReached(states: seq<Watch>, steps: seq<Step>, i: nat)
    requires Run(states, steps) && i < |states| && states[i].pipe.refused == {} && states[i].marked
    ensures var w := states[i];
            && (MappedUpToMarker(w) && w.completed ==> PastSnapshot(w))
            && (|w.pipe.delivered| > w.markAt ==> w.completed && PastSnapshot(w))
            && (|w.pipe.delivered| == w.markAt ==> (w.completed <==> !MappedUpToMarker(w)))
  {
    RunsKeepInv(states, steps, i);
    CompletedBeforeMarker(states[i]);
    if |states[i].pipe.delivered| > states[i].markAt {
      MarkerDelivered(states[i]);
    }
  }

  /** At the step that delivers the marker, the client holds exactly the server's cache at the marker. */
  lemma MarkerDeliversSnapshot(states: seq<Watch>, steps: seq<Step>, i: nat, s: string)
    requires Run(states, steps) && i < |states| && states[i].pipe.refused == {} && states[i].marked
    requires |states[i].pipe.delivered| == states[i].markAt + 1 && s in states[i].names
    ensures Held(states[i].client, s) == Held(states[i].snapshot, s)
  {
    RunsKeepInv(states, steps, i);
    MarkerDelivered(states[i]);
    assert states[i].pipe.delivered[states[i].markAt + 1..] == [];
  }

  /** Every message that the cache or an emission can put on the stream is mapped. */
  ghost predicate CacheMapped(server: Cache, names: seq<string>) {
    forall s, k :: s in names && k in Held(server, s) ==> Action(Held(server, s)[k]) != NoAction
  }

  ghost predicate StepMapped(w: Watch, step: Step) {
    step.Emit? && step.m.field in w.names ==> Action(step.m) != NoAction
  }

  /** All of what was put is mapped, but for the marker. */
  ghost predicate AllMapped(offered: seq<Message>, marked: bool, markAt: nat) {
    forall i :: 0 <= i < |offered| && (marked ==> i != markAt) ==> Action(offered[i]) != NoAction
  }

  ghost predicate Mapped(w: Watch) {
    CacheMapped(w.server, w.names) && AllMapped(w.pipe.offered, w.marked, w.markAt)
  }

  lemma AllMappedExtends(offered: seq<Message>, marked: bool, markAt: nat, ms: seq<Message>)
    requires AllMapped(offered, marked, markAt)
    requires forall m :: m in ms ==> Action(m) != NoAction
    ensures AllMapped(offered + ms, marked, markAt)
  {
    forall i | 0 <= i < |offered + ms| && (marked ==> i != markAt)
      ensures Action((offered + ms)[i]) != NoAction
    {
      if i >= |offered| {
        assert (offered + ms)[i] == ms[i - |offered|];
      }
    }
  }

  lemma EmitKeepsCacheMapped(server: Cache, names: seq<string>, m: Message)
    requires CacheMapped(server, names) && (m.field in names ==> Action(m) != NoAction)
    ensures CacheMapped(UpdateCache(server, m), names)
  {
    var server' := UpdateCache(server, m);
    if m.field != "" {
      assert Held(server', m.field) == UpdateMap(Held(server, m.field), m);
      assert forall s :: s != m.field ==> Held(server', s) == Held(server, s);
    }
  }

  lemma EmitKeepsMapped(w: Watch, m: Message)
    requires Inv(w) && Mapped(w) && StepMapped(w, Emit(m))
    ensures Mapped(Next(w, Emit(m)))
  {
    EmitKeepsCacheMapped(w.server, w.names, m);
    if m.field in Connected(w) {
      assert m.field in w.names;
      AllMappedExtends(w.pipe.offered, w.marked, w.markAt, [m]);
    }
  }

  lemma ConnectKeepsMapped(w: Watch, keys: seq<Key>)
    requires Inv(w) && Mapped(w) && Enabled(w, ConnectNext(keys))
    ensures Mapped(Next(w, ConnectNext(keys)))
  {
    var s0 := w.names[w.connected];
    var replay := Replay(Held(w.server, s0), keys);
    assert s0 in w.names;
    PutAllArrives(w.pipe, replay);
    AllMappedExtends(w.pipe.offered, w.marked, w.markAt, replay);
  }

  lemma StepKeepsMapped(w: Watch, step: Step, w': Watch)
    requires Inv(w) && StepTo(w, step, w') && StepMapped(w, step) && Mapped(w)
    ensures Mapped(w')
  {
    match step
    case Emit(m) => EmitKeepsMapped(w, m);
    case ConnectNext(keys) => ConnectKeepsMapped(w, keys);
    case EnqueueMarker => assert forall i :: 0 <= i < |w.pipe.offered| ==> w'.pipe.offered[i] == w.pipe.offered[i];
    case Deliver =>
  }

  /** A run in which every message for the stream carries a mapping action. */
  ghost predicate MappedRun(states: seq<Watch>, steps: seq<Step>) {
    && Run(states, steps)
    && CacheMapped(states[0].server, states[0].names)
    && forall i :: 0 <= i < |steps| ==> StepMapped(states[i], steps[i])
  }

  lemma {:induction false} MappedRunsStayMapped(states: seq<Watch>, steps: seq<Step>, i: nat)
    requires MappedRun(states, steps) && i < |states|
    ensures Mapped(states[i])
  {
    if i > 0 {
      MappedRunsStayMapped(states, steps, i - 1);
      RunsKeepInv(states, steps, i - 1);
      StepKeepsMapped(states[i - 1], steps[i - 1], states[i]);
    }
  }

  /**
   When every signal on the stream carries a mapping action, the client's completion event is set only
   by the marker; and if nothing was lost, only once the client's cache has reached the server's cache at the marker.
   */
  lemma CompletionIsSound(states: seq<Watch>, steps: seq<Step>, i: nat)
    requires MappedRun(states, steps) && i < |states| && states[i].completed
    ensures states[i].marked && states[i].markAt !in states[i].pipe.refused
    ensures states[i].pipe.refused == {} ==> PastSnapshot(states[i])
  {
    var w := states[i];
    RunsKeepInv(states, steps, i);
    MappedRunsStayMapped(states, steps, i);
    var n :| 0 <= n < |w.pipe.delivered| && Action(w.pipe.delivered[n]) == NoAction;
    var j := KeptFrom(w.pipe.offered, w.pipe.refused, n);
    assert Stream(w.pipe)[n] == w.pipe.delivered[n];
    if w.pipe.refused == {} {
      AllArrives(w.pipe);
      assert w.pipe.offered[n] == w.pipe.delivered[n];
      MarkerDelivered(w);
    }
  }

  const EVENT := Message("time", Payload("noon"), Recognized(NoAction), "")
  const LAMP := Message("lamp", Payload("on"), Recognized(Addition), "hall")

  /** A watch of an event signal and a mapping signal, one of each being cached. */
  function EventAndLamp(): Watch {
    Watch(map["time" := map[Unkeyed := EVENT], "lamp" := map[Named("hall") := LAMP]], ["time", "lamp"], 0, false,
          Pipe(0, [], [], [], {}), map[], false, map[], 0)
  }

  lemma EventAndLampConnected() returns (states: seq<Watch>, steps: seq<Step>)
    ensures Run(states, steps) && |steps| == 2
    ensures states[2] == EventAndLamp().(connected := 2, pipe := Pipe(0, [EVENT, LAMP], [], [EVENT, LAMP], {}))
  {
    var w0 := EventAndLamp();
    assert Start(w0);
    var w1 := w0.(connected := 1, pipe := Put(w0.pipe, EVENT));
    ConnectOne(w0, Unkeyed, EVENT, w1);
    ConnectOne(w1, Named("hall"), LAMP, w1.(connected := 2, pipe := Put(w1.pipe, LAMP)));
    states, steps := Extended([w0], [], ConnectNext([Unkeyed]), w1);
    states, steps := Extended(states, steps, ConnectNext([Named("hall")]),
                              w1.(connected := 2, pipe := Put(w1.pipe, LAMP)));
  }

  /** An event signal, which carries no mapping action, completes the snapshot before it is there. */
  lemma EventSignalCompletesEarly() returns (states: seq<Watch>, steps: seq<Step>)
    ensures Run(states, steps)
    ensures var w := states[|steps|];
            w.pipe.refused == {} && w.marked && w.completed &&
            "lamp" in w.names && Held(w.client, "lamp") != Held(w.snapshot, "lamp")
  {
    states, steps := EventAndLampConnected();
    var w3 := Next(states[2], EnqueueMarker);
    states, steps := Extended(states, steps, EnqueueMarker, w3);
    states, steps := Extended(states, steps, Deliver, Next(w3, Deliver));
    assert LAMP == Held(w3.snapshot, "lamp")[Named("hall")];
  }

  lemma Extended(states: seq<Watch>, steps: seq<Step>, step: Step, next: Watch)
      returns (states': seq<Watch>, steps': seq<Step>)
    requires Run(states, steps) && StepTo(states[|steps|], step, next)
    ensures Run(states', steps') && states' == states + [next] && steps' == steps + [step]
  {
    states', steps' := states + [next], steps + [step];
  }

  lemma ConnectOne(w: Watch, k: Key, m: Message, w': Watch)
    requires w.connected < |w.names| && Held(w.server, w.names[w.connected]) == map[k := m] && w.pipe.capacity == 0
    requires w' == w.(connected := w.connected + 1, pipe := Put(w.pipe, m))
    ensures StepTo(w, ConnectNext([k]), w')
  {
    assert Replay(map[k := m], [k]) == [m];
    assert PutAll(w.pipe, [m][..0]) == w.pipe;
  }
}
