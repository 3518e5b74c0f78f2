/**
 A bounded queue whose overflowing puts discard the oldest item.

 The state of a queue also records everything that was put, and how each item that is gone left the queue.  Other
 threads may use the queue at any time, but overflowing puts exclude each other.
 */
module RoundRobins {
  import opened Options
  import opened Collections

  /** How an item left; a discarded one was the oldest of so many that were queued. */
  datatype Exit = Delivered(item: int) | Discarded(item: int, queued: nat)

  datatype State = State(maxSize: int, items: seq<int>, puts: seq<int>, exits: seq<Exit>)

  /** What another thread does; a plain put that finds the queue full has no effect. */
  datatype Action = Get | PlainPut(item: int)

  /** What other threads do between finding the queue full and discarding an item, and until the next attempt. */
  datatype Round = Round(before: seq<Action>, after: seq<Action>)

  /** A size of zero or less is no limit. */
  predicate Full(s: State) {
    s.maxSize > 0 && |s.items| >= s.maxSize
  }

  function Put(s: State, item: int): State {
    s.(items := s.items + [item], puts := s.puts + [item])
  }

  /** The oldest item leaves the queue, if there is one. */
  function Pop(s: State, discard: bool): State {
    if s.items == [] then s
    else
      var item := s.items[0];
      s.(items := s.items[1..], exits := s.exits + [if discard then Discarded(item, |s.items|) else Delivered(item)])
  }

  function Act(s: State, a: Action): State {
    match a
    case Get => Pop(s, false)
    case PlainPut(item) => if Full(s) then s else Put(s, item)
  }

  function ActAll(s: State, actions: seq<Action>): State
    decreases |actions|
  {
    if actions == [] then s else ActAll(Act(s, actions[0]), actions[1..])
  }

  /** An attempt that found the queue full: one item is discarded, while other threads use the queue. */
  function Attempt(s: State, r: Round): State {
    ActAll(Pop(ActAll(s, r.before), true), r.after)
  }

  /**
   A put that discards the oldest item as long as the queue is full, while other threads do what the rounds say; after
   that, they leave the queue alone.
   */
  function Overflowing(s: State, item: int, rounds: seq<Round>): State
    decreases |rounds|, |s.items|
  {
    if !Full(s) then Put(s, item)
    else if rounds == [] then Overflowing(Pop(s, true), item, [])
    else Overflowing(Attempt(s, rounds[0]), item, rounds[1..])
  }

  // ---- What every run keeps

  function Items(exits: seq<Exit>): (r: seq<int>)
    ensures |r| == |exits|
    decreases |exits|
  {
    if exits == [] then [] else Items(exits[..|exits| - 1]) + [exits[|exits| - 1].item]
  }

  /** Every item that was put has left once, or is queued: in the order of the puts, and within the limit. */
  predicate Conserved(s: State) {
    && s.puts == Items(s.exits) + s.items
    && (s.maxSize > 0 ==> |s.items| <= s.maxSize)
  }

  function DiscardCount(exits: seq<Exit>): nat
    decreases |exits|
  {
    if exits == [] then 0
    else DiscardCount(exits[..|exits| - 1]) + if exits[|exits| - 1].Discarded? then 1 else 0
  }

  /** How a state goes on: the limit stays, and histories are only added to. */
  predicate Continues(s: State, t: State) {
    Conserved(t) && t.maxSize == s.maxSize && s.puts <= t.puts && s.exits <= t.exits
  }

  lemma LastExit(exits: seq<Exit>, e: Exit)
    ensures Items(exits + [e]) == Items(exits) + [e.item]
    ensures DiscardCount(exits + [e]) == DiscardCount(exits) + if e.Discarded? then 1 else 0
  {
    assert (exits + [e])[..|exits|] == exits;
  }

  lemma PopConserves(s: State, discard: bool)
    requires Conserved(s)
    ensures Continues(s, Pop(s, discard)) && Pop(s, discard).puts == s.puts
    ensures DiscardCount(Pop(s, discard).exits) ==
            DiscardCount(s.exits) + if discard && s.items != [] then 1 else 0
  {
    if s.items != [] {
      var item := s.items[0];
      LastExit(s.exits, if discard then Discarded(item, |s.items|) else Delivered(item));
      assert s.items == [item] + s.items[1..];
      assert Items(s.exits) + ([item] + s.items[1..]) == Items(s.exits) + [item] + s.items[1..];
    }
  }

  lemma PutConserves(s: State, item: int)
    requires Conserved(s) && !Full(s)
    ensures Continues(s, Put(s, item))
  {
    assert Items(s.exits) + (s.items + [item]) == Items(s.exits) + s.items + [item];
  }

  lemma ActConserves(s: State, a: Action)
    requires Conserved(s)
    ensures Continues(s, Act(s, a)) && DiscardCount(Act(s, a).exits) == DiscardCount(s.exits)
  {
    match a
    case Get => PopConserves(s, false);
    case PlainPut(item) => if !Full(s) { PutConserves(s, item); }
  }

  lemma {:induction false} ActAllConserves(s: State, actions: seq<Action>)
    requires Conserved(s)
    ensures Continues(s, ActAll(s, actions)) && DiscardCount(ActAll(s, actions).exits) == DiscardCount(s.exits)
    decreases |actions|
  {
    if actions != [] {
      ActConserves(s, actions[0]);
      ActAllConserves(Act(s, actions[0]), actions[1..]);
    }
  }

  /** If the queue is full again, at least as many items were put during an attempt as were discarded in it. */
  lemma AttemptConserves(s: State, r: Round)
    requires Conserved(s) && Full(s)
    ensures var t := Attempt(s, r);
            && Continues(s, t)
            && DiscardCount(t.exits) <= DiscardCount(s.exits) + 1
            && (Full(t) ==> DiscardCount(t.exits) - DiscardCount(s.exits) <= |t.puts| - |s.puts|)
  {
    var taken := ActAll(s, r.before);
    var popped := Pop(taken, true);
    ActAllConserves(s, r.before);
    PopConserves(taken, true);
    ActAllConserves(popped, r.after);
    LengthsConserved(s);
    LengthsConserved(Attempt(s, r));
    if taken.items == [] {
      assert popped == taken;
    } else {
      assert |popped.exits| == |taken.exits| + 1;
    }
  }

  lemma LengthsConserved(s: State)
    requires Conserved(s)
    ensures |s.puts| == |s.exits| + |s.items|
  {
  }

  /**
   A put discards nothing unless it finds the queue full, and then no more items than are put meanwhile: one, and
   another one for every plain put of another thread.
   */
  lemma {:induction false} PutRoundrobinConserves(s: State, item: int, rounds: seq<Round>)
    requires Conserved(s)
    ensures var t := Overflowing(s, item, rounds);
            && Continues(s, t) && |s.puts| < |t.puts|
            && t.items != [] && t.items[|t.items| - 1] == t.puts[|t.puts| - 1] == item
            && DiscardCount(t.exits) - DiscardCount(s.exits) <= if Full(s) then |t.puts| - |s.puts| else 0
    decreases |rounds|, |s.items|
  {
    if !Full(s) {
      PutConserves(s, item);
    } else if rounds == [] {
      PopConserves(s, true);
      PutRoundrobinConserves(Pop(s, true), item, []);
    } else {
      AttemptConserves(s, rounds[0]);
      PutRoundrobinConserves(Attempt(s, rounds[0]), item, rounds[1..]);
    }
  }

  /** Other threads that fill every gap make a put discard as many items as it can: the bound is attained. */
  lemma {:induction false} RefillsCostItems(s: State, item: int, n: nat)
    requires Conserved(s) && Full(s)
    ensures var t := Overflowing(s, item, seq(n, i => Round([], [PlainPut(item)])));
            DiscardCount(t.exits) == DiscardCount(s.exits) + n + 1 && |t.puts| == |s.puts| + n + 1
    decreases n
  {
    PopConserves(s, true);
    var rounds := seq(n, i => Round([], [PlainPut(item)]));
    if n == 0 {
      assert Overflowing(s, item, rounds) == Put(Pop(s, true), item);
    } else {
      assert rounds[1..] == seq(n - 1, i => Round([], [PlainPut(item)]));
      assert rounds[0] == Round([], [PlainPut(item)]);
      RefillKeepsFull(s, item);
      RefillsCostItems(Attempt(s, rounds[0]), item, n - 1);
    }
  }

  lemma RefillKeepsFull(s: State, item: int)
    requires Conserved(s) && Full(s)
    ensures Attempt(s, Round([], [PlainPut(item)])) == Put(Pop(s, true), item)
    ensures var t := Put(Pop(s, true), item);
            && Conserved(t) && Full(t)
            && DiscardCount(t.exits) == DiscardCount(s.exits) + 1 && |t.puts| == |s.puts| + 1
  {
    var popped := Pop(s, true);
    PopConserves(s, true);
    PutConserves(popped, item);
    assert [PlainPut(item)][1..] == [];
    assert ActAll(popped, [PlainPut(item)]) == ActAll(Put(popped, item), []);
  }

  // ---- Runs

  datatype Operation = PutItem(item: int, rounds: seq<Round>) | Other(action: Action)

  function Apply(s: State, op: Operation): State {
    match op
    case PutItem(item, rounds) => Overflowing(s, item, rounds)
    case Other(action) => Act(s, action)
  }

  function Run(maxSize: int, ops: seq<Operation>): State
    decreases |ops|
  {
    if ops == [] then State(maxSize, [], [], [])
    else Apply(Run(maxSize, ops[..|ops| - 1]), ops[|ops| - 1])
  }

  /** The items of the overflowing puts. */
  function PutsOf(ops: seq<Operation>): seq<int>
    decreases |ops|
  {
    if ops == [] then []
    else
      var last := ops[|ops| - 1];
      PutsOf(ops[..|ops| - 1]) + if last.PutItem? then [last.item] else []
  }

  function PlainPuts(actions: seq<Action>): seq<int> {
    if actions == [] then []
    else (if actions[0].PlainPut? then [actions[0].item] else []) + PlainPuts(actions[1..])
  }

  function RoundPuts(rounds: seq<Round>): seq<int> {
    if rounds == [] then []
    else PlainPuts(rounds[0].before) + (PlainPuts(rounds[0].after) + RoundPuts(rounds[1..]))
  }

  /** The items of all puts, whether they found room or not. */
  function AllPuts(ops: seq<Operation>): seq<int>
    decreases |ops|
  {
    if ops == [] then []
    else
      var last := ops[|ops| - 1];
      AllPuts(ops[..|ops| - 1]) +
      match last
      case PutItem(item, rounds) => RoundPuts(rounds) + [item]
      case Other(action) => PlainPuts([action])
  }

  /** `xs` is what is left of `ys` without some of its elements. */
  predicate Within(xs: seq<int>, ys: seq<int>)
    decreases |ys|
  {
    || xs == []
    || (ys != [] && Within(xs, ys[..|ys| - 1]))
    || (ys != [] && xs[|xs| - 1] == ys[|ys| - 1] && Within(xs[..|xs| - 1], ys[..|ys| - 1]))
  }

  lemma WithinSnoc(xs: seq<int>, ys: seq<int>, y: int)
    requires Within(xs, ys)
    ensures Within(xs, ys + [y]) && Within(xs + [y], ys + [y])
  {
    assert (ys + [y])[..|ys|] == ys && (xs + [y])[..|xs|] == xs;
  }

  lemma {:induction false} WithinLonger(xs: seq<int>, ys: seq<int>, zs: seq<int>)
    requires Within(xs, ys)
    ensures Within(xs, ys + zs)
    decreases |zs|
  {
    if zs == [] {
      assert ys + zs == ys;
    } else {
      var front := zs[..|zs| - 1];
      WithinLonger(xs, ys, front);
      WithinSnoc(xs, ys + front, zs[|zs| - 1]);
      assert ys + zs == ys + front + [zs[|zs| - 1]];
    }
  }

  lemma {:induction false} WithinSameLength(xs: seq<int>, ys: seq<int>)
    requires Within(xs, ys)
    ensures |xs| <= |ys| && (|xs| == |ys| ==> xs == ys)
    decreases |ys|
  {
    if xs != [] {
      if Within(xs, ys[..|ys| - 1]) {
        WithinSameLength(xs, ys[..|ys| - 1]);
      } else {
        WithinSameLength(xs[..|xs| - 1], ys[..|ys| - 1]);
      }
    }
  }

  lemma {:induction false} ActAllPuts(s: State, actions: seq<Action>, all: seq<int>)
    requires Within(s.puts, all)
    ensures Within(ActAll(s, actions).puts, all + PlainPuts(actions))
    decreases |actions|
  {
    if actions == [] {
      assert all + PlainPuts(actions) == all;
    } else if actions[0].Get? {
      assert PlainPuts(actions) == PlainPuts(actions[1..]);
      ActAllPuts(Act(s, actions[0]), actions[1..], all);
    } else {
      var x := actions[0].item;
      WithinSnoc(s.puts, all, x);
      ActAllPuts(Act(s, actions[0]), actions[1..], all + [x]);
      Associative(all, [x], PlainPuts(actions[1..]));
    }
  }

  lemma AttemptPuts(s: State, r: Round, all: seq<int>)
    requires Within(s.puts, all)
    ensures Within(Attempt(s, r).puts, all + PlainPuts(r.before) + PlainPuts(r.after))
  {
    ActAllPuts(s, r.before, all);
    ActAllPuts(Pop(ActAll(s, r.before), true), r.after, all + PlainPuts(r.before));
  }

  lemma Regrouped(a: seq<int>, b: seq<int>, c: seq<int>, d: seq<int>, e: seq<int>)
    ensures a + b + c + (d + e) == a + (b + (c + d) + e)
  {
    Associative(a + b, c, d + e);
    Associative(a, b, c + (d + e));
    Associative(c, d, e);
    Associative(b, c + d, e);
  }

  lemma {:induction false} OverflowingPuts(s: State, item: int, rounds: seq<Round>, all: seq<int>)
    requires Within(s.puts, all)
    ensures Within(Overflowing(s, item, rounds).puts, all + (RoundPuts(rounds) + [item]))
    decreases |rounds|, |s.items|
  {
    if !Full(s) {
      WithinLonger(s.puts, all, RoundPuts(rounds));
      WithinSnoc(s.puts, all + RoundPuts(rounds), item);
      Associative(all, RoundPuts(rounds), [item]);
    } else if rounds == [] {
      OverflowingPuts(Pop(s, true), item, [], all);
    } else {
      AttemptPuts(s, rounds[0], all);
      var b, a, rest := PlainPuts(rounds[0].before), PlainPuts(rounds[0].after), RoundPuts(rounds[1..]);
      OverflowingPuts(Attempt(s, rounds[0]), item, rounds[1..], all + b + a);
      Regrouped(all, b, a, rest, [item]);
    }
  }

  /** An overflowing put adds its item behind everything that was put before. */
  lemma KeepsPuts(s: State, item: int, rounds: seq<Round>, own: seq<int>)
    requires Conserved(s) && Within(own, s.puts)
    ensures Within(own + [item], Overflowing(s, item, rounds).puts)
  {
    PutRoundrobinConserves(s, item, rounds);
    WithinLast(own, s.puts, Overflowing(s, item, rounds).puts);
  }

  lemma WithinPrefix(own: seq<int>, xs: seq<int>, ys: seq<int>)
    requires Within(own, xs) && xs <= ys
    ensures Within(own, ys)
  {
    WithinLonger(own, xs, ys[|xs|..]);
    assert ys == xs + ys[|xs|..];
  }

  lemma WithinLast(own: seq<int>, xs: seq<int>, ys: seq<int>)
    requires Within(own, xs) && xs <= ys && |xs| < |ys|
    ensures Within(own + [ys[|ys| - 1]], ys)
  {
    var front, y := ys[..|ys| - 1], ys[|ys| - 1];
    assert xs <= front && ys == front + [y];
    WithinPrefix(own, xs, front);
    WithinSnoc(own, front, y);
  }

  /**
   In every run, the items that found room are those that left, in the order in which they left, followed by those
   that are queued: nothing is lost, duplicated or reordered, and the queue stays within its limit.  Overflowing puts
   always find room, so that without plain puts all items do.
   */
  lemma {:induction false} RunsConserve(maxSize: int, ops: seq<Operation>)
    ensures var s := Run(maxSize, ops);
            && Conserved(s) && s.maxSize == maxSize
            && Within(PutsOf(ops), s.puts) && Within(s.puts, AllPuts(ops))
            && (PutsOf(ops) == AllPuts(ops) ==> s.puts == PutsOf(ops))
    decreases |ops|
  {
    if ops != [] {
      var before, op := ops[..|ops| - 1], ops[|ops| - 1];
      RunsConserve(maxSize, before);
      var s := Run(maxSize, before);
      match op
      case PutItem(item, rounds) =>
        PutRoundrobinConserves(s, item, rounds);
        KeepsPuts(s, item, rounds, PutsOf(before));
        OverflowingPuts(s, item, rounds, AllPuts(before));
      case Other(action) =>
        ActKeepsPuts(s, action, PutsOf(before), AllPuts(before));
    }
    WithinSameLength(PutsOf(ops), Run(maxSize, ops).puts);
    WithinSameLength(Run(maxSize, ops).puts, AllPuts(ops));
  }

  lemma ActKeepsPuts(s: State, action: Action, own: seq<int>, all: seq<int>)
    requires Conserved(s) && Within(own, s.puts) && Within(s.puts, all)
    ensures Continues(s, Act(s, action))
    ensures Within(own + [], Act(s, action).puts) && Within(Act(s, action).puts, all + PlainPuts([action]))
  {
    assert [action][1..] == [] && own + [] == own;
    ActConserves(s, action);
    ActAllPuts(s, [action], all);
    assert ActAll(s, [action]) == ActAll(Act(s, action), []) == Act(s, action);
    if action.PlainPut? && !Full(s) {
      WithinSnoc(own, s.puts, action.item);
    }
  }

  // ---- What is discarded

  /** How many items are queued after what other threads do, starting with so many. */
  function Level(level: nat, maxSize: int, actions: seq<Action>): nat
    decreases |actions|
  {
    if actions == [] then level
    else if actions[0].Get? then Level(if level == 0 then 0 else level - 1, maxSize, actions[1..])
    else Level(if maxSize > 0 && level >= maxSize then level else level + 1, maxSize, actions[1..])
  }

  function LevelAfter(level: nat, maxSize: int, r: Round): nat {
    var at := Level(level, maxSize, r.before);
    Level(if at == 0 then 0 else at - 1, maxSize, r.after)
  }

  /** A put finds the queue full and, in some attempt, other threads leave an item to be discarded. */
  predicate Loses(level: nat, maxSize: int, rounds: seq<Round>)
    decreases |rounds|
  {
    && 0 < maxSize <= level
    && (rounds == [] || Level(level, maxSize, rounds[0].before) > 0
        || Loses(LevelAfter(level, maxSize, rounds[0]), maxSize, rounds[1..]))
  }

  /** Whenever a put has found the queue full, other threads leave it full, or empty it, until an item is discarded. */
  predicate Uninterrupted(level: nat, maxSize: int, rounds: seq<Round>)
    decreases |rounds|
  {
    0 < maxSize <= level && rounds != [] ==>
      && Level(level, maxSize, rounds[0].before) in {0, maxSize}
      && Uninterrupted(LevelAfter(level, maxSize, rounds[0]), maxSize, rounds[1..])
  }

  predicate SomeDiscarded(exits: seq<Exit>, from: nat) {
    exists i :: from <= i < |exits| && exits[i].Discarded?
  }

  predicate FromFullOnly(exits: seq<Exit>, from: nat, maxSize: int) {
    forall i :: from <= i < |exits| && exits[i].Discarded? ==> exits[i].queued == maxSize
  }

  lemma DiscardsSplit(a: seq<Exit>, b: seq<Exit>, from: nat, maxSize: int)
    requires a <= b && from <= |a|
    ensures SomeDiscarded(b, from) <==> SomeDiscarded(a, from) || SomeDiscarded(b, |a|)
    ensures FromFullOnly(b, from, maxSize) <==> FromFullOnly(a, from, maxSize) && FromFullOnly(b, |a|, maxSize)
  {
    assert forall i :: 0 <= i < |a| ==> a[i] == b[i];
    if SomeDiscarded(a, from) {
      var i :| from <= i < |a| && a[i].Discarded?;
      assert b[i].Discarded?;
    }
    if SomeDiscarded(b, from) && !SomeDiscarded(b, |a|) {
      var i :| from <= i < |b| && b[i].Discarded?;
      assert a[i].Discarded?;
    }
  }

  /** How many items other threads leave depends on how many there were. */
  lemma {:induction false} ActAllLevel(s: State, actions: seq<Action>)
    ensures |ActAll(s, actions).items| == Level(|s.items|, s.maxSize, actions)
    decreases |actions|
  {
    if actions != [] {
      ActAllLevel(Act(s, actions[0]), actions[1..]);
    }
  }

  predicate NoneDiscarded(exits: seq<Exit>, from: nat) {
    forall i :: from <= i < |exits| ==> exits[i].Delivered?
  }

  lemma {:induction false} ActAllDelivers(s: State, actions: seq<Action>)
    ensures s.exits <= ActAll(s, actions).exits && NoneDiscarded(ActAll(s, actions).exits, |s.exits|)
    decreases |actions|
  {
    if actions != [] {
      var acted := Act(s, actions[0]);
      ActAllDelivers(acted, actions[1..]);
      assert forall i :: 0 <= i < |acted.exits| ==> ActAll(s, actions).exits[i] == acted.exits[i];
    }
  }

  lemma PopDiscards(s: State)
    requires Conserved(s)
    ensures var t := Pop(s, true);
            && |t.items| == (if s.items == [] then 0 else |s.items| - 1)
            && (SomeDiscarded(t.exits, |s.exits|) <==> s.items != [])
            && (FromFullOnly(t.exits, |s.exits|, s.maxSize) <==> s.items == [] || |s.items| == s.maxSize)
  {
    if s.items != [] {
      assert Pop(s, true).exits[|s.exits|] == Discarded(s.items[0], |s.items|);
    }
  }

  lemma AttemptDiscardsIff(s: State, r: Round)
    requires Conserved(s)
    ensures var t, at := Attempt(s, r), Level(|s.items|, s.maxSize, r.before);
            && |t.items| == LevelAfter(|s.items|, s.maxSize, r)
            && (SomeDiscarded(t.exits, |s.exits|) <==> at > 0)
            && (FromFullOnly(t.exits, |s.exits|, s.maxSize) <==> at in {0, s.maxSize})
            && Continues(s, t)
  {
    var taken, t := ActAll(s, r.before), Attempt(s, r);
    var popped := Pop(taken, true);
    ActAllConserves(s, r.before);
    ActAllDelivers(s, r.before);
    ActAllLevel(s, r.before);
    PopConserves(taken, true);
    PopDiscards(taken);
    ActAllConserves(popped, r.after);
    ActAllDelivers(popped, r.after);
    ActAllLevel(popped, r.after);
    DiscardsSplit(taken.exits, popped.exits, |s.exits|, s.maxSize);
    DiscardsSplit(popped.exits, t.exits, |s.exits|, s.maxSize);
  }

  /**
   A put discards an item exactly when it finds the queue full and other threads do not empty it in the meantime; it
   discards from a full queue only, exactly when in the meantime they leave no room other than by emptying it.
   */
  lemma {:induction false} PutDiscardsIff(s: State, item: int, rounds: seq<Round>)
    requires Conserved(s)
    ensures var t := Overflowing(s, item, rounds);
            && (SomeDiscarded(t.exits, |s.exits|) <==> Loses(|s.items|, s.maxSize, rounds))
            && (FromFullOnly(t.exits, |s.exits|, s.maxSize) <==> Uninterrupted(|s.items|, s.maxSize, rounds))
            && Continues(s, t)
    decreases |rounds|
  {
    PutRoundrobinConserves(s, item, rounds);
    if Full(s) {
      var next := if rounds == [] then Pop(s, true) else Attempt(s, rounds[0]);
      var t := Overflowing(s, item, rounds);
      if rounds == [] {
        PopConserves(s, true);
        PopDiscards(s);
        assert t == Put(next, item);
      } else {
        AttemptDiscardsIff(s, rounds[0]);
        PutDiscardsIff(next, item, rounds[1..]);
        PutRoundrobinConserves(next, item, rounds[1..]);
      }
      DiscardsSplit(next.exits, t.exits, |s.exits|, s.maxSize);
    }
  }

  lemma {:induction false} GetsLower(level: nat, maxSize: int, gets: seq<Action>)
    requires forall i :: 0 <= i < |gets| ==> gets[i].Get?
    ensures Level(level, maxSize, gets) == if |gets| < level then level - |gets| else 0
    decreases |gets|
  {
    if gets != [] {
      GetsLower(if level == 0 then 0 else level - 1, maxSize, gets[1..]);
    }
  }

  /** If other threads only get items, that depends on how many they get before an item is discarded. */
  lemma PutAmidGetsDiscardsIff(s: State, item: int, r: Round)
    requires Conserved(s) && forall a :: a in r.before + r.after ==> a.Get?
    ensures var t := Overflowing(s, item, [r]);
            && (SomeDiscarded(t.exits, |s.exits|) <==> Full(s) && |r.before| < |s.items|)
            && (FromFullOnly(t.exits, |s.exits|, s.maxSize) <==>
                (Full(s) ==> r.before == [] || |r.before| >= |s.items|))
  {
    PutDiscardsIff(s, item, [r]);
    var at := Level(|s.items|, s.maxSize, r.before);
    assert forall i :: 0 <= i < |r.before| ==> r.before[i] in r.before + r.after;
    assert forall i :: 0 <= i < |r.after| ==> r.after[i] in r.before + r.after;
    GetsLower(|s.items|, s.maxSize, r.before);
    GetsLower(if at == 0 then 0 else at - 1, s.maxSize, r.after);
  }

  /** No put of a run was interrupted by other threads that left some of the items. */
  predicate UninterruptedRun(maxSize: int, ops: seq<Operation>)
    decreases |ops|
  {
    ops == [] ||
    var s, op := Run(maxSize, ops[..|ops| - 1]), ops[|ops| - 1];
    && UninterruptedRun(maxSize, ops[..|ops| - 1])
    && (op.PutItem? ==> Uninterrupted(|s.items|, maxSize, op.rounds))
  }

  /** Items are discarded from a full queue only, exactly when no put is interrupted before it discards. */
  lemma {:induction false} DiscardsOnlyWhenFullIff(maxSize: int, ops: seq<Operation>)
    ensures FromFullOnly(Run(maxSize, ops).exits, 0, maxSize) <==> UninterruptedRun(maxSize, ops)
    decreases |ops|
  {
    if ops != [] {
      var before, op := ops[..|ops| - 1], ops[|ops| - 1];
      DiscardsOnlyWhenFullIff(maxSize, before);
      RunsConserve(maxSize, before);
      var s := Run(maxSize, before);
      match op {
        case PutItem(item, rounds) => PutDiscardsIff(s, item, rounds);
        case Other(action) => ActDiscardsNothing(s, action);
      }
      DiscardsSplit(s.exits, Run(maxSize, ops).exits, 0, maxSize);
    }
  }

  lemma ActDiscardsNothing(s: State, action: Action)
    requires Conserved(s)
    ensures Continues(s, Act(s, action)) && FromFullOnly(Act(s, action).exits, |s.exits|, s.maxSize)
  {
    ActConserves(s, action);
  }

  /** An item is lost although the queue had room, when another thread gets one just before. */
  lemma InterruptedPutDiscardsWithRoom()
    ensures var s := Run(2, [PutItem(1, []), PutItem(2, []), PutItem(3, [Round([Get], [])])]);
            s.exits == [Delivered(1), Discarded(2, 1)] && s.items == [3] && !FromFullOnly(s.exits, 0, 2)
  {
    var r := Round([Get], []);
    var a, b, c := PutItem(1, []), PutItem(2, []), PutItem(3, [r]);
    assert [a, b, c][..2] == [a, b] && [a, b][..1] == [a] && [a][..0] == [];
    assert Run(2, [a]) == State(2, [1], [1], []);
    var full := Run(2, [a, b]);
    assert full == State(2, [1, 2], [1, 2], []);
    GetOneOfTwo(full, r);
    assert [r][1..] == [];
    var s := Run(2, [a, b, c]);
    assert s == Overflowing(full, 3, [r]) == Overflowing(Attempt(full, r), 3, []);
    assert s.exits[1] == Discarded(2, 1);
  }

  lemma GetOneOfTwo(s: State, r: Round)
    requires s == State(2, [1, 2], [1, 2], []) && r == Round([Get], [])
    ensures Attempt(s, r) == State(2, [], [1, 2], [Delivered(1), Discarded(2, 1)])
  {
    assert [Get][1..] == [];
    assert ActAll(s, [Get]) == ActAll(State(2, [2], [1, 2], [Delivered(1)]), []);
  }

  // ---- How many items are newer than a discarded one

  predicate NoGets(actions: seq<Action>) {
    forall i :: 0 <= i < |actions| ==> actions[i].PlainPut?
  }

  predicate NoneGotBeforeDiscards(rounds: seq<Round>) {
    forall i :: 0 <= i < |rounds| ==> NoGets(rounds[i].before)
  }

  /** At least so many items more than fill the queue were put after every discarded one. */
  predicate NewerItems(s: State, margin: nat) {
    forall i :: 0 <= i < |s.exits| && s.exits[i].Discarded? ==> 0 < s.maxSize && i + s.maxSize + margin <= |s.puts|
  }

  lemma {:induction false} FullStaysFull(s: State, actions: seq<Action>)
    requires Full(s) && NoGets(actions)
    ensures ActAll(s, actions) == s
    decreases |actions|
  {
    if actions != [] {
      FullStaysFull(s, actions[1..]);
    }
  }

  lemma NewerItemsLast(s: State, t: State, margin: nat)
    requires s.exits <= t.exits && NoneDiscarded(t.exits, |s.exits|)
    requires t.maxSize == s.maxSize && |s.puts| <= |t.puts| && NewerItems(s, margin)
    ensures NewerItems(t, margin)
  {
    assert forall i :: 0 <= i < |s.exits| ==> t.exits[i] == s.exits[i];
  }

  lemma DeliveriesKeepNewerItems(s: State, actions: seq<Action>)
    requires Conserved(s) && NewerItems(s, 0)
    ensures NewerItems(ActAll(s, actions), 0)
  {
    ActAllConserves(s, actions);
    ActAllDelivers(s, actions);
    NewerItemsLast(s, ActAll(s, actions), 0);
  }

  lemma DiscardKeepsNewerItems(s: State)
    requires Conserved(s) && Full(s) && NewerItems(s, 0)
    ensures Conserved(Pop(s, true)) && NewerItems(Pop(s, true), 0)
  {
    PopConserves(s, true);
    LengthsConserved(s);
  }

  lemma AttemptKeepsNewerItems(s: State, r: Round)
    requires Conserved(s) && Full(s) && NewerItems(s, 0) && NoGets(r.before)
    ensures Conserved(Attempt(s, r)) && NewerItems(Attempt(s, r), 0)
  {
    FullStaysFull(s, r.before);
    DiscardKeepsNewerItems(s);
    ActAllConserves(Pop(s, true), r.after);
    DeliveriesKeepNewerItems(Pop(s, true), r.after);
  }

  lemma {:induction false} PutKeepsNewerItems(s: State, item: int, rounds: seq<Round>)
    requires Conserved(s) && NewerItems(s, 0) && NoneGotBeforeDiscards(rounds)
    ensures NewerItems(Overflowing(s, item, rounds), 1)
    decreases |rounds|, |s.items|
  {
    if Full(s) {
      if rounds == [] {
        DiscardKeepsNewerItems(s);
        PutKeepsNewerItems(Pop(s, true), item, []);
      } else {
        AttemptKeepsNewerItems(s, rounds[0]);
        PutKeepsNewerItems(Attempt(s, rounds[0]), item, rounds[1..]);
      }
    }
  }

  /** When no other thread gets items before a put discards one, a whole queue of newer items was put after it. */
  lemma {:induction false} DiscardsOnlyWhenFull(maxSize: int, ops: seq<Operation>)
    requires forall i :: 0 <= i < |ops| && ops[i].PutItem? ==> NoneGotBeforeDiscards(ops[i].rounds)
    ensures NewerItems(Run(maxSize, ops), 1)
    decreases |ops|
  {
    if ops != [] {
      var before, op := ops[..|ops| - 1], ops[|ops| - 1];
      DiscardsOnlyWhenFull(maxSize, before);
      RunsConserve(maxSize, before);
      match op
      case PutItem(item, rounds) => PutKeepsNewerItems(Run(maxSize, before), item, rounds);
      case Other(action) => ActKeepsNewerItems(Run(maxSize, before), action);
    }
  }

  lemma ActDelivers(s: State, action: Action)
    ensures var t := Act(s, action);
            && s.exits <= t.exits && NoneDiscarded(t.exits, |s.exits|)
            && t.maxSize == s.maxSize && |s.puts| <= |t.puts|
  {
  }

  lemma ActKeepsNewerItems(s: State, action: Action)
    requires NewerItems(s, 1)
    ensures NewerItems(Act(s, action), 1)
  {
    ActDelivers(s, action);
    NewerItemsLast(s, Act(s, action), 1);
  }

  // ---- The queue

  class Queue {
    const maxSize: int
    var items: seq<int>
    ghost var puts: seq<int>
    ghost var exits: seq<Exit>

    ghost function View(): State
      reads this
    {
      State(maxSize, items, puts, exits)
    }

    constructor (size: int)
      ensures View() == Run(size, [])
    {
      maxSize := size;
      items, puts, exits := [], [], [];
    }

    /** Puts an item, unless the queue is full. */
    method PutNowait(item: int) returns (ok: bool)
      modifies this
      ensures ok == !old(Full(View()))
      ensures View() == if ok then Put(old(View()), item) else old(View())
    {
      ok := !(maxSize > 0 && |items| >= maxSize);
      if ok {
        items := items + [item];
        puts := puts + [item];
      }
    }

    /** Gets the oldest item, unless the queue is empty; `discard` only records what becomes of it. */
    method GetNowait(ghost discard: bool) returns (item: Option<int>)
      modifies this
      ensures item == if old(items) == [] then None else Some(old(items)[0])
      ensures View() == Pop(old(View()), discard)
    {
      if items == [] {
        item := None;
      } else {
        item := Some(items[0]);
        exits := exits + [if discard then Discarded(items[0], |items|) else Delivered(items[0])];
        items := items[1..];
      }
    }

    /** What other threads do in the meantime. */
    method OthersAct(actions: seq<Action>)
      modifies this
      ensures View() == ActAll(old(View()), actions)
    {
      ghost var start := View();
      for i := 0 to |actions|
        invariant ActAll(View(), actions[i..]) == ActAll(start, actions)
      {
        assert actions[i..][1..] == actions[i + 1..];
        match actions[i] {
          case Get => var item := GetNowait(false);
          case PlainPut(item) => var ok := PutNowait(item);
        }
      }
    }

    /** Puts an item; as long as the queue is full, the oldest item is discarded. */
    method PutRoundrobin(item: int, rounds: seq<Round>)
      requires Conserved(View())
      modifies this
      ensures View() == Overflowing(old(View()), item, rounds)
      ensures Conserved(View())
    {
      ghost var start := View();
      PutRoundrobinConserves(start, item, rounds);
      var sent, rest := false, rounds;
      while !sent
        invariant sent ==> View() == Overflowing(start, item, rounds)
        invariant !sent ==> Overflowing(View(), item, rest) == Overflowing(start, item, rounds)
        decreases !sent, |rest|, |items|
      {
        sent := PutNowait(item);
        if !sent {
          if rest == [] {
            var oldest := GetNowait(true);
          } else {
            OthersAct(rest[0].before);
            var oldest := GetNowait(true);
            OthersAct(rest[0].after);
            rest := rest[1..];
          }
        }
      }
    }
  }
}
