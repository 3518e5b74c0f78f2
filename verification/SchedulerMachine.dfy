/**
 The task scheduler as a state machine.

 Each registration of a task runs in a thread of its own (an incarnation), which blocks on a lock of its
 own.  The locks sit in a table of time slots; a timer thread pops the slot that is due and releases the
 locks in it.  Every step below is one critical section of the program, or one action of a thread
 between two of them.
 */
module SchedulerMachine {
  import opened Ticks
  import opened Alignment

  const MAX_SLEEP := 0.1
  const TIME_SHIFT_LIMIT := 5.0

  /** How often a task is to be invoked. */
  datatype Repeats = Forever | Times(n: int)

  /** Where an incarnation's thread is. */
  datatype Phase =
    | Waiting       // about to acquire, or blocked on, its lock
    | Checking      // it has its lock, and is about to look whether it is still the registered one
    | Invoking      // inside the task's method
    | Rescheduling  // about to register its lock for the next invocation
    | Exiting       // out of its loop
    | Finished

  /** One incarnation.  `outcomes`, `releases` and `slots` record its history. */
  datatype Incarnation = Incarnation(
    handle: string,
    frequency: int,      // ticks between invocations
    maxRetries: int,
    repeats: Repeats,    // as requested
    remaining: Repeats,  // what is left of it
    failures: int,       // consecutive
    nextSlot: int,
    phase: Phase,
    locked: bool,
    outcomes: seq<bool>, // of the invocations so far
    releases: nat,       // how often the timer has released the lock
    slots: seq<int>)     // the slots it has registered

  type Table = map<int, seq<nat>>

  datatype State = State(
    nextCount: int,             // the slot to be popped next
    startTime: real,
    nextTime: real,             // the deadline of the timer's current sleep
    table: Table,
    tasks: map<string, nat>,    // the registered incarnation of each handle
    threads: seq<Incarnation>)  // all incarnations, the current and the former ones

  datatype Request = Request(
    handle: string, interval: real, repeats: Repeats, maxRetries: int, alignment: Alignment, delay: real)

  // ---- The table of slots

  function LocksAt(table: Table, slot: int): seq<nat> {
    if slot in table then table[slot] else []
  }

  function Append(table: Table, slot: int, id: nat): Table {
    table[slot := LocksAt(table, slot) + [id]]
  }

  function RemoveFirst(ids: seq<nat>, id: nat): seq<nat> {
    if ids == [] then [] else if ids[0] == id then ids[1..] else [ids[0]] + RemoveFirst(ids[1..], id)
  }

  function ClearSlot(table: Table, slot: int, id: nat): Table {
    if slot in table then table[slot := RemoveFirst(table[slot], id)] else table
  }

  ghost predicate NoDuplicates(ids: seq<nat>) {
    forall i, j :: 0 <= i < j < |ids| ==> ids[i] != ids[j]
  }

  ghost predicate IsLeast(least: int, keys: set<int>) {
    least in keys && forall k :: k in keys ==> least <= k
  }

  lemma {:induction false} LeastExists(keys: set<int>)
    requires keys != {}
    ensures exists least :: IsLeast(least, keys)
    decreases |keys|
  {
    assert (forall k :: k !in keys) ==> keys == {};
    var k: int :| k in keys;
    var rest := keys - {k};
    if rest == {} {
      assert keys == {k};
      assert IsLeast(k, keys);
    } else {
      LeastExists(rest);
      var least :| IsLeast(least, rest);
      assert forall x :: x in keys ==> x == k || x in rest;
      assert IsLeast(if k < least then k else least, keys);
    }
  }

  /** The earliest occupied slot, but no later than `limit`. */
  ghost function Earliest(table: Table, limit: int): (slot: int)
    ensures slot <= limit && (forall k :: k in table ==> slot <= k) && (slot == limit || slot in table)
  {
    if table.Keys == {} then limit
    else
      LeastExists(table.Keys);
      var least :| IsLeast(least, table.Keys);
      if least < limit then least else limit
  }

  // ---- Steps

  datatype Step =
    | Add(request: Request)
    | Remove(handle: string)
    | Timer(now: real)
    | Wake(id: nat)
    | Check(id: nat)
    | Finish(id: nat, success: bool)
    | Reschedule(id: nat)
    | Exit(id: nat)

  predicate IsCurrent(s: State, id: nat) {
    id < |s.threads| && s.threads[id].handle in s.tasks && s.tasks[s.threads[id].handle] == id
  }

  /** The head of an incarnation's loop: it goes on while invocations remain. */
  function LoopHead(remaining: Repeats): Phase {
    if remaining.Times? && remaining.n <= 0 then Exiting else Waiting
  }

  function CountDown(remaining: Repeats): Repeats {
    if remaining.Times? && remaining.n != 0 then Times(remaining.n - 1) else remaining
  }

  function NewThread(r: Request, slot: int): Incarnation {
    Incarnation(r.handle, Frequency(r.interval), r.maxRetries, r.repeats, r.repeats, 0, slot,
                LoopHead(r.repeats), true, [], 0, [slot])
  }

  /**
   Adding raises after the table of tasks has been updated, and before a slot is registered, when it
   finds the lock of the incarnation it replaces released, or divides by a zero interval to align.
   */
  predicate AddRaises(s: State, r: Request) {
    || (r.handle in s.tasks && s.tasks[r.handle] < |s.threads| && !s.threads[s.tasks[r.handle]].locked)
    || (r.alignment.AlignedTo? && r.interval == 0.0)
  }

  function Released(threads: seq<Incarnation>, id: nat): seq<Incarnation> {
    if id < |threads| then threads[id := threads[id].(locked := false)] else threads
  }

  /** Take a handle out of the table of tasks, and release the lock of its incarnation. */
  function Retire(s: State, handle: string): State {
    if handle in s.tasks then
      s.(tasks := s.tasks - {handle}, threads := Released(s.threads, s.tasks[handle]))
    else s
  }

  /** Register a new incarnation for a handle that has none. */
  function Register(s: State, t: Incarnation): State {
    s.(tasks := s.tasks[t.handle := |s.threads|],
       threads := s.threads + [t],
       table := Append(s.table, t.nextSlot, |s.threads|))
  }

  /** What is left registered when adding raises: an incarnation that has ended, and has never had a slot. */
  function Orphan(r: Request, slot: int): Incarnation {
    NewThread(r, slot).(phase := Finished, slots := [])
  }

  function AddStep(s: State, r: Request): State {
    var s1 := Retire(s, r.handle);
    if AddRaises(s, r) then
      s1.(tasks := s1.tasks[r.handle := |s.threads|],
          threads := s1.threads + [Orphan(r, s.nextCount)])
    else
      Register(s1, NewThread(r, FirstSlot(s.nextCount, s.startTime, r.interval, r.alignment, r.delay)))
  }

  function RemoveStep(s: State, handle: string): State {
    if handle in s.tasks && s.tasks[handle] < |s.threads| then
      var id := s.tasks[handle];
      Retire(s, handle).(table := ClearSlot(s.table, s.threads[id].nextSlot, id))
    else s
  }

  function TimerReleased(t: Incarnation): Incarnation {
    t.(locked := false, releases := t.releases + 1)
  }

  function ReleaseAll(threads: seq<Incarnation>, ids: seq<nat>): (r: seq<Incarnation>)
    ensures |r| == |threads|
  {
    seq(|threads|, id requires 0 <= id < |threads| => if id in ids then TimerReleased(threads[id]) else threads[id])
  }

  /** The reference time, moved along when the clock is found to have been shifted. */
  function Rebased(startTime: real, nextTime: real, now: real): real {
    if now - nextTime > TIME_SHIFT_LIMIT || nextTime - now > TIME_SHIFT_LIMIT then startTime + (now - nextTime)
    else startTime
  }

  ghost function TimerStep(s: State, now: real): State {
    var table := s.table - {s.nextCount};
    var startTime := Rebased(s.startTime, s.nextTime, now);
    var nextCount := Earliest(table, TickCount(now + MAX_SLEEP - startTime));
    s.(threads := ReleaseAll(s.threads, LocksAt(s.table, s.nextCount)), table := table,
       startTime := startTime, nextCount := nextCount, nextTime := SlotTime(startTime, nextCount))
  }

  function FinishOne(t: Incarnation, success: bool): Incarnation {
    var t1 := t.(outcomes := t.outcomes + [success], failures := if success then 0 else t.failures + 1);
    if !success && t1.failures > t.maxRetries then t1.(phase := Exiting)
    else t1.(phase := Rescheduling, remaining := CountDown(t.remaining))
  }

  function RescheduleStep(s: State, id: nat): State
    requires id < |s.threads| && s.threads[id].frequency >= 1
  {
    var t := s.threads[id];
    var slot := NextSlot(t.nextSlot, t.frequency, s.nextCount);
    s.(threads := s.threads[id := t.(nextSlot := slot, slots := t.slots + [slot], phase := LoopHead(t.remaining))],
       table := Append(s.table, slot, id))
  }

  function ExitStep(s: State, id: nat): State
    requires id < |s.threads|
  {
    var t := s.threads[id];
    s.(threads := s.threads[id := t.(phase := Finished)],
       tasks := if IsCurrent(s, id) then s.tasks - {t.handle} else s.tasks)
  }

  predicate Enabled(s: State, step: Step) {
    match step
    case Add(_) => true
    case Remove(_) => true
    case Timer(now) => now >= s.nextTime || s.nextTime - now > TIME_SHIFT_LIMIT
    case Wake(id) => id < |s.threads| && s.threads[id].phase.Waiting? && !s.threads[id].locked
    case Check(id) => id < |s.threads| && s.threads[id].phase.Checking?
    case Finish(id, _) => id < |s.threads| && s.threads[id].phase.Invoking?
    case Reschedule(id) => id < |s.threads| && s.threads[id].phase.Rescheduling? && s.threads[id].frequency >= 1
    case Exit(id) => id < |s.threads| && s.threads[id].phase.Exiting?
  }

  ghost function Next(s: State, step: Step): State
    requires Enabled(s, step)
  {
    match step
    case Add(r) => AddStep(s, r)
    case Remove(handle) => RemoveStep(s, handle)
    case Timer(now) => TimerStep(s, now)
    case Wake(id) => s.(threads := s.threads[id := s.threads[id].(locked := true, phase := Checking)])
    case Check(id) =>
      s.(threads := s.threads[id := s.threads[id].(phase := if IsCurrent(s, id) then Invoking else Exiting)])
    case Finish(id, success) => s.(threads := s.threads[id := FinishOne(s.threads[id], success)])
    case Reschedule(id) => RescheduleStep(s, id)
    case Exit(id) => ExitStep(s, id)
  }

  function InitialState(now: real): State {
    State(0, now, now, map[], map[], [])
  }

  // ---- Invocations and failures

  /** The number of failures at the end of a sequence of outcomes. */
  function Trailing(outcomes: seq<bool>): nat {
    if outcomes == [] || outcomes[|outcomes| - 1] then 0 else 1 + Trailing(outcomes[..|outcomes| - 1])
  }

  /** A task is over once it has been invoked as often as requested, or has failed too often in a row. */
  predicate StopsAt(repeats: Repeats, maxRetries: int, outcomes: seq<bool>) {
    || (repeats.Times? && |outcomes| >= repeats.n)
    || (outcomes != [] && !outcomes[|outcomes| - 1] && Trailing(outcomes) > maxRetries)
  }

  ghost predicate GoesOnBefore(repeats: Repeats, maxRetries: int, outcomes: seq<bool>) {
    forall n :: 0 <= n < |outcomes| ==> !StopsAt(repeats, maxRetries, outcomes[..n])
  }

  /** What is left of the requested number of invocations after `n` of them. */
  function Left(repeats: Repeats, n: nat): Repeats {
    if repeats.Times? then Times(repeats.n - n) else Forever
  }

  function Started(t: Incarnation): nat {
    |t.outcomes| + if t.phase.Invoking? then 1 else 0
  }

  // ---- The invariant

  /** The record of an incarnation: its slots lie on one grid, its counters agree with its outcomes. */
  ghost predicate Recorded(t: Incarnation) {
    && t.frequency >= 1
    && (!t.phase.Finished? ==> t.slots != [])
    && (t.slots != [] ==> t.slots[|t.slots| - 1] == t.nextSlot)
    && (forall i, j :: 0 <= i < j < |t.slots| ==> t.slots[i] <= t.slots[j])
    && (forall i :: 0 <= i < |t.slots| ==> OnGrid(t.slots[0], t.frequency, t.slots[i]))
    && t.failures == Trailing(t.outcomes)
    && GoesOnBefore(t.repeats, t.maxRetries, t.outcomes)
    && (t.phase.Waiting? || t.phase.Checking? || t.phase.Invoking? ==>
          && !StopsAt(t.repeats, t.maxRetries, t.outcomes)
          && t.remaining == Left(t.repeats, |t.outcomes|))
    && (t.phase.Rescheduling? ==>
          && (t.outcomes != [] && !t.outcomes[|t.outcomes| - 1] ==> t.failures <= t.maxRetries)
          && t.remaining == Left(t.repeats, |t.outcomes|))
  }

  /** How phase, lock and table agree, for the current and for the former incarnations of a handle. */
  ghost predicate Placed(t: Incarnation, current: bool, entry: bool) {
    && Started(t) <= t.releases
    && (match t.phase
        case Waiting =>
          && t.locked == (current && entry)
          && (current ==> t.releases == Started(t) + if entry then 0 else 1)
        case Checking => current ==> t.locked && !entry && t.releases == Started(t) + 1
        case Invoking => t.locked == current && !entry && (current ==> t.releases == Started(t))
        case Rescheduling => t.locked == current && !entry && (current ==> t.releases == Started(t))
        case Exiting => current ==> (entry ==> t.locked) && StopsAt(t.repeats, t.maxRetries, t.outcomes)
        case Finished => current ==> t.locked && !entry && t.releases == Started(t) && t.outcomes == [])
  }

  predicate HasEntry(s: State, id: nat) {
    id < |s.threads| && id in LocksAt(s.table, s.threads[id].nextSlot)
  }

  ghost predicate InPlace(s: State, id: nat)
    requires id < |s.threads|
  {
    Recorded(s.threads[id]) && Placed(s.threads[id], IsCurrent(s, id), HasEntry(s, id))
  }

  /** Every lock in the table belongs to an incarnation that waits for exactly that slot. */
  ghost predicate TableOk(s: State) {
    forall slot :: slot in s.table ==>
      && NoDuplicates(s.table[slot])
      && forall id :: id in s.table[slot] ==> id < |s.threads| && s.threads[id].nextSlot == slot
  }

  /** What holds in every reachable state, whatever tasks are added. */
  ghost predicate Inv(s: State) {
    && (forall h :: h in s.tasks ==> s.tasks[h] < |s.threads| && s.threads[s.tasks[h]].handle == h)
    && TableOk(s)
    && (forall id :: 0 <= id < |s.threads| ==> InPlace(s, id))
    && s.nextTime == SlotTime(s.startTime, s.nextCount)
  }

  // ---- Time

  predicate IsAhead(table: Table, nextCount: int) {
    forall slot :: slot in table ==> slot >= nextCount
  }

  /** Each slot of an incarnation is later than the one before, and is past once it has been popped. */
  ghost predicate Punctual(t: Incarnation, current: bool, entry: bool, nextCount: int) {
    && (forall i, j :: 0 <= i < j < |t.slots| ==> t.slots[i] < t.slots[j])
    && (t.phase.Waiting? && current && !entry ==> t.nextSlot < nextCount)
    && (t.phase.Checking? && current ==> t.nextSlot < nextCount)
    && (t.phase.Invoking? || t.phase.Rescheduling? ==> t.nextSlot < nextCount)
  }

  ghost predicate IsPunctual(s: State, id: nat)
    requires id < |s.threads|
  {
    Punctual(s.threads[id], IsCurrent(s, id), HasEntry(s, id), s.nextCount)
  }

  /** What holds besides as long as no task was added with a first slot that is past. */
  ghost predicate Timely(s: State) {
    && IsAhead(s.table, s.nextCount)
    && forall id :: 0 <= id < |s.threads| ==> IsPunctual(s, id)
  }
}
