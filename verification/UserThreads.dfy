/** User-level threads: the table of stack slots and the counter that decides who halts the
    machine, both shared under one lock, and the placement of the stacks. */
module UserThreads {
  import opened FileHeaders
  import opened BitMaps
  import opened Translation

  const MAX_THREADS := 10
  const THREAD_STACK_SIZE := 256
  const STACK_PADDING := 16
  const STACKS_AREA_SIZE := 4 * 1024

  /** The shared variables: a thread identity (its address, never 0) or 0 for each slot, the slot
      bitmap, and the counter, which starts at 0 for the main thread alone. */
  datatype Table = Table(names: seq<int>, slots: seq<bool>, count: int)

  predicate AllHeld(slots: seq<bool>) {
    forall i :: 0 <= i < |slots| ==> slots[i]
  }

  ghost predicate LowestClear(slots: seq<bool>, i: int) {
    0 <= i < |slots| && !slots[i] && forall j :: 0 <= j < i ==> slots[j]
  }

  /** Creating takes the lowest clear slot, or does nothing when there is none. */
  ghost predicate Takes(t: Table, t': Table, id: int, slot: int)
    requires |t.names| == |t.slots|
  {
    if AllHeld(t.slots) then slot == -1 && t' == t
    else LowestClear(t.slots, slot) && t' == Table(t.names[slot := id], t.slots[slot := true], t.count + 1)
  }

  ghost predicate Gives(t: Table, t': Table, id: int)
    requires |t.names| == |t.slots|
  {
    if id !in t.names then t' == t.(count := t.count - 1)
    else exists i :: 0 <= i < |t.names| && t.names[i] == id
                     && t' == Table(t.names[i := 0], t.slots[i := false], t.count - 1)
  }

  class ThreadTable {
    const threads: array<int>
    const stackMap: BitMap
    var threadsIdx: int

    ghost predicate Valid()
      reads this, threads, stackMap, stackMap.map_
    {
      && threads.Length == MAX_THREADS && stackMap.numBits == MAX_THREADS
      && stackMap.Valid()
    }

    ghost function Value(): (t: Table)
      reads this, threads, stackMap, stackMap.map_
      requires Valid()
      ensures |t.names| == |t.slots| == MAX_THREADS
    {
      Table(threads[..], stackMap.marks, threadsIdx)
    }

    constructor ()
      ensures Valid() && fresh(threads) && fresh(stackMap) && fresh(stackMap.map_)
      ensures Value() == Table(seq(MAX_THREADS, _ => 0), seq(MAX_THREADS, _ => false), 0)
    {
      threads := new int[MAX_THREADS](_ => 0);
      stackMap := new BitMap(MAX_THREADS);
      threadsIdx := 0;
      new;
      assert stackMap.marks == seq(MAX_THREADS, _ => false);
      assert threads[..] == seq(MAX_THREADS, _ => 0);
    }

    method GetStackIdFromThread(threadId: int) returns (r: int)
      requires Valid()
      ensures -1 <= r < MAX_THREADS
      ensures r == -1 <==> threadId !in Value().names
      ensures r >= 0 ==> Value().names[r] == threadId
    {
      for i := 0 to MAX_THREADS
        invariant forall j :: 0 <= j < i ==> threads[j] != threadId
      {
        if threads[i] == threadId {
          return i;
        }
      }
      return -1;
    }

    /** The body of do_ThreadCreate, the lock held; `newThread` is the thread it makes. */
    method Create(newThread: int) returns (r: int, ghost slot: int)
      requires Valid()
      modifies this, threads, stackMap, stackMap.map_
      ensures Valid()
      ensures Takes(old(Value()), Value(), newThread, slot)
      ensures r == if slot >= 0 then 0 else -1
    {
      NoneClear(stackMap.marks);
      var idx := stackMap.Find();
      slot := idx;
      if idx >= 0 {
        threads[idx] := newThread;
        threadsIdx := threadsIdx + 1;
        assert threads[..] == old(threads[..])[idx := newThread];
        return 0, slot;
      }
      return -1, slot;
    }

    /** The body of do_ThreadExit, the lock held. */
    method Exit(currentThread: int)
      requires Valid()
      modifies this, threads, stackMap, stackMap.map_
      ensures Valid()
      ensures Gives(old(Value()), Value(), currentThread)
    {
      var idx := GetStackIdFromThread(currentThread);
      if idx >= 0 {
        assert old(Value()).names[idx] == currentThread;
        threads[idx] := 0;
        stackMap.Clear(idx);
        assert threads[..] == old(threads[..])[idx := 0];
      }
      threadsIdx := threadsIdx - 1;
    }
  }

  // The protocol

  /** Where a thread is in do_ThreadCreate and do_ThreadExit.  Creating, Created, Exiting and Exited
      hold the lock; Leaving has released it and is about to read the counter. */
  datatype Phase = Running | Creating | Created | Exiting | Exited | Leaving

  datatype Holder = Free | Held(owner: int)

  /** `phase` has the threads that exist; `main` is the main thread while it does (0 afterwards). */
  datatype State = State(table: Table, lock: Holder, phase: map<int, Phase>, main: int, halted: bool)

  datatype Action =
    | AcquireToCreate(t: int) | CreateBody(t: int, child: int, slot: int) | ReleaseCreated(t: int)
    | AcquireToExit(t: int) | ExitBody(t: int) | ReleaseExited(t: int)
    | Check(t: int)

  predicate At(s: State, t: int, p: Phase) {
    t in s.phase && s.phase[t] == p
  }

  predicate HoldsLock(p: Phase) {
    p.Creating? || p.Created? || p.Exiting? || p.Exited?
  }

  function Moved(s: State, t: int, p: Phase, lock: Holder): (s': State) {
    s.(phase := s.phase[t := p], lock := lock)
  }

  /** The counter is the only variable read outside the lock, and each body changes it once, so the
      bodies are single steps. */
  ghost predicate Next(s: State, a: Action, s': State)
    requires |s.table.names| == |s.table.slots|
  {
    && !s.halted
    && match a
       case AcquireToCreate(t) => At(s, t, Running) && s.lock == Free && s' == Moved(s, t, Creating, Held(t))
       case CreateBody(t, child, slot) =>
         && At(s, t, Creating) && child != 0 && child !in s.phase
         && Takes(s.table, s'.table, child, slot)
         && var born := if slot >= 0 then s.(phase := s.phase[child := Running]) else s;
            s' == Moved(born, t, Created, s.lock).(table := s'.table)
       case ReleaseCreated(t) => At(s, t, Created) && s' == Moved(s, t, Running, Free)
       case AcquireToExit(t) => At(s, t, Running) && s.lock == Free && s' == Moved(s, t, Exiting, Held(t))
       case ExitBody(t) =>
         At(s, t, Exiting) && Gives(s.table, s'.table, t) && s' == Moved(s, t, Exited, s.lock).(table := s'.table)
       case ReleaseExited(t) => At(s, t, Exited) && s' == Moved(s, t, Leaving, Free)
       case Check(t) =>
         && At(s, t, Leaving)
         && if s.table.count >= 0
            then s' == s.(phase := s.phase - {t}, main := if t == s.main then 0 else s.main)
            else s' == s.(halted := true)
  }

  predicate IsUnexited(s: State, t: int) {
    t in s.phase && !s.phase[t].Exited? && !s.phase[t].Leaving?
  }

  ghost function Unexited(s: State): (u: set<int>)
    ensures forall t :: t in u <==> IsUnexited(s, t)
  {
    set t | t in s.phase && IsUnexited(s, t)
  }

  // What every step keeps

  ghost predicate LockAgrees(s: State) {
    && (s.lock.Held? ==> s.lock.owner in s.phase)
    && forall t :: t in s.phase ==> (HoldsLock(s.phase[t]) <==> s.lock == Held(t))
  }

  /** A slot is marked exactly when it names its one unexited owner; every unexited thread but
      main owns one. */
  ghost predicate SlotsAgree(s: State) {
    && |s.table.names| == |s.table.slots| == MAX_THREADS
    && (forall i :: 0 <= i < MAX_THREADS ==> (s.table.slots[i] <==> s.table.names[i] != 0))
    && (forall i :: 0 <= i < MAX_THREADS && s.table.names[i] != 0 ==>
          IsUnexited(s, s.table.names[i]) && s.table.names[i] != s.main)
    && (forall i, j :: 0 <= i < j < MAX_THREADS && s.table.names[i] != 0 ==> s.table.names[i] != s.table.names[j])
    && forall t :: IsUnexited(s, t) && t != s.main ==> t in s.table.names
  }

  /** The counter is one less than the number of unexited threads, and the clear slots make up ten
      together with the unexited threads other than main. */
  ghost predicate CountAgrees(s: State) {
    && s.table.count + 1 == |Unexited(s)|
    && CountClear(s.table.slots) + s.table.count + 1 == MAX_THREADS + if IsUnexited(s, s.main) then 1 else 0
  }

  ghost predicate Inv(s: State) {
    && 0 !in s.phase && (s.main == 0 || s.main in s.phase)
    && LockAgrees(s) && SlotsAgree(s) && CountAgrees(s)
    && (s.halted ==> Unexited(s) == {})
    && s.phase != map[]
  }

  ghost predicate Initial(s: State) {
    && s.main != 0 && !s.halted && s.lock == Free
    && s.phase == map[s.main := Running]
    && s.table == Table(seq(MAX_THREADS, _ => 0), seq(MAX_THREADS, _ => false), 0)
  }

  lemma InitialInv(s: State)
    requires Initial(s)
    ensures Inv(s)
  {
    assert Unexited(s) == {s.main};
    AllClear(s.table.slots);
  }

  /** A step that only moves a thread between phases on the same side of its exit. */
  lemma MoveKeeps(s: State, t: int, p: Phase, s': State)
    requires Inv(s) && t in s.phase && s' == Moved(s, t, p, s'.lock) && LockAgrees(s')
    requires IsUnexited(s, t) == IsUnexited(s', t) && !s.halted
    ensures Inv(s')
  {
    assert Unexited(s') == Unexited(s);
  }

  lemma CreateKeeps(s: State, t: int, child: int, slot: int, s': State)
    requires Inv(s) && Next(s, CreateBody(t, child, slot), s')
    ensures Inv(s')
  {
    if slot >= 0 {
      NewSlot(s, t, child, slot, s');
      NewCount(s, t, child, slot, s');
    } else {
      assert Unexited(s') == Unexited(s);
    }
  }

  lemma NewCount(s: State, t: int, child: int, slot: int, s': State)
    requires Inv(s) && Next(s, CreateBody(t, child, slot), s') && slot >= 0
    ensures CountAgrees(s')
  {
    assert Unexited(s') == Unexited(s) + {child};
    CountAfterMark(s.table.slots, slot);
  }

  lemma NewSlot(s: State, t: int, child: int, slot: int, s': State)
    requires Inv(s) && Next(s, CreateBody(t, child, slot), s') && slot >= 0
    ensures SlotsAgree(s')
  {
    forall u | IsUnexited(s', u) && u != s'.main
      ensures u in s'.table.names
    {
      if u == child {
        assert s'.table.names[slot] == child;
      } else {
        assert IsUnexited(s, u);
        var i :| 0 <= i < MAX_THREADS && s.table.names[i] == u;
        assert s'.table.names[i] == u;
      }
    }
  }

  lemma ExitKeeps(s: State, t: int, s': State)
    requires Inv(s) && Next(s, ExitBody(t), s')
    ensures Inv(s')
  {
    assert IsUnexited(s, t) && !IsUnexited(s', t);
    assert Unexited(s') == Unexited(s) - {t};
    if t in s.table.names {
      var i :| 0 <= i < MAX_THREADS && s.table.names[i] == t
               && s'.table == Table(s.table.names[i := 0], s.table.slots[i := false], s.table.count - 1);
      SlotGiven(s, t, i, s');
      assert s'.table.slots[i := true] == s.table.slots;
      CountAfterMark(s'.table.slots, i);
    }
  }

  lemma SlotGiven(s: State, t: int, i: int, s': State)
    requires Inv(s) && Next(s, ExitBody(t), s') && 0 <= i < MAX_THREADS && s.table.names[i] == t
    requires s'.table == Table(s.table.names[i := 0], s.table.slots[i := false], s.table.count - 1)
    ensures SlotsAgree(s')
  {
    forall u | IsUnexited(s', u) && u != s'.main
      ensures u in s'.table.names
    {
      assert IsUnexited(s, u);
      var j :| 0 <= j < MAX_THREADS && s.table.names[j] == u;
      assert s'.table.names[j] == u;
    }
  }

  lemma CheckKeeps(s: State, t: int, s': State)
    requires Inv(s) && Next(s, Check(t), s')
    ensures Inv(s')
    ensures s'.halted <==> Unexited(s) == {}
  {
    assert Unexited(s') == Unexited(s);
    if s.table.count >= 0 {
      var u :| u in Unexited(s);
      assert u in s'.phase;
    }
  }

  /** Every step keeps the invariant. */
  lemma StepKeeps(s: State, a: Action, s': State)
    requires Inv(s) && Next(s, a, s')
    ensures Inv(s')
  {
    match a {
      case AcquireToCreate(t) => MoveKeeps(s, t, Creating, s');
      case CreateBody(t, child, slot) => CreateKeeps(s, t, child, slot, s');
      case ReleaseCreated(t) => MoveKeeps(s, t, Running, s');
      case AcquireToExit(t) => MoveKeeps(s, t, Exiting, s');
      case ExitBody(t) => ExitKeeps(s, t, s');
      case ReleaseExited(t) => MoveKeeps(s, t, Leaving, s');
      case Check(t) => CheckKeeps(s, t, s');
    }
  }

  ghost predicate IsRun(states: seq<State>, actions: seq<Action>) {
    && |states| == |actions| + 1 && Initial(states[0])
    && (forall k :: 0 <= k < |states| ==> |states[k].table.names| == |states[k].table.slots|)
    && forall k :: 0 <= k < |actions| ==> Next(states[k], actions[k], states[k + 1])
  }

  lemma {:induction false} RunInv(states: seq<State>, actions: seq<Action>)
    requires IsRun(states, actions)
    ensures Inv(states[|actions|])
  {
    if actions == [] {
      InitialInv(states[0]);
    } else {
      var n := |actions| - 1;
      RunInv(states[..n + 1], actions[..n]);
      StepKeeps(states[n], actions[n], states[n + 1]);
    }
  }

  // What the invariant gives

  /** Creation fails exactly when all ten slots are held, which is when ten threads other than main
      have not exited. */
  lemma CreationFails(s: State, t: int, child: int, slot: int, s': State)
    requires Inv(s) && Next(s, CreateBody(t, child, slot), s')
    ensures slot < 0 <==> forall i :: 0 <= i < MAX_THREADS ==> s.table.names[i] != 0
    ensures slot < 0 <==> |Unexited(s) - {s.main}| == MAX_THREADS
  {
    NoneClear(s.table.slots);
    if IsUnexited(s, s.main) {
      assert |Unexited(s) - {s.main}| == |Unexited(s)| - 1;
    } else {
      assert Unexited(s) - {s.main} == Unexited(s);
    }
  }

  /** The machine is halted only when every thread, main included, has given up its place ... */
  lemma HaltOnlyAtTheEnd(s: State, a: Action, s': State)
    requires Inv(s) && Next(s, a, s') && s'.halted
    ensures a.Check? && forall t :: t in s.phase ==> s.phase[t].Exited? || s.phase[t].Leaving?
  {
    CheckKeeps(s, a.t, s');
    assert forall t :: t in s.phase ==> t !in Unexited(s);
  }

  /** ... that state is never left again, and in it every thread that reads the counter halts the
      machine: no thread finishes quietly instead. */
  lemma LateReadersHalt(s: State, a: Action, s': State)
    requires Inv(s) && Unexited(s) == {} && Next(s, a, s')
    ensures Unexited(s') == {}
    ensures a.Check? <==> s'.halted
    ensures !a.Check? ==> a.ReleaseExited?
  {
    assert forall t :: t in s.phase ==> t !in Unexited(s);
    StepKeeps(s, a, s');
  }

  /** Nobody is stranded: whenever all have exited and the machine still runs, some thread that has
      exited is still there and can move on towards the halt. */
  lemma HaltIsReached(s: State) returns (a: Action, s': State)
    requires Inv(s) && Unexited(s) == {} && !s.halted
    ensures Next(s, a, s')
    ensures s'.halted || (a.ReleaseExited? && s'.phase[a.t] == Leaving)
  {
    assert forall t :: t in s.phase ==> t !in Unexited(s);
    var t :| t in s.phase;
    if s.phase[t].Exited? {
      a, s' := ReleaseExited(t), Moved(s, t, Leaving, Free);
    } else {
      a, s' := Check(t), s.(halted := true);
    }
  }

  /** A run that carries on from `s`. */
  ghost predicate CarriesOn(s: State, states: seq<State>, actions: seq<Action>) {
    && |states| == |actions| + 1 && states[0] == s
    && (forall k :: 0 <= k < |states| ==> |states[k].table.names| == |states[k].table.slots|)
    && forall k :: 0 <= k < |actions| ==> Next(states[k], actions[k], states[k + 1])
  }

  /** In every continuation, whoever halts the machine is `t`. */
  ghost predicate OnlyHaltedBy(s: State, t: int) {
    forall states: seq<State>, actions: seq<Action> {:trigger CarriesOn(s, states, actions)} ::
      CarriesOn(s, states, actions) && states[|actions|].halted ==>
        actions != [] && actions[|actions| - 1] == Check(t)
  }

  /** Exactly when the last thread to exit is the one that halts, in every continuation: when every
      other thread has finished, not only exited, before it exits. */
  lemma LastHaltsExactlyWhenAlone(s: State, t: int, s': State)
    requires Inv(s) && Next(s, ExitBody(t), s') && Unexited(s') == {}
    ensures OnlyHaltedBy(s', t) <==> s.phase.Keys == {t}
    ensures s.phase.Keys == {t} <==> !exists u :: u != t && At(s', u, Leaving)
  {
    StepKeeps(s, ExitBody(t), s');
    assert forall u :: u in s'.phase ==> u !in Unexited(s');
    if s.phase.Keys == {t} {
      AloneToTheEnd(s', t);
    } else {
      var u :| u in s.phase && u != t;
      assert At(s', u, Leaving);
      OtherHaltsNow(s', u, t);
    }
  }

  lemma AloneToTheEnd(s: State, t: int)
    requires Inv(s) && !s.halted && Unexited(s) == {} && s.phase.Keys == {t}
    ensures OnlyHaltedBy(s, t)
  {
    forall states: seq<State>, actions: seq<Action> | CarriesOn(s, states, actions) && states[|actions|].halted
      ensures actions != [] && actions[|actions| - 1] == Check(t)
    {
      var n := |actions| - 1;
      assert actions != [];
      StaysAlone(s, t, states, actions, n);
      LateReadersHalt(states[n], actions[n], states[n + 1]);
    }
  }

  lemma {:induction false} StaysAlone(s: State, t: int, states: seq<State>, actions: seq<Action>, k: nat)
    requires Inv(s) && Unexited(s) == {} && s.phase.Keys == {t}
    requires CarriesOn(s, states, actions) && k < |actions|
    ensures Inv(states[k]) && Unexited(states[k]) == {} && states[k].phase.Keys == {t}
  {
    if k > 0 {
      StaysAlone(s, t, states, actions, k - 1);
      assert Next(states[k - 1], actions[k - 1], states[k - 1 + 1]) && Next(states[k], actions[k], states[k + 1]);
      StepKeeps(states[k - 1], actions[k - 1], states[k]);
      LateReadersHalt(states[k - 1], actions[k - 1], states[k]);
    }
  }

  lemma OtherHaltsNow(s: State, u: int, t: int)
    requires Inv(s) && !s.halted && Unexited(s) == {} && At(s, u, Leaving) && u != t
    ensures !OnlyHaltedBy(s, t)
  {
    var s' := s.(halted := true);
    assert CarriesOn(s, [s, s'], [Check(u)]);
  }

  /** Who halts need not be who exited last: main has exited and released the lock, its only thread
      exits in turn, and before that thread even releases the lock main reads the counter. */
  lemma AnotherMayHalt() returns (states: seq<State>, actions: seq<Action>)
    ensures IsRun(states, actions) && states[|actions|].halted && |actions| > 1
    ensures actions[|actions| - 1].Check? && actions[|actions| - 2].ExitBody?
    ensures actions[|actions| - 1].t != actions[|actions| - 2].t
  {
    var none: seq<int>, clear := seq(MAX_THREADS, _ => 0), seq(MAX_THREADS, _ => false);
    var before, earlier := MainExits();
    var s6 := before[6];
    var s7 := Moved(s6, 2, Exiting, Held(2));
    var s8 := Moved(s7, 2, Exited, Held(2)).(table := Table(none, clear, -1));
    var s9 := s8.(halted := true);
    GivenBack(s7.table, s8.table);
    states := before + [s7, s8, s9];
    actions := earlier + [AcquireToExit(2), ExitBody(2), Check(1)];
  }

  /** Main creates a thread and exits, but has not read the counter yet. */
  lemma MainExits() returns (states: seq<State>, actions: seq<Action>)
    ensures IsRun(states, actions) && |actions| == 6
    ensures states[6].table == Table(seq(MAX_THREADS, _ => 0)[0 := 2], seq(MAX_THREADS, _ => false)[0 := true], 0)
    ensures states[6] == State(states[6].table, Free, map[1 := Leaving, 2 := Running], 1, false)
  {
    var none: seq<int>, clear := seq(MAX_THREADS, _ => 0), seq(MAX_THREADS, _ => false);
    var one := Table(none[0 := 2], clear[0 := true], 1);
    var s0 := State(Table(none, clear, 0), Free, map[1 := Running], 1, false);
    var s1 := Moved(s0, 1, Creating, Held(1));
    var s2 := State(one, Held(1), map[1 := Created, 2 := Running], 1, false);
    var s3 := Moved(s2, 1, Running, Free);
    var s4 := Moved(s3, 1, Exiting, Held(1));
    var s5 := Moved(s4, 1, Exited, Held(1)).(table := one.(count := 0));
    var s6 := Moved(s5, 1, Leaving, Free);
    FirstCreation(s1, s2);
    assert 1 !in one.names;
    states := [s0, s1, s2, s3, s4, s5, s6];
    actions := [AcquireToCreate(1), CreateBody(1, 2, 0), ReleaseCreated(1), AcquireToExit(1), ExitBody(1),
        ReleaseExited(1)];
  }

  lemma FirstCreation(s: State, s': State)
    requires s == State(Table(seq(MAX_THREADS, _ => 0), seq(MAX_THREADS, _ => false), 0), Held(1), map[1 := Creating],
              1, false)
    requires s' == State(Table(s.table.names[0 := 2], s.table.slots[0 := true], 1), Held(1),
              map[1 := Created, 2 := Running], 1, false)
    ensures Next(s, CreateBody(1, 2, 0), s')
  {
    assert !s.table.slots[0];
    assert s.phase[2 := Running][1 := Created] == s'.phase;
  }

  lemma GivenBack(t: Table, t': Table)
    requires t == Table(seq(MAX_THREADS, _ => 0)[0 := 2], seq(MAX_THREADS, _ => false)[0 := true], 0)
    requires t' == Table(seq(MAX_THREADS, _ => 0), seq(MAX_THREADS, _ => false), -1)
    ensures Gives(t, t', 2)
  {
    assert t.names[0] == 2;
    assert t.names[0 := 0] == t'.names && t.slots[0 := false] == t'.slots;
  }

  /** A thread keeps its slot until it exits. */
  lemma SlotIsKept(s: State, a: Action, s': State, i: int)
    requires Inv(s) && Next(s, a, s') && 0 <= i < MAX_THREADS && s.table.names[i] != 0
    ensures |s'.table.names| == MAX_THREADS
    ensures s'.table.names[i] == s.table.names[i] <==> IsUnexited(s', s.table.names[i])
  {
    StepKeeps(s, a, s');
  }

  // The stacks

  /** The initial stack pointer of main, and of the thread in slot `idx`. */
  function MainStack(numPages: nat): (sp: int) {
    numPages * PAGE_SIZE - 16
  }

  function ThreadStack(numPages: nat, idx: nat): (sp: int) {
    numPages * PAGE_SIZE - STACK_PADDING - (idx + 1) * THREAD_STACK_SIZE - STACK_PADDING
  }

  /** Main starts 16 bytes below the top of the address space, the thread in slot 0 another 272 bytes
      lower, and each further slot 256 bytes below the one before. */
  lemma StackPlaces(numPages: nat, idx: nat)
    ensures MainStack(numPages) == 128 * numPages - 16
    ensures ThreadStack(numPages, 0) == MainStack(numPages) - 272
    ensures ThreadStack(numPages, idx + 1) == ThreadStack(numPages, idx) - 256
  {
  }

  /** The window a stack may use: down from its pointer, with the padding above it, as far as the
      next stack's padding. */
  predicate InWindow(sp: int, a: int) {
    sp + STACK_PADDING - THREAD_STACK_SIZE <= a < sp + STACK_PADDING
  }

  predicate InThreadWindow(numPages: nat, idx: nat, a: int) {
    InWindow(ThreadStack(numPages, idx), a)
  }

  /** The size of the address space, as it is laid out for a program of `segments` bytes. */
  function NumPages(segments: nat): (n: nat) {
    DivRoundUp(segments + STACKS_AREA_SIZE, PAGE_SIZE)
  }

  /** Every window lies in the stack area at the top of the address space, above the program. */
  lemma WindowsInArea(segments: nat, idx: nat, a: int)
    requires idx < MAX_THREADS
    ensures var n := NumPages(segments);
            var area := n * PAGE_SIZE - STACKS_AREA_SIZE;
            && segments <= area
            && (InThreadWindow(n, idx, a) || InWindow(MainStack(n), a) ==> area <= a < n * PAGE_SIZE)
            && !(InThreadWindow(n, idx, a) && InWindow(MainStack(n), a))
  {
    assert idx * THREAD_STACK_SIZE <= 9 * THREAD_STACK_SIZE;
  }

  /** Two threads in user code never share a byte of stack, in any reachable state. */
  lemma StacksApart(s: State, i: int, j: int, numPages: nat, a: int)
    requires Inv(s) && 0 <= i < MAX_THREADS && 0 <= j < MAX_THREADS
    requires s.table.names[i] != 0 && s.table.names[j] != 0 && s.table.names[i] != s.table.names[j]
    ensures !(InThreadWindow(numPages, i, a) && InThreadWindow(numPages, j, a))
  {
  }

  /** Every unexited thread but main has exactly one slot. */
  lemma OneSlotEach(s: State, t: int) returns (i: int)
    requires Inv(s) && IsUnexited(s, t) && t != s.main
    ensures 0 <= i < MAX_THREADS && s.table.slots[i] && s.table.names[i] == t
    ensures forall j :: 0 <= j < MAX_THREADS && s.table.names[j] == t ==> j == i
  {
    i :| 0 <= i < MAX_THREADS && s.table.names[i] == t;
    assert t != 0;
  }
}
