/** The protocol by which threads share a device that handles one request at a time: take a
    lock, and for each item send the request and wait on a semaphore that the completion
    interrupt signals; then release the lock.  SynchDisk::ReadSector and WriteSector send one
    item per call, SynchPutChar one, SynchPutString as many as the string has characters.
    All of it runs on the kernel's own semaphores, in every interleaving. */
module SynchDevice {
  import opened Kernel
  import opened KernelLaws

  /** Where a thread is in a call. */
  datatype Call<T> =
    | Outside
    | Acquiring(items: seq<T>)                // in lock->Acquire()
    | Holding(items: seq<T>, done: nat)       // has the lock, nothing outstanding
    | Requested(items: seq<T>, done: nat)     // has sent items[done], has not called P yet
    | Waiting(items: seq<T>, done: nat)       // in semaphore->P()

  /** `holder`, `served` and `finished` are history: who has the lock, how many completion
      interrupts have fired, and the calls that have returned. */
  datatype System<T> = System(
    k: State,
    lock: Sid,
    done: Sid,
    calls: map<Tid, Call<T>>,
    active: bool,
    output: seq<T>,
    holder: Option<Tid>,
    served: nat,
    finished: seq<seq<T>>)

  datatype Move<T> =
    | Other(a: Action)         // anything else the kernel does
    | Enter(items: seq<T>)     // a thread makes a call: lock->Acquire()
    | Send                     // the request to the device
    | Await                    // semaphore->P()
    | Leave                    // lock->Release() and return
    | Complete                 // the device's completion interrupt

  function CallOf<T>(s: System<T>, t: Tid): (c: Call<T>) {
    if t in s.calls then s.calls[t] else Outside
  }

  predicate InCritical<T>(c: Call<T>) {
    c.Holding? || c.Requested? || c.Waiting?
  }

  predicate Outstanding<T>(c: Call<T>) {
    c.Requested? || c.Waiting?
  }

  /** A thread inside a call does nothing but the call; it may be preempted at any point. */
  predicate Permitted<T>(s: System<T>, m: Move<T>) {
    var c := CallOf(s, s.k.current);
    match m
    case Other(a) =>
      && Enabled(s.k, a)
      && match a {
           case P(q) => q != s.lock && q != s.done && c.Outside?
           case V(q) => q != s.lock && q != s.done
           case Yield => true
           case Resumed => true
           case Dispatch => true
           case _ => c.Outside?
         }
    case Enter(_) => s.k.phase == Executing && c.Outside?
    case Send => s.k.phase == Executing && c.Holding? && c.done < |c.items|
    case Await => s.k.phase == Executing && c.Requested?
    case Leave => s.k.phase == Executing && c.Holding? && c.done == |c.items|
    case Complete => s.k.phase != Switched && s.active
  }

  /** The kernel action behind a move, if any. */
  function KernelAction<T>(s: System<T>, m: Move<T>): (a: Option<Action>) {
    match m
    case Other(a) => Some(a)
    case Enter(_) => Some(P(s.lock))
    case Send => None
    case Await => Some(P(s.done))
    case Leave => Some(V(s.lock))
    case Complete => Some(V(s.done))
  }

  /** A P that returns lets its caller carry on. */
  function Carried<T>(s: System<T>, e: Event): (s': System<T>) {
    if e.PDone? && e.q == s.lock && CallOf(s, e.t).Acquiring? then
      s.(calls := s.calls[e.t := Holding(CallOf(s, e.t).items, 0)], holder := Some(e.t))
    else if e.PDone? && e.q == s.done && CallOf(s, e.t).Waiting? then
      s.(calls := s.calls[e.t := Holding(CallOf(s, e.t).items, CallOf(s, e.t).done + 1)])
    else s
  }

  /** The part of a move that is not the kernel's. */
  function ClientPart<T>(s: System<T>, m: Move<T>): (s': System<T>)
    requires Permitted(s, m)
  {
    var t := s.k.current;
    var c := CallOf(s, t);
    match m
    case Other(a) => s
    case Enter(items) => s.(calls := s.calls[t := Acquiring(items)])
    case Send =>
      s.(calls := s.calls[t := Requested(c.items, c.done)], active := true, output := s.output + [c.items[c.done]])
    case Await => s.(calls := s.calls[t := Waiting(c.items, c.done)])
    case Leave => s.(calls := s.calls[t := Outside], holder := None, finished := s.finished + [c.items])
    case Complete => s.(active := false, served := s.served + 1)
  }

  ghost function Next<T>(s: System<T>, m: Move<T>): (s': System<T>)
    requires Permitted(s, m) && Safe(s.k)
    requires KernelAction(s, m).Some? ==> Enabled(s.k, KernelAction(s, m).value)
  {
    var c := ClientPart(s, m);
    match KernelAction(s, m)
    case None => c
    case Some(a) => Carried(c, EventOf(s.k, a)).(k := Step(s.k, a))
  }

  // The invariant

  function Flatten<T>(ss: seq<seq<T>>): (r: seq<T>) {
    if ss == [] then [] else Flatten(ss[..|ss| - 1]) + ss[|ss| - 1]
  }

  /** What the call in progress has sent so far. */
  function Sent<T>(c: Call<T>): (r: seq<T>)
    requires InCritical(c) ==> c.done <= |c.items|
    requires Outstanding(c) ==> c.done < |c.items|
  {
    if c.Holding? then c.items[..c.done] else if Outstanding(c) then c.items[..c.done + 1] else []
  }

  /** The client's view of a thread and the kernel's agree. */
  ghost predicate Agrees<T>(s: System<T>, t: Tid) {
    var c := CallOf(s, t);
    && (t !in s.k.threads ==> c.Outside?)
    && (t in s.k.threads ==>
          && (s.k.threads[t].resume == InP(s.lock) <==> c.Acquiring?)
          && (s.k.threads[t].resume == InP(s.done) <==> c.Waiting?)
          && (s.k.threads[t].resume.InFinish? || s.k.threads[t].resume.AtStart? ==> c.Outside?)
          && (s.k.threads[t].resume.InP? && !c.Outside? ==> s.k.threads[t].resume.sem in {s.lock, s.done}))
    && (InCritical(c) <==> s.holder == Some(t))
    && (InCritical(c) ==> c.done <= |c.items|)
    && (Outstanding(c) ==> c.done < |c.items|)
  }

  /** The holder's call; Outside when nobody holds the lock. */
  function Current<T>(s: System<T>): (c: Call<T>) {
    if s.holder.Some? then CallOf(s, s.holder.value) else Outside
  }

  ghost predicate Coherent<T>(s: System<T>) {
    && s.lock in s.k.sems && s.done in s.k.sems && s.lock != s.done
    && (forall t :: Agrees(s, t))
    && s.k.sems[s.lock].value == (if s.holder.Some? then 0 else 1)
    && s.k.sems[s.done].value + (if s.active then 1 else 0) == (if Outstanding(Current(s)) then 1 else 0)
    && s.k.sems[s.done].value >= 0
    && (s.holder.Some? ==> Agrees(s, s.holder.value))
    && s.output == Flatten(s.finished) + Sent(Current(s))
    && |s.output| == s.served + if s.active then 1 else 0
  }

  ghost predicate Sane<T>(s: System<T>) {
    Lawful(s.k) && Coherent(s)
  }

  /** What the protocol sees of a kernel step: two semaphore values, and where threads resume
      (`r` for the current one). */
  ghost predicate KernelMoved<T>(s: System<T>, k': State, e: Event, r: Resume)
    requires s.lock in s.k.sems && s.done in s.k.sems
  {
    && s.lock in k'.sems && s.done in k'.sems
    && k'.sems[s.lock].value
        == s.k.sems[s.lock].value + (if e == VDone(s.lock) then 1 else 0) - (if e.PDone? && e.q == s.lock then 1 else 0)
    && k'.sems[s.done].value
        == s.k.sems[s.done].value + (if e == VDone(s.done) then 1 else 0) - (if e.PDone? && e.q == s.done then 1 else 0)
    && k'.sems[s.lock].value >= 0 && k'.sems[s.done].value >= 0
    && forall t :: ThreadMoved(s.k, k', r, t)
  }

  ghost predicate ThreadMoved(k: State, k': State, r: Resume, t: Tid) {
    && (t in k'.threads && t !in k.threads ==> k'.threads[t].resume == AtStart)
    && (t !in k'.threads && t in k.threads ==> k.threads[t].resume.InFinish?)
    && (t in k'.threads && t in k.threads ==> k'.threads[t].resume == if t == k.current then r else k.threads[t].resume)
  }

  lemma KernelSide<T>(s: System<T>, a: Action)
    requires Sane(s) && Enabled(s.k, a)
    ensures Lawful(Step(s.k, a))
    ensures s.k.current in s.k.threads
    ensures KernelMoved(s, Step(s.k, a), EventOf(s.k, a), ResumeAfter(s.k, a))
  {
    StepLawful(s.k, a);
    ValueChange(s.k, a, s.lock);
    ValueChange(s.k, a, s.done);
    var k' := Step(s.k, a);
    assert Balanced(k'.sems[s.lock]) && Balanced(k'.sems[s.done]);
    forall t
      ensures ThreadMoved(s.k, k', ResumeAfter(s.k, a), t)
    {
      if t in s.k.threads {
        ResumeChange(s.k, a, t);
        assert Placed(s.k, t);
      } else {
        Newcomer(s.k, a, t);
      }
    }
  }

  lemma EnterKeeps<T>(s: System<T>, items: seq<T>, k': State, e: Event, r: Resume)
    requires Coherent(s) && Permitted(s, Enter(items)) && s.k.current in s.k.threads
    requires KernelMoved(s, k', e, r)
    requires (e == PDone(s.k.current, s.lock) && r == AtCode) || (e == Quiet && r == InP(s.lock))
    requires s.k.current in k'.threads && !s.k.threads[s.k.current].resume.InP?
    ensures Coherent(Carried(ClientPart(s, Enter(items)), e).(k := k'))
  {
    var s' := Carried(ClientPart(s, Enter(items)), e).(k := k');
    forall t
      ensures Agrees(s', t)
    {
      assert Agrees(s, t) && Agrees(s, s.k.current) && ThreadMoved(s.k, k', r, t);
    }
  }

  lemma AwaitKeeps<T>(s: System<T>, k': State, e: Event, r: Resume)
    requires Coherent(s) && Permitted(s, Await) && s.k.current in s.k.threads
    requires KernelMoved(s, k', e, r)
    requires (e == PDone(s.k.current, s.done) && r == AtCode) || (e == Quiet && r == InP(s.done))
    requires s.k.current in k'.threads && !s.k.threads[s.k.current].resume.InP?
    ensures Coherent(Carried(ClientPart(s, Await), e).(k := k'))
  {
    var s' := Carried(ClientPart(s, Await), e).(k := k');
    forall t
      ensures Agrees(s', t)
    {
      assert Agrees(s, t) && Agrees(s, s.k.current) && ThreadMoved(s.k, k', r, t);
    }
    assert Agrees(s, s.k.current);
  }

  lemma LeaveKeeps<T>(s: System<T>, k': State, r: Resume)
    requires Coherent(s) && Permitted(s, Leave) && s.k.current in s.k.threads
    requires KernelMoved(s, k', VDone(s.lock), r) && r == s.k.threads[s.k.current].resume && !r.InP?
    requires s.k.current in k'.threads
    ensures Coherent(ClientPart(s, Leave).(k := k'))
  {
    var s' := ClientPart(s, Leave).(k := k');
    assert Agrees(s, s.k.current);
    forall t
      ensures Agrees(s', t)
    {
      assert Agrees(s, t) && Agrees(s, s.k.current) && ThreadMoved(s.k, k', r, t);
    }
    var c := CallOf(s, s.k.current);
    assert c.items[..c.done] == c.items;
    assert s'.finished[..|s.finished|] == s.finished;
  }

  lemma CompleteKeeps<T>(s: System<T>, k': State, r: Resume)
    requires Coherent(s) && Permitted(s, Complete) && s.k.current in s.k.threads
    requires KernelMoved(s, k', VDone(s.done), r) && r == s.k.threads[s.k.current].resume
    ensures Coherent(ClientPart(s, Complete).(k := k'))
  {
    var s' := ClientPart(s, Complete).(k := k');
    forall t
      ensures Agrees(s', t)
    {
      assert Agrees(s, t) && ThreadMoved(s.k, k', r, t);
    }
  }

  lemma SendKeeps<T>(s: System<T>)
    requires Coherent(s) && Permitted(s, Send) && s.k.current in s.k.threads
              && s.k.threads[s.k.current].resume == AtCode
    ensures !s.active
    ensures Coherent(ClientPart(s, Send))
  {
    var s' := ClientPart(s, Send);
    assert Agrees(s, s.k.current);
    forall t
      ensures Agrees(s', t)
    {
      assert Agrees(s, t);
    }
    var c := CallOf(s, s.k.current);
    assert c.items[..c.done + 1] == c.items[..c.done] + [c.items[c.done]];
  }

  /** A thread in P for the lock or for completion gets, or does not yet get, what it waits for. */
  lemma WakeKeeps<T>(s: System<T>, k': State, e: Event, r: Resume)
    requires Coherent(s) && s.k.current in s.k.threads && s.k.current in k'.threads
    requires KernelMoved(s, k', e, r)
    requires s.k.threads[s.k.current].resume.InP?
    requires (e == PDone(s.k.current, s.k.threads[s.k.current].resume.sem) && r == AtCode)
          || (e == Quiet && r == s.k.threads[s.k.current].resume)
    ensures Coherent(Carried(s, e).(k := k'))
  {
    var s' := Carried(s, e).(k := k');
    assert Agrees(s, s.k.current);
    forall t
      ensures Agrees(s', t)
    {
      assert Agrees(s, t) && ThreadMoved(s.k, k', r, t);
    }
  }

  predicate Elsewhere<T>(s: System<T>, e: Event) {
    match e
    case Quiet => true
    case PDone(_, q) => q != s.lock && q != s.done
    case VDone(q) => q != s.lock && q != s.done
  }

  /** Kernel steps that touch neither semaphore. */
  lemma OtherKeeps<T>(s: System<T>, k': State, e: Event, r: Resume)
    requires Coherent(s) && s.k.current in s.k.threads
    requires KernelMoved(s, k', e, r) && Elsewhere(s, e)
    requires r == s.k.threads[s.k.current].resume
          || (&& r != InP(s.lock) && r != InP(s.done) && !r.AtStart?
              && s.k.threads[s.k.current].resume != InP(s.lock) && s.k.threads[s.k.current].resume != InP(s.done)
              && (r.InFinish? || r.InP? ==> CallOf(s, s.k.current).Outside?))
    ensures Coherent(Carried(s, e).(k := k'))
  {
    var s' := s.(k := k');
    assert Carried(s, e) == s;
    forall t
      ensures Agrees(s', t)
    {
      assert Agrees(s, t) && ThreadMoved(s.k, k', r, t);
    }
  }

  lemma OtherSane<T>(s: System<T>, a: Action)
    requires Sane(s) && Permitted(s, Other(a)) && Enabled(s.k, a)
    ensures Sane(Next(s, Other(a)))
  {
    var k := s.k;
    assert Placed(k, k.current);
    assert Agrees(s, k.current);
    KernelSide(s, a);
    ResumeChange(k, a, k.current);
    if a.Resumed? && k.threads[k.current].resume.InP? {
      WakeKeeps(s, Step(k, a), EventOf(k, a), ResumeAfter(k, a));
    } else {
      OtherKeeps(s, Step(k, a), EventOf(k, a), ResumeAfter(k, a));
    }
  }

  lemma CallSane<T>(s: System<T>, m: Move<T>, a: Action)
    requires Sane(s) && Permitted(s, m) && KernelAction(s, m) == Some(a) && Enabled(s.k, a) && !m.Other?
    ensures Sane(Next(s, m))
  {
    var k := s.k;
    assert Placed(k, k.current);
    assert Agrees(s, k.current);
    KernelSide(s, a);
    ResumeChange(k, a, k.current);
    var k', e, r := Step(k, a), EventOf(k, a), ResumeAfter(k, a);
    match m {
      case Enter(items) => EnterKeeps(s, items, k', e, r);
      case Await => AwaitKeeps(s, k', e, r);
      case Leave => LeaveKeeps(s, k', r);
      case Complete => CompleteKeeps(s, k', r);
    }
  }

  /** Every move keeps the protocol; in particular the device's own ASSERT(!active) holds. */
  lemma NextSane<T>(s: System<T>, m: Move<T>)
    requires Sane(s) && Permitted(s, m)
    ensures KernelAction(s, m).Some? ==> Enabled(s.k, KernelAction(s, m).value)
    ensures Sane(Next(s, m))
    ensures m.Send? ==> !s.active
  {
    assert Placed(s.k, s.k.current);
    match KernelAction(s, m) {
      case None => SendKeeps(s);
      case Some(a) =>
        if m.Other? {
          OtherSane(s, a);
        } else {
          CallSane(s, m, a);
        }
    }
  }

  // Runs

  /** A device no one has used yet, on a kernel that has just made its lock and semaphore. */
  ghost predicate Initial<T>(s: System<T>) {
    && Lawful(s.k)
    && s.lock in s.k.sems && s.done in s.k.sems && s.lock != s.done
    && s.k.sems[s.lock].value == 1 && s.k.sems[s.done].value == 0
    && (forall t :: t in s.k.threads ==> s.k.threads[t].resume != InP(s.lock) && s.k.threads[t].resume != InP(s.done))
    && s.calls == map[] && !s.active && s.output == [] && s.holder.None? && s.served == 0 && s.finished == []
  }

  ghost predicate Follows<T>(s: System<T>, m: Move<T>, s': System<T>) {
    Sane(s) ==>
      && Permitted(s, m)
      && (KernelAction(s, m).Some? ==> Enabled(s.k, KernelAction(s, m).value))
      && s' == Next(s, m)
  }

  ghost predicate IsRun<T>(states: seq<System<T>>, moves: seq<Move<T>>) {
    && |states| == |moves| + 1
    && Initial(states[0])
    && forall i :: 0 <= i < |moves| ==> Follows(states[i], moves[i], states[i + 1])
  }

  lemma InitialSane<T>(s: System<T>)
    requires Initial(s)
    ensures Sane(s)
  {
    forall t
      ensures Agrees(s, t)
    {
    }
  }

  lemma StepSane<T>(s: System<T>, m: Move<T>, s': System<T>)
    requires Sane(s) && Follows(s, m, s')
    ensures Sane(s')
  {
    NextSane(s, m);
  }

  lemma {:induction false} RunSane<T>(states: seq<System<T>>, moves: seq<Move<T>>, i: nat)
    requires IsRun(states, moves) && i < |states|
    ensures Sane(states[i])
  {
    if i == 0 {
      RunBegins(states, moves);
    } else {
      var j := i - 1;
      RunSane(states, moves, j);
      RunStep(states, moves, j);
    }
  }

  lemma RunBegins<T>(states: seq<System<T>>, moves: seq<Move<T>>)
    requires IsRun(states, moves)
    ensures Sane(states[0])
  {
    InitialSane(states[0]);
  }

  lemma RunStep<T>(states: seq<System<T>>, moves: seq<Move<T>>, i: nat)
    requires IsRun(states, moves) && i < |moves| && Sane(states[i])
    ensures Sane(states[i + 1])
  {
    assert Follows(states[i], moves[i], states[i + 1]);
    StepSane(states[i], moves[i], states[i + 1]);
  }

  /** In no run is a request sent while another is in progress. */
  lemma OneRequestAtATime<T>(states: seq<System<T>>, moves: seq<Move<T>>, i: nat)
    requires IsRun(states, moves) && i < |moves| && moves[i].Send?
    ensures !states[i].active
  {
    RunSane(states, moves, i);
    assert Follows(states[i], moves[i], states[i + 1]);
    NextSane(states[i], moves[i]);
  }

  /** When a wait returns, every request of the call so far, its own last one included, has been
      served; and nothing is on its way to the device. */
  lemma WaitsForItsOwn<T>(states: seq<System<T>>, moves: seq<Move<T>>, i: nat, t: Tid)
    requires IsRun(states, moves) && i < |states| && CallOf(states[i], t).Holding?
    ensures var s, c := states[i], CallOf(states[i], t);
            && !s.active && s.done in s.k.sems && s.k.sems[s.done].value == 0
            && s.served == |s.output|
            && c.done <= |c.items| && s.output == Flatten(s.finished) + c.items[..c.done]
  {
    RunSane(states, moves, i);
    assert Agrees(states[i], t);
  }

  /** The device has seen whole calls one after another, and at most a prefix of one more. */
  lemma CallsNotInterleaved<T>(states: seq<System<T>>, moves: seq<Move<T>>, i: nat)
    requires IsRun(states, moves) && i < |states|
    ensures var s := states[i];
            if s.holder.Some? then
              var c := CallOf(s, s.holder.value);
              && InCritical(c)
              && exists n :: 0 <= n <= |c.items| && s.output == Flatten(s.finished) + c.items[..n]
            else s.output == Flatten(s.finished)
  {
    RunSane(states, moves, i);
    var s := states[i];
    if s.holder.Some? {
      var c := CallOf(s, s.holder.value);
      assert Agrees(s, s.holder.value);
      assert s.output == Flatten(s.finished) + c.items[..if c.Holding? then c.done else c.done + 1];
    }
  }

  // From the call to what it leaves

  predicate Enters<T>(s: System<T>, m: Move<T>, t: Tid) {
    m.Enter? && s.k.current == t
  }

  predicate Leaves<T>(s: System<T>, m: Move<T>, t: Tid) {
    m.Leave? && s.k.current == t
  }

  /** What a move makes of a thread's call: it begins with the items it is given, ends by handing
      them to the history, and in between keeps them. */
  ghost predicate CallMoves<T>(s: System<T>, m: Move<T>, s': System<T>, t: Tid) {
    var c, c' := CallOf(s, t), CallOf(s', t);
    && (Enters(s, m, t) ==> c.Outside? && !c'.Outside? && c'.items == m.items)
    && (Leaves(s, m, t) ==> !c.Outside? && c'.Outside? && s'.finished == s.finished + [c.items])
    && (!Enters(s, m, t) && !Leaves(s, m, t) ==>
          if c.Outside? then c'.Outside? else !c'.Outside? && c'.items == c.items)
    && (!m.Leave? ==> s'.finished == s.finished)
  }

  lemma ClientMoves<T>(s: System<T>, m: Move<T>, t: Tid)
    requires Permitted(s, m)
    ensures CallMoves(s, m, ClientPart(s, m), t)
  {
  }

  lemma CarriedMoves<T>(s: System<T>, e: Event, t: Tid)
    ensures Carried(s, e).finished == s.finished
    ensures CallOf(s, t).Outside? <==> CallOf(Carried(s, e), t).Outside?
    ensures !CallOf(s, t).Outside? ==> CallOf(Carried(s, e), t).items == CallOf(s, t).items
  {
  }

  lemma CallAfter<T>(s: System<T>, m: Move<T>, s': System<T>, t: Tid)
    requires Sane(s) && Follows(s, m, s')
    ensures CallMoves(s, m, s', t)
  {
    NextMoves(s, m, t);
  }

  lemma NextMoves<T>(s: System<T>, m: Move<T>, t: Tid)
    requires Permitted(s, m) && Safe(s.k) && (KernelAction(s, m).Some? ==> Enabled(s.k, KernelAction(s, m).value))
    ensures CallMoves(s, m, Next(s, m), t)
  {
    ClientMoves(s, m, t);
    if KernelAction(s, m).Some? {
      CarriedMoves(ClientPart(s, m), EventOf(s.k, KernelAction(s, m).value), t);
    }
  }

  lemma RunMoves<T>(states: seq<System<T>>, moves: seq<Move<T>>, i: nat, t: Tid)
    requires IsRun(states, moves) && i < |moves|
    ensures CallMoves(states[i], moves[i], states[i + 1], t)
  {
    RunSane(states, moves, i);
    assert Follows(states[i], moves[i], states[i + 1]);
    CallAfter(states[i], moves[i], states[i + 1], t);
  }

  /** The thread has not returned from a call between two moves. */
  ghost predicate StaysIn<T>(states: seq<System<T>>, moves: seq<Move<T>>, i: nat, j: nat, t: Tid)
    requires j <= |moves| && |states| == |moves| + 1
  {
    forall k :: i < k < j ==> !Leaves(states[k], moves[k], t)
  }

  /** A call keeps the items it was entered with until it returns. */
  lemma {:induction false} ItemsKept<T>(states: seq<System<T>>, moves: seq<Move<T>>, i: nat, j: nat, t: Tid)
    requires IsRun(states, moves) && i < j <= |moves| && Enters(states[i], moves[i], t)
    requires StaysIn(states, moves, i, j, t)
    ensures var c := CallOf(states[j], t); !c.Outside? && c.items == moves[i].items
  {
    RunMoves(states, moves, j - 1, t);
    if i < j - 1 {
      ItemsKept(states, moves, i, j - 1, t);
    }
  }

  /** When a call returns, what the device has seen is all that was asked of it: the items the call
      was entered with, whole, after those of the calls that returned before. */
  lemma CallDeliversItsItems<T>(states: seq<System<T>>, moves: seq<Move<T>>, i: nat, j: nat, t: Tid)
    requires IsRun(states, moves) && i < j < |moves|
    requires Enters(states[i], moves[i], t) && Leaves(states[j], moves[j], t)
    requires StaysIn(states, moves, i, j, t)
    ensures states[j + 1].finished == states[j].finished + [moves[i].items]
    ensures states[j + 1].output == Flatten(states[j].finished) + moves[i].items
  {
    ItemsKept(states, moves, i, j, t);
    RunMoves(states, moves, j, t);
    CallsNotInterleaved(states, moves, j + 1);
    NobodyAfterLeave(states, moves, j);
    var f := states[j].finished;
    assert (f + [moves[i].items])[..|f|] == f;
  }

  lemma NobodyAfterLeave<T>(states: seq<System<T>>, moves: seq<Move<T>>, j: nat)
    requires IsRun(states, moves) && j < |moves| && moves[j].Leave?
    ensures states[j + 1].holder.None?
  {
    RunSane(states, moves, j);
    assert Follows(states[j], moves[j], states[j + 1]);
  }

  lemma NobodyAtFirst<T>(states: seq<System<T>>, moves: seq<Move<T>>, t: Tid)
    requires IsRun(states, moves)
    ensures CallOf(states[0], t).Outside?
  {
  }

  lemma StaysLonger<T>(states: seq<System<T>>, moves: seq<Move<T>>, i: nat, j: nat, t: Tid)
    requires |states| == |moves| + 1 && 0 < j <= |moves|
    requires StaysIn(states, moves, i, j - 1, t) && !Leaves(states[j - 1], moves[j - 1], t)
    ensures StaysIn(states, moves, i, j, t)
  {
  }

  /** A thread in a call entered it, with the items it has. */
  lemma {:induction false} CallWasEntered<T>(states: seq<System<T>>, moves: seq<Move<T>>, j: nat, t: Tid)
    returns (i: nat)
    requires IsRun(states, moves) && j <= |moves| && !CallOf(states[j], t).Outside?
    ensures i < j && Enters(states[i], moves[i], t) && moves[i].items == CallOf(states[j], t).items
    ensures StaysIn(states, moves, i, j, t)
  {
    NobodyAtFirst(states, moves, t);
    RunMoves(states, moves, j - 1, t);
    if Enters(states[j - 1], moves[j - 1], t) {
      i := j - 1;
    } else {
      i := CallWasEntered(states, moves, j - 1, t);
      StaysLonger(states, moves, i, j, t);
    }
  }

  /** While a call is in progress, the device has seen the calls that returned and a prefix of the
      items the holder's call was entered with. */
  lemma HolderSendsWhatItWasGiven<T>(states: seq<System<T>>, moves: seq<Move<T>>, j: nat) returns (i: nat, n: nat)
    requires IsRun(states, moves) && j <= |moves| && states[j].holder.Some?
    ensures i < j && Enters(states[i], moves[i], states[j].holder.value) && n <= |moves[i].items|
    ensures StaysIn(states, moves, i, j, states[j].holder.value)
    ensures states[j].output == Flatten(states[j].finished) + moves[i].items[..n]
  {
    CallsNotInterleaved(states, moves, j);
    var t := states[j].holder.value;
    i := CallWasEntered(states, moves, j, t);
    n :| 0 <= n <= |moves[i].items| && states[j].output == Flatten(states[j].finished) + moves[i].items[..n];
  }

  /** No deadlock: when nothing is ready to run and the device is not working, no call is in progress. */
  lemma NobodyStuck<T>(s: System<T>, t: Tid)
    requires Sane(s) && s.k.phase == Idling && s.k.ready == [] && !s.active
    ensures CallOf(s, t).Outside?
  {
    NothingLeftToWake(s.k, s.lock);
    NothingLeftToWake(s.k, s.done);
    assert Agrees(s, t);
    if s.holder.Some? {
      HolderMoves(s, s.holder.value);
    }
    if t in s.k.threads {
      assert Placed(s.k, t);
      assert Queued(s.k, s.lock);
    }
  }

  lemma HolderMoves<T>(s: System<T>, h: Tid)
    requires Sane(s) && s.k.phase == Idling && s.k.ready == [] && s.holder == Some(h)
    requires s.k.sems[s.done].queue != [] ==> s.k.sems[s.done].value == 0
    ensures s.active
  {
    assert Agrees(s, h);
    assert Placed(s.k, h);
    assert Queued(s.k, s.done);
  }
}
