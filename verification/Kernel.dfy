/** The uniprocessor thread kernel as a step machine.  Each action is one stretch of code that
    runs with interrupts off and so cannot be interleaved: a semaphore or thread operation up to
    the point where it returns or switches, the code a thread runs when SWITCH brings it back,
    an interrupt handler's V, or one turn of Sleep's idle loop. */
module Kernel {

  type Tid = nat
  type Sid = nat

  datatype Option<T> = None | Some(value: T)

  datatype Status = JustCreated | Running | Ready | Blocked

  /** Where a thread carries on when it is next on the CPU. */
  datatype Resume =
    | AtStart        // ThreadRoot, which first calls SetupThreadState
    | AtCode         // on the CPU, outside any interrupts-off stretch
    | InYield        // after SWITCH in Yield
    | InP(sem: Sid)  // after SWITCH in Sleep, called from P: recheck the value
    | InFinish       // nowhere: it will be destroyed

  datatype Thread = Thread(status: Status, resume: Resume)

  /** `initial`, `vs`, `ps`, `slept` and `woken` are the semaphore's history. */
  datatype Semaphore = Semaphore(value: int, queue: seq<Tid>, initial: int, vs: nat, ps: nat, slept: seq<Tid>,
      woken: seq<Tid>)

  datatype Phase =
    | Executing  // the current thread runs, interrupts on
    | Switched   // SWITCH has just put the current thread on the CPU
    | Idling     // the current thread is in Sleep, looping on Idle because nothing is ready

  /** `readied` and `dispatched` are the history of the ready list. */
  datatype State = State(
    current: Tid,
    threads: map<Tid, Thread>,
    ready: seq<Tid>,
    sems: map<Sid, Semaphore>,
    toBeDestroyed: Option<Tid>,
    phase: Phase,
    readied: seq<Tid>,
    dispatched: seq<Tid>)

  datatype Action =
    | NewThread(t: Tid)
    | NewSemaphore(q: Sid, v: nat)
    | Start(t: Tid)
    | Yield
    | P(q: Sid)
    | V(q: Sid)
    | Finish
    | Resumed    // the code after SWITCH, in the thread just switched to
    | Dispatch   // Sleep's idle loop finds a ready thread

  // The operations

  function SetStatus(s: State, t: Tid, status: Status): (s': State)
    requires t in s.threads
  {
    s.(threads := s.threads[t := s.threads[t].(status := status)])
  }

  function SetResume(s: State, t: Tid, r: Resume): (s': State)
    requires t in s.threads
  {
    s.(threads := s.threads[t := s.threads[t].(resume := r)])
  }

  function ReadyToRun(s: State, t: Tid): (s': State)
    requires t in s.threads
  {
    SetStatus(s, t, Ready).(ready := s.ready + [t], readied := s.readied + [t])
  }

  /** FindNextToRun followed by Scheduler::Run, up to and including SWITCH. */
  function RunNext(s: State): (s': State)
    requires s.ready != [] && s.ready[0] in s.threads
  {
    var next := s.ready[0];
    SetStatus(s, next, Running).(
      ready := s.ready[1..], dispatched := s.dispatched + [next], current := next, phase := Switched)
  }

  function Sleep(s: State): (s': State)
    requires s.current in s.threads
    requires s.ready != [] ==> s.ready[0] in s.threads
  {
    var b := SetStatus(s, s.current, Blocked);
    if b.ready == [] then b.(phase := Idling) else RunNext(b)
  }

  /** One test of P's loop: take the value, or queue up and sleep. */
  function TryP(s: State, q: Sid): (s': State)
    requires s.current in s.threads && q in s.sems
    requires s.ready != [] ==> s.ready[0] in s.threads
  {
    var m := s.sems[q];
    if m.value == 0 then
      var w := SetResume(s, s.current, InP(q));
      Sleep(w.(sems := w.sems[q := m.(queue := m.queue + [s.current], slept := m.slept + [s.current])]))
    else
      SetResume(s, s.current, AtCode).(
        sems := s.sems[q := m.(value := m.value - 1, ps := m.ps + 1)], phase := Executing)
  }

  function DoV(s: State, q: Sid): (s': State)
    requires q in s.sems
    requires s.sems[q].queue != [] ==> s.sems[q].queue[0] in s.threads
  {
    var m := s.sems[q];
    if m.queue == [] then
      s.(sems := s.sems[q := m.(value := m.value + 1, vs := m.vs + 1)])
    else
      var t := m.queue[0];
      ReadyToRun(s, t).(
        sems := s.sems[q := m.(queue := m.queue[1..], woken := m.woken + [t], value := m.value + 1, vs := m.vs + 1)])
  }

  function DoYield(s: State): (s': State)
    requires s.current in s.threads
    requires s.ready != [] ==> s.ready[0] in s.threads
  {
    // FindNextToRun removes the next thread before Yield puts this one at the back
    if s.ready == [] then s
    else
      var a := ReadyToRun(SetResume(s, s.current, InYield), s.current);
      RunNext(a)
  }

  /** The rest of Scheduler::Run, or SetupThreadState: delete a finished thread. */
  function CleanedUp(s: State): (s': State)
    requires s.current in s.threads && (s.toBeDestroyed.Some? ==> s.toBeDestroyed.value != s.current)
  {
    var d := if s.toBeDestroyed.Some? then s.(threads := s.threads - {s.toBeDestroyed.value}, toBeDestroyed := None)
        else s;
    SetResume(d, d.current, AtCode).(phase := Executing)
  }

  /** What a thread does when SWITCH returns to it: clean up, then carry on where it left off. */
  function AfterSwitch(s: State): (s': State)
    requires s.current in s.threads && (s.toBeDestroyed.Some? ==> s.toBeDestroyed.value != s.current)
    requires s.threads[s.current].resume.InP? ==> s.threads[s.current].resume.sem in s.sems
    requires s.ready != [] ==> s.ready[0] in s.threads && s.toBeDestroyed != Some(s.ready[0])
  {
    match s.threads[s.current].resume
    case InP(q) => TryP(CleanedUp(s), q)
    case _ => CleanedUp(s)
  }

  function Init(main: Tid): (s: State) {
    State(main, map[main := Thread(Running, AtCode)], [], map[], None, Executing, [], [])
  }

  /** What the callers may do in a state. */
  predicate Enabled(s: State, a: Action) {
    match a
    case NewThread(t) => s.phase == Executing && t !in s.threads
    case NewSemaphore(q, v) => s.phase == Executing && q !in s.sems
    case Start(t) => s.phase == Executing && t in s.threads && s.threads[t].status == JustCreated
    case Yield => s.phase == Executing
    case P(q) => s.phase == Executing && q in s.sems
    case V(q) => s.phase != Switched && q in s.sems
    case Finish => s.phase == Executing
    case Resumed => s.phase == Switched
    case Dispatch => s.phase == Idling && s.ready != []
  }

  ghost function Step(s: State, a: Action): (s': State)
    requires Safe(s) && Enabled(s, a)
  {
    match a
    case NewThread(t) => s.(threads := s.threads[t := Thread(JustCreated, AtStart)])
    case NewSemaphore(q, v) => s.(sems := s.sems[q := Semaphore(v, [], v, 0, 0, [], [])])
    case Start(t) => ReadyToRun(s, t)
    case Yield => DoYield(s)
    case P(q) => TryP(s, q)
    case V(q) => DoV(s, q)
    case Finish => Sleep(SetResume(s, s.current, InFinish).(toBeDestroyed := Some(s.current)))
    case Resumed => AfterSwitch(s)
    case Dispatch => RunNext(s)
  }

  // The invariant

  predicate NoDup(q: seq<Tid>) {
    forall i, j :: 0 <= i < j < |q| ==> q[i] != q[j]
  }

  /** Status and place agree for one thread. */
  predicate Placed(s: State, t: Tid)
    requires t in s.threads
  {
    var h := s.threads[t];
    && (h.status == Ready <==> t in s.ready)
    && (h.status == Running <==> t == s.current && s.phase != Idling)
    && (h.status == JustCreated ==> h.resume == AtStart)
    && (h.status == Blocked ==> h.resume.InP? || h.resume.InFinish?)
    && (h.resume.InP? ==> h.resume.sem in s.sems)
    && (h.resume.InFinish? <==> s.toBeDestroyed == Some(t))
    && (h.resume.InFinish? ==> h.status == Blocked)
    && (h.resume.AtCode? <==> t == s.current && s.phase == Executing)
  }

  /** Semaphore queues hold exactly the threads blocked on them. */
  ghost predicate Queued(s: State, q: Sid)
    requires q in s.sems
  {
    && NoDup(s.sems[q].queue)
    && forall t :: t in s.sems[q].queue <==> t in s.threads && s.threads[t] == Thread(Blocked, InP(q))
  }

  ghost predicate Safe(s: State) {
    && s.current in s.threads
    && NoDup(s.ready) && (forall t :: t in s.ready ==> t in s.threads)
    && (forall t :: t in s.threads ==> Placed(s, t))
    && (forall q :: q in s.sems ==> Queued(s, q))
    && (s.toBeDestroyed.Some? ==> s.toBeDestroyed.value in s.threads)
    && (s.phase == Executing ==> s.toBeDestroyed.None?)
    && (s.phase == Idling && s.toBeDestroyed.Some? ==> s.toBeDestroyed.value == s.current)
  }

  lemma Tail(q: seq<Tid>)
    requires NoDup(q) && q != []
    ensures NoDup(q[1..]) && q[0] !in q[1..]
    ensures forall t :: t in q <==> t == q[0] || t in q[1..]
  {
    assert q == [q[0]] + q[1..];
  }

  lemma InitSafe(main: Tid)
    ensures Safe(Init(main))
  {
  }

  /** Switching away from a thread that is already off the CPU. */
  lemma DispatchSafe(s: State)
    requires Safe(s) && s.phase == Idling && s.ready != []
    ensures Safe(RunNext(s))
  {
    var s' := RunNext(s);
    Tail(s.ready);
    forall t | t in s'.threads
      ensures Placed(s', t)
    {
      assert Placed(s, t);
    }
    forall q | q in s'.sems
      ensures Queued(s', q)
    {
      assert Queued(s, q);
    }
  }

  lemma StartSafe(s: State, t: Tid)
    requires Safe(s) && Enabled(s, Start(t))
    ensures Safe(Step(s, Start(t)))
  {
    var s' := ReadyToRun(s, t);
    forall u | u in s'.threads
      ensures Placed(s', u)
    {
      assert Placed(s, u);
    }
    forall q | q in s'.sems
      ensures Queued(s', q)
    {
      assert Queued(s, q);
    }
  }

  lemma YieldSafe(s: State)
    requires Safe(s) && s.phase == Executing
    ensures Safe(DoYield(s))
  {
    var a := ReadyToRun(SetResume(s, s.current, InYield), s.current).(phase := Idling);
    forall u | u in a.threads
      ensures Placed(a, u)
    {
      assert Placed(s, u);
    }
    forall q | q in a.sems
      ensures Queued(a, q)
    {
      assert Queued(s, q);
    }
    DispatchSafe(a);
  }

  /** The queue-and-sleep branch of P, before the next thread is chosen. */
  function WaitOn(s: State, q: Sid): (s': State)
    requires s.current in s.threads && q in s.sems
  {
    var m := s.sems[q];
    SetStatus(SetResume(s, s.current, InP(q)), s.current, Blocked).(
      sems := s.sems[q := m.(queue := m.queue + [s.current], slept := m.slept + [s.current])], phase := Idling)
  }

  lemma WaitSafe(s: State, q: Sid)
    requires Safe(s) && s.phase == Executing && q in s.sems
    ensures Safe(WaitOn(s, q))
  {
    var w := WaitOn(s, q);
    assert Placed(s, s.current);
    forall u | u in w.threads
      ensures Placed(w, u)
    {
      assert Placed(s, u);
    }
    forall r | r in w.sems
      ensures Queued(w, r)
    {
      assert Queued(s, r);
    }
  }

  lemma TryPSafe(s: State, q: Sid)
    requires Safe(s) && s.phase == Executing && q in s.sems
    ensures Safe(TryP(s, q))
  {
    if s.sems[q].value == 0 {
      WaitSafe(s, q);
      var w := WaitOn(s, q);
      if s.ready != [] {
        DispatchSafe(w);
        assert TryP(s, q) == RunNext(w);
      } else {
        assert TryP(s, q) == w;
      }
    } else {
      var s' := TryP(s, q);
      assert s'.threads == s.threads;
      forall u | u in s'.threads
        ensures Placed(s', u)
      {
        assert Placed(s, u);
      }
      forall r | r in s'.sems
        ensures Queued(s', r)
      {
        assert Queued(s, r);
      }
    }
  }

  lemma VSafe(s: State, q: Sid)
    requires Safe(s) && Enabled(s, V(q))
    ensures Safe(DoV(s, q))
  {
    var s' := DoV(s, q);
    assert Queued(s, q);
    if s.sems[q].queue != [] {
      var t := s.sems[q].queue[0];
      Tail(s.sems[q].queue);
      assert Placed(s, t);
    }
    forall u | u in s'.threads
      ensures Placed(s', u)
    {
      assert Placed(s, u);
    }
    forall r | r in s'.sems
      ensures Queued(s', r)
    {
      assert Queued(s, r);
    }
  }

  lemma FinishSafe(s: State)
    requires Safe(s) && s.phase == Executing
    ensures Safe(Step(s, Finish))
  {
    var f := SetStatus(SetResume(s, s.current, InFinish), s.current, Blocked).(toBeDestroyed := Some(s.current),
        phase := Idling);
    assert Placed(s, s.current);
    forall u | u in f.threads
      ensures Placed(f, u)
    {
      assert Placed(s, u);
    }
    forall r | r in f.sems
      ensures Queued(f, r)
    {
      assert Queued(s, r);
    }
    if s.ready != [] {
      DispatchSafe(f);
      assert Step(s, Finish) == RunNext(f);
    } else {
      assert Step(s, Finish) == f;
    }
  }

  lemma CleanedUpSafe(s: State)
    requires Safe(s) && s.phase == Switched
    ensures s.toBeDestroyed.Some? ==> s.toBeDestroyed.value != s.current
    ensures Safe(CleanedUp(s))
  {
    assert Placed(s, s.current);
    if s.toBeDestroyed.Some? {
      assert Placed(s, s.toBeDestroyed.value);
    }
    var e := CleanedUp(s);
    forall u | u in e.threads
      ensures Placed(e, u)
    {
      assert Placed(s, u);
    }
    forall r | r in e.sems
      ensures Queued(e, r)
    {
      assert Queued(s, r);
    }
  }

  lemma ResumedSafe(s: State)
    requires Safe(s) && s.phase == Switched
    ensures Safe(Step(s, Resumed))
  {
    CleanedUpSafe(s);
    assert Placed(s, s.current);
    if s.threads[s.current].resume.InP? {
      TryPSafe(CleanedUp(s), s.threads[s.current].resume.sem);
    }
  }

  /** Every step keeps every thread in exactly one place. */
  lemma StepSafe(s: State, a: Action)
    requires Safe(s) && Enabled(s, a)
    ensures Safe(Step(s, a))
  {
    match a {
      case NewThread(t) =>
        var s' := Step(s, a);
        forall u | u in s'.threads
          ensures Placed(s', u)
        {
          assert u != t ==> Placed(s, u);
        }
        forall q | q in s'.sems
          ensures Queued(s', q)
        {
          assert Queued(s, q);
        }
      case NewSemaphore(q, v) =>
        var s' := Step(s, a);
        forall u | u in s'.threads
          ensures Placed(s', u)
        {
          assert Placed(s, u);
        }
        forall r | r in s'.sems
          ensures Queued(s', r)
        {
          assert r != q ==> Queued(s, r);
        }
      case Start(t) => StartSafe(s, t);
      case Yield => YieldSafe(s);
      case P(q) => TryPSafe(s, q);
      case V(q) => VSafe(s, q);
      case Finish => FinishSafe(s);
      case Resumed => ResumedSafe(s);
      case Dispatch => DispatchSafe(s);
    }
  }
}
