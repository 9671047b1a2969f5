/** What holds in every state the kernel can reach: no lost wakeups, exact semaphore accounts,
    first-come-first-served queues, and every thread in exactly one place. */
module KernelLaws {
  import opened Kernel

  /** Threads woken from `q` that have not rechecked its value yet. */
  ghost function Pending(s: State, q: Sid): (w: set<Tid>) {
    set t | t in s.threads && s.threads[t].resume == InP(q) && s.threads[t].status != Blocked
  }

  /** No wakeup is lost: while threads wait, every unit of value has a woken thread coming for it. */
  ghost predicate Covered(s: State, q: Sid)
    requires q in s.sems
  {
    s.sems[q].queue != [] ==> s.sems[q].value <= |Pending(s, q)|
  }

  /** A semaphore's account and its queue history. */
  ghost predicate Balanced(m: Semaphore) {
    && m.value >= 0 && m.value == m.initial + m.vs - m.ps
    && m.slept == m.woken + m.queue
  }

  ghost predicate Lawful(s: State) {
    && Safe(s)
    && Books(s)
    && (forall q :: q in s.sems ==> Covered(s, q))
  }

  // Which steps change who is coming

  lemma DispatchPending(s: State, r: Sid)
    requires Safe(s) && s.ready != []
    ensures Pending(RunNext(s), r) == Pending(s, r)
  {
    assert Placed(s, s.ready[0]);
  }

  lemma WaitPending(s: State, q: Sid, r: Sid)
    requires Safe(s) && s.phase == Executing && q in s.sems
    ensures Pending(WaitOn(s, q), r) == Pending(s, r)
  {
    assert Placed(s, s.current);
  }

  lemma TryPPending(s: State, q: Sid, r: Sid)
    requires Safe(s) && s.phase == Executing && q in s.sems
    ensures Pending(TryP(s, q), r) == Pending(s, r)
  {
    assert Placed(s, s.current);
    if s.sems[q].value == 0 {
      WaitSafe(s, q);
      WaitPending(s, q, r);
      var w := WaitOn(s, q);
      if s.ready != [] {
        DispatchPending(w, r);
        assert TryP(s, q) == RunNext(w);
      } else {
        assert TryP(s, q) == w;
      }
    } else {
      assert TryP(s, q).threads == s.threads;
    }
  }

  lemma VPending(s: State, q: Sid, r: Sid)
    requires Safe(s) && Enabled(s, V(q))
    ensures |Pending(DoV(s, q), r)| == |Pending(s, r)| + if r == q && s.sems[q].queue != [] then 1 else 0
  {
    assert Queued(s, q);
    if r == q && s.sems[q].queue != [] {
      assert Pending(DoV(s, q), r) == Pending(s, r) + {s.sems[q].queue[0]};
    } else {
      assert Pending(DoV(s, q), r) == Pending(s, r);
    }
  }

  lemma CleanedUpWoken(s: State, r: Sid, t: Tid)
    requires Safe(s) && s.phase == Switched && (s.toBeDestroyed.Some? ==> s.toBeDestroyed.value != s.current)
    ensures t in Pending(CleanedUp(s), r) <==> t in Pending(s, r) && t != s.current
    ensures s.current in Pending(s, r) <==> s.threads[s.current].resume == InP(r)
  {
    assert Placed(s, s.current);
    if s.toBeDestroyed.Some? {
      assert Placed(s, s.toBeDestroyed.value);
    }
  }

  lemma CleanedUpPending(s: State, r: Sid)
    requires Safe(s) && s.phase == Switched && (s.toBeDestroyed.Some? ==> s.toBeDestroyed.value != s.current)
    ensures |Pending(CleanedUp(s), r)| == |Pending(s, r)| - if s.threads[s.current].resume == InP(r) then 1 else 0
  {
    CleanedUpWoken(s, r, s.current);
    forall t
      ensures t in Pending(CleanedUp(s), r) <==> t in Pending(s, r) - {s.current}
    {
      CleanedUpWoken(s, r, t);
    }
    assert Pending(CleanedUp(s), r) == Pending(s, r) - {s.current};
  }

  lemma YieldPending(s: State, r: Sid)
    requires Safe(s) && s.phase == Executing
    ensures Pending(DoYield(s), r) == Pending(s, r)
  {
    assert Placed(s, s.current);
    if s.ready != [] {
      assert Placed(s, s.ready[0]);
    }
  }

  lemma FinishPending(s: State, r: Sid)
    requires Safe(s) && s.phase == Executing
    ensures Pending(Step(s, Finish), r) == Pending(s, r)
  {
    assert Placed(s, s.current);
    if s.ready != [] {
      assert Placed(s, s.ready[0]);
    }
  }

  // No lost wakeups

  lemma TryPCovered(s: State, q: Sid, r: Sid)
    requires Safe(s) && s.phase == Executing && q in s.sems && r in s.sems
    requires s.sems[q].value >= 0
    requires r != q ==> Covered(s, r)
    requires r == q && s.sems[q].queue != [] ==> s.sems[q].value <= |Pending(s, q)| + 1
    ensures Covered(TryP(s, q), r)
  {
    TryPPending(s, q, r);
  }

  lemma ResumedCovered(s: State, r: Sid)
    requires Safe(s) && s.phase == Switched && r in s.sems && Covered(s, r)
    requires forall q :: q in s.sems ==> s.sems[q].value >= 0
    ensures Covered(Step(s, Resumed), r)
  {
    CleanedUpSafe(s);
    CleanedUpPending(s, r);
    assert Placed(s, s.current);
    if s.threads[s.current].resume.InP? {
      TryPCovered(CleanedUp(s), s.threads[s.current].resume.sem, r);
    }
  }

  lemma OtherCovered(s: State, a: Action, r: Sid)
    requires Safe(s) && Enabled(s, a) && r in s.sems && Covered(s, r)
    requires a.NewThread? || a.NewSemaphore? || a.Start?
    ensures Covered(Step(s, a), r)
  {
    if a.Start? {
      assert Placed(s, a.t);
    }
    assert Pending(Step(s, a), r) == Pending(s, r);
  }

  lemma StepCovered(s: State, a: Action, r: Sid)
    requires Safe(s) && Enabled(s, a) && r in s.sems && Covered(s, r)
    requires forall q :: q in s.sems ==> s.sems[q].value >= 0
    ensures Covered(Step(s, a), r)
  {
    match a {
      case Yield => YieldPending(s, r);
      case P(q) => TryPCovered(s, q, r);
      case V(q) => VPending(s, q, r);
      case Finish => FinishPending(s, r);
      case Resumed => ResumedCovered(s, r);
      case Dispatch => DispatchPending(s, r);
      case _ => OtherCovered(s, a, r);
    }
  }

  // Accounts and histories

  ghost predicate Books(s: State) {
    && (forall q :: q in s.sems ==> Balanced(s.sems[q]))
    && s.readied == s.dispatched + s.ready
  }

  lemma TryPBooks(s: State, q: Sid)
    requires Safe(s) && s.phase == Executing && q in s.sems && Books(s)
    ensures Books(TryP(s, q))
  {
    assert Balanced(s.sems[q]);
  }

  lemma VBooks(s: State, q: Sid)
    requires Safe(s) && Enabled(s, V(q)) && Books(s)
    ensures Books(DoV(s, q))
  {
    assert Balanced(s.sems[q]) && Queued(s, q);
  }

  lemma ReadyListBooks(s: State, a: Action)
    requires Safe(s) && Books(s) && Enabled(s, a)
    requires a.Start? || a.Yield? || a.Finish? || a.Dispatch?
    ensures Books(Step(s, a))
  {
    SemaphoresUntouched(s, a);
  }

  lemma SemaphoresUntouched(s: State, a: Action)
    requires Safe(s) && Enabled(s, a) && (a.Start? || a.Yield? || a.Finish? || a.Dispatch?)
    ensures Step(s, a).sems == s.sems
  {
  }

  lemma StepBooks(s: State, a: Action)
    requires Safe(s) && Books(s) && Enabled(s, a)
    ensures Books(Step(s, a))
  {
    match a {
      case P(q) => TryPBooks(s, q);
      case V(q) => VBooks(s, q);
      case Resumed =>
        CleanedUpSafe(s);
        assert Placed(s, s.current);
        if s.threads[s.current].resume.InP? {
          TryPBooks(CleanedUp(s), s.threads[s.current].resume.sem);
        }
      case NewThread(t) =>
      case NewSemaphore(q, v) =>
      case _ => ReadyListBooks(s, a);
    }
  }

  lemma StepAllCovered(s: State, a: Action)
    requires Safe(s) && Enabled(s, a)
    requires forall q :: q in s.sems ==> Covered(s, q)
    requires forall q :: q in s.sems ==> s.sems[q].value >= 0
    ensures forall r :: r in Step(s, a).sems ==> Covered(Step(s, a), r)
  {
    forall r | r in Step(s, a).sems
      ensures Covered(Step(s, a), r)
    {
      if r in s.sems {
        StepCovered(s, a, r);
      }
    }
  }

  /** Every step of every interleaving keeps the laws. */
  lemma StepLawful(s: State, a: Action)
    requires Lawful(s) && Enabled(s, a)
    ensures Lawful(Step(s, a))
  {
    StepSafe(s, a);
    StepBooks(s, a);
    NonNegative(s);
    StepAllCovered(s, a);
  }

  lemma NonNegative(s: State)
    requires Books(s)
    ensures forall q :: q in s.sems ==> s.sems[q].value >= 0
  {
    assert forall q :: q in s.sems ==> Balanced(s.sems[q]);
  }

  // Runs

  /** A run of the kernel from boot: any enabled action at any point. */
  ghost predicate IsRun(main: Tid, states: seq<State>, actions: seq<Action>) {
    && |states| == |actions| + 1
    && states[0] == Init(main)
    && forall i :: 0 <= i < |actions| ==> Follows(states[i], actions[i], states[i + 1])
  }

  ghost predicate Follows(s: State, a: Action, s': State) {
    Safe(s) ==> Enabled(s, a) && s' == Step(s, a)
  }

  /** Every reachable state is lawful. */
  lemma {:induction false} RunLawful(main: Tid, states: seq<State>, actions: seq<Action>, i: nat)
    requires IsRun(main, states, actions) && i < |states|
    ensures Lawful(states[i])
  {
    if i == 0 {
      InitSafe(main);
    } else {
      RunLawful(main, states, actions, i - 1);
      assert Follows(states[i - 1], actions[i - 1], states[i]);
      StepLawful(states[i - 1], actions[i - 1]);
    }
  }

  // Exactly one place

  datatype Place = OnCpu | InReady(i: nat) | InQueue(q: Sid, i: nat) | New | Dying

  ghost predicate At(s: State, t: Tid, p: Place) {
    match p
    case OnCpu => t == s.current && s.phase != Idling
    case InReady(i) => i < |s.ready| && s.ready[i] == t
    case InQueue(q, i) => q in s.sems && i < |s.sems[q].queue| && s.sems[q].queue[i] == t
    case New => t in s.threads && s.threads[t].status == JustCreated
    case Dying => s.toBeDestroyed == Some(t)
  }

  ghost function PlaceOf(s: State, t: Tid): (p: Place)
    requires Safe(s) && t in s.threads
    ensures At(s, t, p)
  {
    var h := s.threads[t];
    assert Placed(s, t);
    match h.status
    case JustCreated => New
    case Running => OnCpu
    case Ready =>
      var i :| 0 <= i < |s.ready| && s.ready[i] == t;
      InReady(i)
    case Blocked =>
      if h.resume.InFinish? then Dying
      else
        assert Queued(s, h.resume.sem);
        assert t in s.sems[h.resume.sem].queue;
        var i :| 0 <= i < |s.sems[h.resume.sem].queue| && s.sems[h.resume.sem].queue[i] == t;
        InQueue(h.resume.sem, i)
  }

  /** A live thread is somewhere, and nowhere else; and nothing else is anywhere. */
  lemma ExactlyOnePlace(s: State, t: Tid)
    requires Safe(s)
    ensures t in s.threads ==> At(s, t, PlaceOf(s, t)) && forall p :: At(s, t, p) ==> p == PlaceOf(s, t)
    ensures t !in s.threads ==> forall p :: !At(s, t, p)
  {
    forall p | At(s, t, p)
      ensures t in s.threads && p == PlaceOf(s, t)
    {
      if p.InQueue? {
        assert Queued(s, p.q);
        assert t in s.sems[p.q].queue;
      }
      if p.InReady? {
        assert t in s.ready;
      }
      assert Placed(s, t);
    }
  }

  /** Finish's ASSERT holds whenever a thread can call it; and when a thread is deleted it is
      neither running nor queued anywhere. */
  lemma SafeDestruction(main: Tid, states: seq<State>, actions: seq<Action>, i: nat)
    requires IsRun(main, states, actions) && i < |states|
    ensures states[i].phase == Executing ==> states[i].toBeDestroyed.None?
    ensures states[i].toBeDestroyed.Some? ==>
              var t := states[i].toBeDestroyed.value;
              && (states[i].phase == Switched ==> t != states[i].current)
              && t !in states[i].ready
              && forall q :: q in states[i].sems ==> t !in states[i].sems[q].queue
  {
    var s := states[i];
    RunLawful(main, states, actions, i);
    if s.toBeDestroyed.Some? {
      assert Placed(s, s.toBeDestroyed.value);
      forall q | q in s.sems
        ensures s.toBeDestroyed.value !in s.sems[q].queue
      {
        assert Queued(s, q);
      }
    }
  }

  // First come, first served

  /** Histories only grow. */
  ghost predicate Extends(s: State, s': State) {
    && s.readied <= s'.readied
    && forall q :: q in s.sems ==> q in s'.sems && s.sems[q].slept <= s'.sems[q].slept
  }

  lemma TryPExtends(s: State, q: Sid)
    requires Safe(s) && s.phase == Executing && q in s.sems
    ensures Extends(s, TryP(s, q))
  {
  }

  lemma StepExtends(s: State, a: Action)
    requires Safe(s) && Enabled(s, a)
    ensures Extends(s, Step(s, a))
  {
    match a {
      case P(q) => TryPExtends(s, q);
      case Resumed =>
        CleanedUpSafe(s);
        assert Placed(s, s.current);
        if s.threads[s.current].resume.InP? {
          TryPExtends(CleanedUp(s), s.threads[s.current].resume.sem);
        }
      case V(q) =>
      case NewSemaphore(q, v) =>
      case _ => assert Step(s, a).sems == s.sems;
    }
  }

  lemma {:induction false} RunExtends(main: Tid, states: seq<State>, actions: seq<Action>, i: nat, j: nat, q: Sid)
    requires IsRun(main, states, actions) && i <= j < |states|
    ensures states[i].readied <= states[j].readied
    ensures q in states[i].sems ==> q in states[j].sems && states[i].sems[q].slept <= states[j].sems[q].slept
  {
    if i < j {
      RunExtends(main, states, actions, i, j - 1, q);
      RunLawful(main, states, actions, j - 1);
      assert Follows(states[j - 1], actions[j - 1], states[j]);
      StepExtends(states[j - 1], actions[j - 1]);
    }
  }

  /** The thread at position k of the ready list is the one chosen at the (k + 1)-th dispatch from then on. */
  lemma DispatchOrder(main: Tid, states: seq<State>, actions: seq<Action>, i: nat, j: nat, k: nat)
    requires IsRun(main, states, actions) && i <= j < |states| && k < |states[i].ready|
    requires |states[j].dispatched| > |states[i].dispatched| + k
    ensures states[j].dispatched[|states[i].dispatched| + k] == states[i].ready[k]
  {
    RunLawful(main, states, actions, i);
    RunLawful(main, states, actions, j);
    RunExtends(main, states, actions, i, j, 0);
    var n := |states[i].dispatched| + k;
    assert states[i].readied[n] == states[i].ready[k];
    assert states[j].readied[n] == states[j].dispatched[n];
  }

  /** V wakes waiters in the order they queued up; what P then does with them is up to the race. */
  lemma WakeOrder(main: Tid, states: seq<State>, actions: seq<Action>, i: nat, j: nat, q: Sid, k: nat)
    requires IsRun(main, states, actions) && i <= j < |states|
    requires q in states[i].sems && k < |states[i].sems[q].queue|
    requires q in states[j].sems && |states[j].sems[q].woken| > |states[i].sems[q].woken| + k
    ensures states[j].sems[q].woken[|states[i].sems[q].woken| + k] == states[i].sems[q].queue[k]
  {
    RunLawful(main, states, actions, i);
    RunLawful(main, states, actions, j);
    RunExtends(main, states, actions, i, j, q);
    var a, b := states[i].sems[q], states[j].sems[q];
    assert Balanced(a) && Balanced(b);
    var n := |a.woken| + k;
    assert a.slept[n] == a.queue[k];
    assert b.slept[n] == b.woken[n];
  }

  /** What "no lost wakeup" comes to: when the machine idles with nothing ready, no semaphore
      that threads wait on has a positive value. */
  lemma NothingLeftToWake(s: State, q: Sid)
    requires Lawful(s) && s.phase == Idling && s.ready == [] && q in s.sems
    ensures Pending(s, q) == {}
    ensures s.sems[q].queue != [] ==> s.sems[q].value == 0
  {
    forall t | t in s.threads
      ensures t !in Pending(s, q)
    {
      assert Placed(s, t);
    }
    assert Pending(s, q) == {};
    assert Covered(s, q) && Balanced(s.sems[q]);
  }

  // What other code can see of a step

  datatype Event = Quiet | PDone(t: Tid, q: Sid) | VDone(q: Sid)

  /** Which P, if any, returns in this step, and which V. */
  function EventOf(s: State, a: Action): (e: Event) {
    match a
    case P(q) => if q in s.sems && s.sems[q].value != 0 then PDone(s.current, q) else Quiet
    case Resumed =>
      if s.current in s.threads && s.threads[s.current].resume.InP? then
        var q := s.threads[s.current].resume.sem;
        if q in s.sems && s.sems[q].value != 0 then PDone(s.current, q) else Quiet
      else Quiet
    case V(q) => VDone(q)
    case _ => Quiet
  }

  lemma TryPValue(s: State, q: Sid, r: Sid)
    requires Safe(s) && s.phase == Executing && q in s.sems && r in s.sems
    ensures r in TryP(s, q).sems
    ensures TryP(s, q).sems[r].value == s.sems[r].value - if r == q && s.sems[q].value != 0 then 1 else 0
  {
  }

  /** Values change only by the P and V calls that complete. */
  lemma ValueChange(s: State, a: Action, q: Sid)
    requires Safe(s) && Enabled(s, a) && q in s.sems
    ensures q in Step(s, a).sems
    ensures var e := EventOf(s, a);
            Step(s, a).sems[q].value
                == s.sems[q].value + (if e == VDone(q) then 1 else 0) - (if e.PDone? && e.q == q then 1 else 0)
  {
    match a {
      case P(p) => TryPValue(s, p, q);
      case Resumed =>
        CleanedUpSafe(s);
        assert Placed(s, s.current);
        if s.threads[s.current].resume.InP? {
          TryPValue(CleanedUp(s), s.threads[s.current].resume.sem, q);
        }
      case V(p) =>
      case NewSemaphore(p, v) =>
      case _ => assert Step(s, a).sems == s.sems;
    }
  }

  /** Where a surviving thread resumes changes only for the current thread. */
  function ResumeAfter(s: State, a: Action): (r: Resume)
    requires s.current in s.threads
  {
    match a
    case P(q) => if EventOf(s, a).PDone? then AtCode else InP(q)
    case Resumed => if EventOf(s, a).Quiet? && s.threads[s.current].resume.InP? then s.threads[s.current].resume
        else AtCode
    case Yield => if s.ready == [] then s.threads[s.current].resume else InYield
    case Finish => InFinish
    case _ => s.threads[s.current].resume
  }

  lemma ResumeChange(s: State, a: Action, t: Tid)
    requires Safe(s) && Enabled(s, a) && t in s.threads
    ensures t in Step(s, a).threads <==> !(a.Resumed? && s.toBeDestroyed == Some(t))
    ensures t in Step(s, a).threads ==>
              Step(s, a).threads[t].resume == if t == s.current then ResumeAfter(s, a) else s.threads[t].resume
  {
    assert Placed(s, s.current) && Placed(s, t);
    if a.Resumed? {
      ResumedChange(s, t);
    } else if s.ready != [] {
      assert s.ready[0] in s.ready;
    }
  }

  lemma ResumedChange(s: State, t: Tid)
    requires Safe(s) && Enabled(s, Resumed) && t in s.threads
    ensures t in Step(s, Resumed).threads <==> s.toBeDestroyed != Some(t)
    ensures t in Step(s, Resumed).threads ==>
              Step(s, Resumed).threads[t].resume == if t == s.current then ResumeAfter(s, Resumed)
                  else s.threads[t].resume
  {
    assert Placed(s, s.current) && Placed(s, t);
    if s.ready != [] {
      assert s.ready[0] in s.ready;
    }
    CleanedUpSafe(s);
  }

  lemma Newcomer(s: State, a: Action, t: Tid)
    requires Safe(s) && Enabled(s, a) && t !in s.threads
    ensures t in Step(s, a).threads <==> a == NewThread(t)
    ensures t in Step(s, a).threads ==> Step(s, a).threads[t].resume == AtStart
  {
    assert Placed(s, s.current);
    if s.ready != [] {
      assert s.ready[0] in s.ready;
    }
    if a.Resumed? {
      CleanedUpSafe(s);
    }
    if a.V? {
      assert Queued(s, a.q);
    }
  }
}
