/** What each kernel operation does, read off the states before and after it and nothing else, over
    every run: who becomes ready, who runs, who waits, and what stays. */
module KernelEffects {
  import opened Kernel
  import opened KernelLaws

  predicate IsStatus(s: State, t: Tid, status: Status) {
    t in s.threads && s.threads[t].status == status
  }

  /** The head of the ready list takes the CPU; `ready` is the list it is taken from. */
  ghost predicate HeadRuns(s: State, s': State, ready: seq<Tid>) {
    && ready != []
    && s'.current == ready[0] && s'.ready == ready[1..] && s'.dispatched == s.dispatched + [ready[0]]
    && IsStatus(s', ready[0], Running) && s'.phase == Switched
  }

  ghost predicate NobodySwitches(s: State, s': State) {
    s'.current == s.current && s'.dispatched == s.dispatched
  }

  /** The current thread leaves the CPU blocked: the head of the ready list runs, or nobody does. */
  ghost predicate GivesUpCpu(s: State, s': State) {
    && IsStatus(s', s.current, Blocked)
    && if s.ready != [] then HeadRuns(s, s', s.ready)
       else NobodySwitches(s, s') && s'.ready == [] && s'.phase == Idling
  }

  ghost predicate OthersKeepStatus(s: State, s': State, changed: set<Tid>) {
    forall t :: t in s.threads && t !in changed ==> t in s'.threads && s'.threads[t].status == s.threads[t].status
  }

  ghost predicate OtherSemaphoresKept(s: State, s': State, q: Sid) {
    s'.sems.Keys == s.sems.Keys && forall r :: r in s.sems && r != q ==> s'.sems[r] == s.sems[r]
  }

  /** One test of a semaphore by the current thread: it takes a unit and goes on, or queues up last
      and gives up the CPU. */
  ghost predicate Tests(s: State, s': State, q: Sid)
    requires q in s.sems
  {
    && OtherSemaphoresKept(s, s', q)
    && if s.sems[q].value > 0 then
         && s'.sems[q].value == s.sems[q].value - 1 && s'.sems[q].queue == s.sems[q].queue
         && NobodySwitches(s, s') && s'.ready == s.ready && s'.phase == Executing
         && OthersKeepStatus(s, s', {})
       else
         && s'.sems[q].value == s.sems[q].value && s'.sems[q].queue == s.sems[q].queue + [s.current]
         && GivesUpCpu(s, s')
         && OthersKeepStatus(s, s', {s.current, s'.current})
  }

  /** The thread in the place of the one to be destroyed is gone, and nobody else. */
  ghost predicate Destroyed(s: State, s': State) {
    && s'.toBeDestroyed == None
    && s'.threads.Keys == s.threads.Keys - if s.toBeDestroyed.Some? then {s.toBeDestroyed.value} else {}
  }

  ghost predicate Effect(s: State, a: Action, s': State)
    requires Safe(s) && Enabled(s, a)
  {
    match a
    case NewThread(t) =>
      && s'.threads.Keys == s.threads.Keys + {t} && IsStatus(s', t, JustCreated) && OthersKeepStatus(s, s', {})
      && NobodySwitches(s, s') && s'.ready == s.ready && s'.sems == s.sems && s'.phase == s.phase
    case NewSemaphore(q, v) =>
      && s'.sems.Keys == s.sems.Keys + {q} && s'.sems[q].value == v && s'.sems[q].queue == []
      && (forall r :: r in s.sems ==> s'.sems[r] == s.sems[r])
      && NobodySwitches(s, s') && s'.ready == s.ready && s'.threads == s.threads && s'.phase == s.phase
    case Start(t) =>
      && s'.ready == s.ready + [t] && IsStatus(s', t, Ready) && OthersKeepStatus(s, s', {t})
      && NobodySwitches(s, s') && s'.sems == s.sems && s'.threads.Keys == s.threads.Keys && s'.phase == s.phase
    case Yield =>
      if s.ready == [] then s' == s
      else
        && HeadRuns(s, s', s.ready + [s.current]) && IsStatus(s', s.current, Ready)
        && OthersKeepStatus(s, s', {s.current, s'.current})
        && s'.sems == s.sems && s'.threads.Keys == s.threads.Keys
    case P(q) => Tests(s, s', q) && s'.threads.Keys == s.threads.Keys && s'.toBeDestroyed == s.toBeDestroyed
    case V(q) =>
      && OtherSemaphoresKept(s, s', q) && s'.sems[q].value == s.sems[q].value + 1
      && NobodySwitches(s, s') && s'.threads.Keys == s.threads.Keys && s'.phase == s.phase
      && (if s.sems[q].queue == [] then
            s'.sems[q].queue == [] && s'.ready == s.ready && OthersKeepStatus(s, s', {})
          else
            var woken := s.sems[q].queue[0];
            && s'.sems[q].queue == s.sems[q].queue[1..] && s'.ready == s.ready + [woken]
            && IsStatus(s', woken, Ready) && OthersKeepStatus(s, s', {woken}))
    case Finish =>
      && s'.toBeDestroyed == Some(s.current) && GivesUpCpu(s, s')
      && OthersKeepStatus(s, s', {s.current, s'.current})
      && s'.sems == s.sems && s'.threads.Keys == s.threads.Keys
    case Dispatch =>
      && HeadRuns(s, s', s.ready) && OthersKeepStatus(s, s', {s'.current})
      && s'.sems == s.sems && s'.threads.Keys == s.threads.Keys && s'.toBeDestroyed == s.toBeDestroyed
    case Resumed =>
      && Destroyed(s, s')
      && match s.threads[s.current].resume
         case InP(q) => Rechecks(s, s', q)
         case _ =>
           && NobodySwitches(s, s') && s'.ready == s.ready && s'.sems == s.sems && s'.phase == Executing
           && forall t :: t in s'.threads ==> s'.threads[t].status == s.threads[t].status
  }

  /** The test of a thread that comes back to P's loop, apart from the thread it destroys. */
  ghost predicate Rechecks(s: State, s': State, q: Sid)
    requires q in s.sems
  {
    && OtherSemaphoresKept(s, s', q)
    && if s.sems[q].value > 0 then
         && s'.sems[q].value == s.sems[q].value - 1 && s'.sems[q].queue == s.sems[q].queue
         && NobodySwitches(s, s') && s'.ready == s.ready && s'.phase == Executing
       else
         && s'.sems[q].value == s.sems[q].value && s'.sems[q].queue == s.sems[q].queue + [s.current]
         && GivesUpCpu(s, s')
  }

  lemma TryPEffect(s: State, q: Sid)
    requires Safe(s) && s.phase == Executing && q in s.sems && s.sems[q].value >= 0
    ensures Tests(s, TryP(s, q), q) && TryP(s, q).threads.Keys == s.threads.Keys
    ensures TryP(s, q).toBeDestroyed == s.toBeDestroyed
  {
    if s.ready != [] {
      assert s.ready[0] in s.ready;
    }
  }

  lemma ResumedEffect(s: State)
    requires Lawful(s) && s.phase == Switched
    ensures Effect(s, Resumed, Step(s, Resumed))
  {
    CleanedUpSafe(s);
    assert Placed(s, s.current);
    var r := s.threads[s.current].resume;
    if r.InP? {
      assert Balanced(s.sems[r.sem]);
      TryPEffect(CleanedUp(s), r.sem);
    }
  }

  lemma SwitchEffect(s: State, a: Action)
    requires Lawful(s) && Enabled(s, a) && (a.Yield? || a.Finish? || a.Dispatch?)
    ensures Effect(s, a, Step(s, a))
  {
    if s.ready != [] {
      assert s.ready[0] in s.ready;
    }
  }

  lemma VEffect(s: State, q: Sid)
    requires Lawful(s) && Enabled(s, V(q))
    ensures Effect(s, V(q), Step(s, V(q)))
  {
    assert Queued(s, q);
  }

  lemma StepEffect(s: State, a: Action)
    requires Lawful(s) && Enabled(s, a)
    ensures Effect(s, a, Step(s, a))
  {
    match a {
      case P(q) =>
        assert Balanced(s.sems[q]);
        TryPEffect(s, q);
      case V(q) => VEffect(s, q);
      case Resumed => ResumedEffect(s);
      case NewThread(t) =>
      case NewSemaphore(q, v) =>
      case Start(t) =>
      case _ => SwitchEffect(s, a);
    }
  }

  /** Every step of every run has exactly the effect of its operation. */
  lemma RunEffects(main: Tid, states: seq<State>, actions: seq<Action>, i: nat)
    requires IsRun(main, states, actions) && i < |actions|
    ensures Safe(states[i]) && Enabled(states[i], actions[i])
    ensures Effect(states[i], actions[i], states[i + 1])
  {
    RunLawful(main, states, actions, i);
    assert Follows(states[i], actions[i], states[i + 1]);
    StepEffect(states[i], actions[i]);
  }

  /** A thread that is started runs: at the latest when all those ahead of it in the ready list have
      been dispatched, the next dispatch is its own. */
  lemma StartedThreadRuns(main: Tid, states: seq<State>, actions: seq<Action>, i: nat, j: nat, t: Tid)
    requires IsRun(main, states, actions) && i < j < |states| && actions[i] == Start(t)
    requires |states[j].dispatched| > |states[i].dispatched| + |states[i].ready|
    ensures states[j].dispatched[|states[i].dispatched| + |states[i].ready|] == t
  {
    RunEffects(main, states, actions, i);
    DispatchOrder(main, states, actions, i + 1, j, |states[i].ready|);
  }
}
