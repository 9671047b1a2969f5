/** The interrupt simulation: a clock, and a list of interrupts sorted by due time that the
    device simulators fill and OneTick and Idle drain. */
module Interrupts {
  import opened Lists

  datatype Option<T> = None | Some(value: T)

  datatype IntStatus = IntOff | IntOn
  datatype MachineStatus = IdleMode | SystemMode | UserMode
  datatype IntType = TimerInt | DiskInt | ConsoleWriteInt | ConsoleReadInt | NetworkSendInt | NetworkRecvInt

  const USER_TICK := 1
  const SYSTEM_TICK := 10

  /** `id` tells scheduled interrupts apart. */
  datatype PendingInterrupt = PendingInterrupt(id: nat, when: int, kind: IntType)

  datatype Firing = Firing(event: PendingInterrupt, at: int)

  type Delay = n: int | n > 0 witness 1

  /** What an invocation of a handler does to the simulation: the interrupts it schedules, and
      whether it asks for a context switch. */
  datatype Effect = Effect(schedules: seq<(Delay, IntType)>, wantsYield: bool)

  /** How many interrupts are due. */
  ghost function DueCount(m: seq<Entry<PendingInterrupt>>, now: int): (n: nat) {
    if m == [] then 0 else (if m[0].key <= now then 1 else 0) + DueCount(m[1..], now)
  }

  lemma {:induction false} DueInserted(m: seq<Entry<PendingInterrupt>>, e: Entry<PendingInterrupt>, now: int)
    ensures DueCount(Inserted(m, e), now) == DueCount(m, now) + if e.key <= now then 1 else 0
  {
    InsertedCons(m, e);
    if m != [] && m[0].key <= e.key {
      DueInserted(m[1..], e, now);
      assert Inserted(m, e)[1..] == Inserted(m[1..], e);
    } else {
      assert Inserted(m, e)[1..] == m;
    }
  }

  /** Keyed by due time, in order, and none before `earliest`. */
  ghost predicate InOrderFrom(m: seq<Entry<PendingInterrupt>>, earliest: int) {
    m == [] || (m[0].key == m[0].item.when && earliest <= m[0].key && InOrderFrom(m[1..], m[0].key))
  }

  lemma {:induction false} InOrderIsSorted(m: seq<Entry<PendingInterrupt>>, earliest: int)
    requires InOrderFrom(m, earliest)
    ensures Sorted(m) && forall i :: 0 <= i < |m| ==> m[i].key == m[i].item.when && earliest <= m[i].key
  {
    if m != [] {
      InOrderIsSorted(m[1..], m[0].key);
      assert m == [m[0]] + m[1..];
    }
  }

  lemma InsertedCons(m: seq<Entry<PendingInterrupt>>, e: Entry<PendingInterrupt>)
    ensures m == [] || e.key < m[0].key ==> Inserted(m, e) == [e] + m
    ensures m != [] && m[0].key <= e.key ==> Inserted(m, e) == [m[0]] + Inserted(m[1..], e)
  {
  }

  lemma {:induction false} InOrderInserted(m: seq<Entry<PendingInterrupt>>, e: Entry<PendingInterrupt>, earliest: int)
    requires InOrderFrom(m, earliest) && e.key == e.item.when && e.key >= earliest
    ensures InOrderFrom(Inserted(m, e), earliest)
  {
    InsertedCons(m, e);
    if m != [] && m[0].key <= e.key {
      InOrderInserted(m[1..], e, m[0].key);
      assert Inserted(m, e)[1..] == Inserted(m[1..], e);
    } else {
      assert Inserted(m, e)[1..] == m;
    }
  }

  /** How often an interrupt is on the list, and how often it has fired. */
  ghost function TimesPending(x: PendingInterrupt, m: seq<Entry<PendingInterrupt>>): (n: nat) {
    if m == [] then 0 else (if m[0].item == x then 1 else 0) + TimesPending(x, m[1..])
  }

  ghost function TimesScheduled(x: PendingInterrupt, s: seq<PendingInterrupt>): (n: nat) {
    if s == [] then 0 else TimesScheduled(x, s[..|s| - 1]) + if s[|s| - 1] == x then 1 else 0
  }

  lemma {:induction false} TimesIsMultiplicity(x: PendingInterrupt, s: seq<PendingInterrupt>)
    ensures TimesScheduled(x, s) == multiset(s)[x]
  {
    if s != [] {
      var n := |s| - 1;
      TimesIsMultiplicity(x, s[..n]);
      assert s == s[..n] + [s[n]];
    }
  }

  ghost function TimesFired(x: PendingInterrupt, f: seq<Firing>): (n: nat) {
    if f == [] then 0 else TimesFired(x, f[..|f| - 1]) + if f[|f| - 1].event == x then 1 else 0
  }

  lemma {:induction false} TimesInserted(x: PendingInterrupt, m: seq<Entry<PendingInterrupt>>,
                                         e: Entry<PendingInterrupt>)
    ensures TimesPending(x, Inserted(m, e)) == TimesPending(x, m) + if e.item == x then 1 else 0
  {
    InsertedCons(m, e);
    if m != [] && m[0].key <= e.key {
      TimesInserted(x, m[1..], e);
      assert Inserted(m, e)[1..] == Inserted(m[1..], e);
    } else {
      assert Inserted(m, e)[1..] == m;
    }
  }

  /** Every scheduled interrupt, counted with multiplicity, has fired or is pending; nothing else has or is. */
  ghost predicate Conserved(scheduled: seq<PendingInterrupt>, fired: seq<Firing>,
                            pending: seq<Entry<PendingInterrupt>>) {
    forall x :: TimesScheduled(x, scheduled) == TimesFired(x, fired) + TimesPending(x, pending)
  }

  ghost function LastDue(f: seq<Firing>): (t: int) {
    if f == [] then 0 else f[|f| - 1].event.when
  }

  /** Fired in order of due time, and none before it was due. */
  ghost predicate Chronicle(f: seq<Firing>) {
    f == [] ||
    var n := |f| - 1;
    f[n].event.when <= f[n].at && LastDue(f[..n]) <= f[n].event.when && Chronicle(f[..n])
  }

  lemma {:induction false} ChronicleInOrder(f: seq<Firing>)
    requires Chronicle(f)
    ensures forall i :: 0 <= i < |f| ==> f[i].event.when <= f[i].at
    ensures forall i, j :: 0 <= i < j < |f| ==> f[i].event.when <= f[j].event.when
    ensures forall i :: 0 <= i < |f| ==> f[i].event.when <= LastDue(f)
  {
    if f != [] {
      var g := f[..|f| - 1];
      ChronicleInOrder(g);
      assert f == g + [f[|f| - 1]];
    }
  }

  /** Everything ever scheduled has fired or is pending; interrupts fired in order of due time,
      none early; and none pending was due before one that fired. */
  ghost predicate Consistent(scheduled: seq<PendingInterrupt>, fired: seq<Firing>,
                             pending: seq<Entry<PendingInterrupt>>, now: int) {
    && Conserved(scheduled, fired, pending)
    && Chronicle(fired)
    && LastDue(fired) <= now
    && InOrderFrom(pending, LastDue(fired))
  }

  lemma Scheduling(scheduled: seq<PendingInterrupt>, fired: seq<Firing>, pending: seq<Entry<PendingInterrupt>>,
                   now: int, e: PendingInterrupt)
    requires Consistent(scheduled, fired, pending, now) && e.when > now
    ensures Consistent(scheduled + [e], fired, Inserted(pending, Entry(e, e.when)), now)
    ensures DueCount(Inserted(pending, Entry(e, e.when)), now) == DueCount(pending, now)
  {
    DueInserted(pending, Entry(e, e.when), now);
    forall x
      ensures TimesScheduled(x, scheduled + [e])
              == TimesFired(x, fired) + TimesPending(x, Inserted(pending, Entry(e, e.when)))
    {
      TimesInserted(x, pending, Entry(e, e.when));
      assert (scheduled + [e])[..|scheduled|] == scheduled;
    }
    InOrderInserted(pending, Entry(e, e.when), LastDue(fired));
  }

  lemma FiringOne(scheduled: seq<PendingInterrupt>, fired: seq<Firing>, pending: seq<Entry<PendingInterrupt>>,
                  now: int)
    requires Consistent(scheduled, fired, pending, now) && pending != [] && pending[0].key <= now
    ensures Consistent(scheduled, fired + [Firing(pending[0].item, now)], pending[1..], now)
    ensures DueCount(pending[1..], now) == DueCount(pending, now) - 1
  {
    var f := fired + [Firing(pending[0].item, now)];
    assert f[..|f| - 1] == fired;
  }

  /** An interrupt that is not due goes back on the list.  Among equal due times it goes last, so
      the order of ties may change; nothing else does. */
  lemma PuttingBack(scheduled: seq<PendingInterrupt>, fired: seq<Firing>, pending: seq<Entry<PendingInterrupt>>,
                    now: int)
    requires Consistent(scheduled, fired, pending, now) && pending != []
    ensures var back := Inserted(pending[1..], pending[0]);
            && Consistent(scheduled, fired, back, now)
            && |back| == |pending| && back[0].key == pending[0].key
            && (|pending| == 1 ==> back == pending)
  {
    var rest, head := pending[1..], pending[0];
    forall x
      ensures TimesPending(x, Inserted(rest, head)) == TimesPending(x, pending)
    {
      TimesInserted(x, rest, head);
    }
    assert InOrderFrom(rest, LastDue(fired)) by {
      WeakerBound(rest, head.key, LastDue(fired));
    }
    InOrderInserted(rest, head, LastDue(fired));
    InsertedAt(rest, head, 0);
    InOrderIsSorted(pending, LastDue(fired));
  }

  lemma WeakerBound(m: seq<Entry<PendingInterrupt>>, a: int, b: int)
    requires InOrderFrom(m, a) && b <= a
    ensures InOrderFrom(m, b)
  {
  }

  /** Nothing on the list is due yet. */
  ghost predicate NoneDue(m: seq<Entry<PendingInterrupt>>, now: int) {
    m != [] ==> m[0].key > now
  }

  lemma NoneDueIsNone(m: seq<Entry<PendingInterrupt>>, earliest: int, now: int)
    requires InOrderFrom(m, earliest)
    ensures NoneDue(m, now) <==> forall i :: 0 <= i < |m| ==> m[i].key > now
  {
    InOrderIsSorted(m, earliest);
  }

  /** What the devices' handlers do, each time an interrupt fires; left open. */
  type Handlers = PendingInterrupt -> Effect

  /** Some interrupt fired since `before` asked for a context switch. */
  ghost predicate YieldAsked(handlers: Handlers, before: seq<Firing>, after: seq<Firing>) {
    exists i :: |before| <= i < |after| && handlers(after[i].event).wantsYield
  }

  /** The interrupts a handler schedules at time `now`, numbered from `id`. */
  function EventsOf(schedules: seq<(Delay, IntType)>, now: int, id: nat): (e: seq<PendingInterrupt>)
    ensures |e| == |schedules|
  {
    if schedules == [] then []
    else
      var n := |schedules| - 1;
      EventsOf(schedules[..n], now, id) + [PendingInterrupt(id + n, now + schedules[n].0, schedules[n].1)]
  }

  lemma {:induction false} EventAt(schedules: seq<(Delay, IntType)>, now: int, id: nat, i: nat)
    requires i < |schedules|
    ensures EventsOf(schedules, now, id)[i] == PendingInterrupt(id + i, now + schedules[i].0, schedules[i].1)
  {
    if i < |schedules| - 1 {
      EventAt(schedules[..|schedules| - 1], now, id, i);
    }
  }

  lemma NextEvent(schedules: seq<(Delay, IntType)>, now: int, id: nat, i: nat)
    requires i < |schedules|
    ensures EventsOf(schedules[..i + 1], now, id)
            == EventsOf(schedules[..i], now, id) + [PendingInterrupt(id + i, now + schedules[i].0, schedules[i].1)]
  {
    assert schedules[..i + 1][..i] == schedules[..i];
  }

  /** What has been scheduled once the handlers of some firings have run, in order. */
  ghost function Replayed(s: seq<PendingInterrupt>, f: seq<Firing>, handlers: Handlers): (s': seq<PendingInterrupt>) {
    if f == [] then s
    else
      var n := |f| - 1;
      var before := Replayed(s, f[..n], handlers);
      before + EventsOf(handlers(f[n].event).schedules, f[n].at, |before|)
  }

  lemma {:induction false} ReplayedOn(s: seq<PendingInterrupt>, a: seq<Firing>, b: seq<Firing>, handlers: Handlers)
    ensures Replayed(s, a + b, handlers) == Replayed(Replayed(s, a, handlers), b, handlers)
  {
    if b == [] {
      assert a + b == a;
    } else {
      var n := |b| - 1;
      ReplayedOn(s, a, b[..n], handlers);
      assert (a + b)[..|a| + n] == a + b[..n] && (a + b)[|a| + n] == b[n];
    }
  }

  /** What handlers leave behind. */
  datatype History = History(fired: seq<Firing>, scheduled: seq<PendingInterrupt>, wantsYield: bool)

  /** Between two points only handlers have run: those of the interrupts fired in between. */
  ghost predicate HandlersRan(handlers: Handlers, h: History, h': History) {
    && h.fired <= h'.fired
    && h'.scheduled == Replayed(h.scheduled, h'.fired[|h.fired|..], handlers)
    && h'.wantsYield == (h.wantsYield || YieldAsked(handlers, h.fired, h'.fired))
  }

  /** The history after a handler has run. */
  ghost function Handled(effect: Effect, h: History, now: int): (h': History) {
    var events := EventsOf(effect.schedules, now, |h.scheduled|);
    History(h.fired, h.scheduled + events, h.wantsYield || effect.wantsYield)
  }

  /** The history after one more interrupt has fired. */
  ghost function Fired(handlers: Handlers, h: History, x: Firing): (h': History) {
    Handled(handlers(x.event), h.(fired := h.fired + [x]), x.at)
  }

  lemma NothingRan(handlers: Handlers, h: History)
    ensures HandlersRan(handlers, h, h)
  {
  }

  lemma OneRan(handlers: Handlers, h: History, x: Firing)
    ensures HandlersRan(handlers, h, Fired(handlers, h, x))
  {
    var f := h.fired + [x];
    assert f[|h.fired|..] == [x] && [x][..0] == [];
    assert f[|h.fired|] == x;
  }

  lemma AskedBetween(handlers: Handlers, before: seq<Firing>, middle: seq<Firing>, after: seq<Firing>)
    requires before <= middle <= after
    ensures YieldAsked(handlers, before, after)
            <==> YieldAsked(handlers, before, middle) || YieldAsked(handlers, middle, after)
  {
    forall i | |before| <= i < |middle|
      ensures middle[i] == after[i]
    {
    }
  }

  /** Handlers running, and then more of them, are handlers running. */
  lemma RanOn(handlers: Handlers, h: History, h1: History, h2: History)
    requires HandlersRan(handlers, h, h1) && HandlersRan(handlers, h1, h2)
    ensures HandlersRan(handlers, h, h2)
  {
    var a, b := h1.fired[|h.fired|..], h2.fired[|h1.fired|..];
    assert h2.fired[|h.fired|..] == a + b;
    ReplayedOn(h.scheduled, a, b, handlers);
    AskedBetween(handlers, h.fired, h1.fired, h2.fired);
  }

  class Interrupt {
    var level: IntStatus
    var status: MachineStatus
    var inHandler: bool
    var yieldOnReturn: bool
    var pending: seq<Entry<PendingInterrupt>>
    var totalTicks: int
    var idleTicks: int
    var systemTicks: int
    var userTicks: int
    var nextId: nat
    ghost var scheduled: seq<PendingInterrupt>
    ghost var fired: seq<Firing>

    ghost predicate Valid()
      reads this
    {
      && totalTicks == idleTicks + systemTicks + userTicks
      && 0 <= idleTicks && 0 <= systemTicks && 0 <= userTicks
      && Consistent(scheduled, fired, pending, totalTicks)
      && nextId == |scheduled|
    }

    ghost function Past(): (h: History)
      reads this
    {
      History(fired, scheduled, yieldOnReturn)
    }

    constructor ()
      ensures Valid() && level == IntOff && pending == [] && fired == [] && scheduled == [] && totalTicks == 0
    {
      level, status, inHandler, yieldOnReturn := IntOff, SystemMode, false, false;
      pending := [];
      totalTicks, idleTicks, systemTicks, userTicks := 0, 0, 0, 0;
      nextId := 0;
      scheduled, fired := [], [];
    }

    method Schedule(fromNow: Delay, kind: IntType) returns (toOccur: PendingInterrupt)
      requires Valid()
      modifies `pending, `scheduled, `nextId
      ensures Valid()
      ensures toOccur.when == totalTicks + fromNow && toOccur.kind == kind
      ensures toOccur.id == |old(scheduled)| && scheduled == old(scheduled) + [toOccur]
      ensures pending == Inserted(old(pending), Entry(toOccur, toOccur.when))
      ensures DueCount(pending, totalTicks) == DueCount(old(pending), totalTicks)
    {
      toOccur := PendingInterrupt(nextId, totalTicks + fromNow, kind);
      nextId := nextId + 1;
      Scheduling(scheduled, fired, pending, totalTicks, toOccur);
      pending := Inserted(pending, Entry(toOccur, toOccur.when));
      scheduled := scheduled + [toOccur];
    }

    /** Run the handler of an interrupt that is due: it may schedule more, and ask to yield. */
    method RunHandler(effect: Effect)
      requires Valid()
      modifies `pending, `scheduled, `nextId, `yieldOnReturn
      ensures Valid()
      ensures DueCount(pending, totalTicks) == DueCount(old(pending), totalTicks)
      ensures Past() == Handled(effect, old(Past()), totalTicks)
    {
      ghost var m := scheduled;
      for i := 0 to |effect.schedules|
        invariant Valid() && yieldOnReturn == old(yieldOnReturn)
        invariant DueCount(pending, totalTicks) == DueCount(old(pending), totalTicks)
        invariant scheduled == m + EventsOf(effect.schedules[..i], totalTicks, |m|)
      {
        var toOccur := Schedule(effect.schedules[i].0, effect.schedules[i].1);
        NextEvent(effect.schedules, totalTicks, |m|, i);
      }
      assert effect.schedules[..|effect.schedules|] == effect.schedules;
      if effect.wantsYield {
        yieldOnReturn := true;
      }
    }

    /** Put the interrupt just taken off the list back on it. */
    method PutBackHead()
      requires Valid() && pending != []
      modifies `pending
      ensures pending == Inserted(old(pending)[1..], old(pending)[0])
      ensures Valid() && |pending| == old(|pending|) && pending[0].key == old(pending)[0].key
      ensures |pending| == 1 ==> pending == old(pending)
    {
      PuttingBack(scheduled, fired, pending, totalTicks);
      pending := Inserted(pending[1..], pending[0]);
    }

    /** Take the interrupt at the head of the list, which is due, off it. */
    method TakeHead() returns (toOccur: PendingInterrupt)
      requires Valid() && pending != [] && pending[0].key <= totalTicks
      modifies `pending, `fired
      ensures Valid() && toOccur == old(pending)[0].item
      ensures Past() == old(Past()).(fired := old(fired) + [Firing(toOccur, totalTicks)])
      ensures DueCount(pending, totalTicks) == DueCount(old(pending), totalTicks) - 1
    {
      toOccur := pending[0].item;
      FiringOne(scheduled, fired, pending, totalTicks);
      fired := fired + [Firing(toOccur, totalTicks)];
      pending := pending[1..];
    }

    /** Invoke the handler of the interrupt at the head of the list. */
    method FireHead(handlers: Handlers)
      requires Valid() && pending != [] && pending[0].key <= totalTicks
      modifies `pending, `scheduled, `nextId, `yieldOnReturn, `fired, `inHandler, `status
      ensures Valid() && status == old(status)
      ensures Past() == Fired(handlers, old(Past()), Firing(old(pending)[0].item, totalTicks))
      ensures DueCount(pending, totalTicks) == DueCount(old(pending), totalTicks) - 1
    {
      var saved := status;
      var toOccur := TakeHead();
      inHandler := true;
      status := SystemMode;
      RunHandler(handlers(toOccur));
      status := saved;
      inHandler := false;
    }

    ghost predicate OnlyTimer()
      reads this
    {
      status == IdleMode && |pending| == 1 && pending[0].item.kind == TimerInt
    }

    /** Let idle time pass. */
    method AdvanceTo(when: int)
      requires Valid() && when > totalTicks
      modifies `idleTicks, `totalTicks
      ensures Valid() && totalTicks == when
    {
      idleTicks := idleTicks + (when - totalTicks);
      totalTicks := when;
    }

    /** The first half of CheckIfDue: see whether the head of the list is to fire, letting idle time
        pass up to it if so asked. */
    method HeadIsDue(advanceClock: bool) returns (b: bool)
      requires Valid()
      modifies `pending, `idleTicks, `totalTicks
      ensures Valid()
      ensures totalTicks == if advanceClock && old(pending) != [] && old(pending)[0].key > old(totalTicks)
                then old(pending)[0].key else old(totalTicks)
      ensures b <==>
                && old(pending) != [] && !old(OnlyTimer())
                && (advanceClock || old(pending)[0].key <= old(totalTicks))
      ensures b ==> pending == old(pending) && pending[0].key <= totalTicks
      ensures !b ==> |old(pending)| <= 1 ==> pending == old(pending)
      ensures !b ==> OnlyTimer() || if advanceClock then pending == [] else NoneDue(pending, totalTicks)
    {
      if pending == [] {
        return false;
      }
      var when := pending[0].key;
      if advanceClock && when > totalTicks {
        AdvanceTo(when);
      } else if when > totalTicks {
        PutBackHead();
        return false;
      }
      if status == IdleMode && pending[0].item.kind == TimerInt && |pending| == 1 {
        PutBackHead();
        return false;
      }
      return true;
    }

    method CheckIfDue(advanceClock: bool, handlers: Handlers) returns (b: bool)
      requires Valid() && level == IntOff
      modifies this
      ensures Valid() && level == IntOff && status == old(status)
      ensures systemTicks == old(systemTicks) && userTicks == old(userTicks)
      ensures totalTicks == if advanceClock && old(pending) != [] && old(pending)[0].key > old(totalTicks)
                then old(pending)[0].key else old(totalTicks)
      ensures b <==>
                && old(pending) != [] && !old(OnlyTimer())
                && (advanceClock || old(pending)[0].key <= old(totalTicks))
      ensures b ==> Past() == Fired(handlers, old(Past()), Firing(old(pending)[0].item, totalTicks))
      ensures b ==> DueCount(pending, totalTicks) == DueCount(old(pending), totalTicks) - 1
      ensures !b ==> Past() == old(Past()) && (|old(pending)| <= 1 ==> pending == old(pending))
      ensures !b ==> OnlyTimer() || if advanceClock then pending == [] else NoneDue(pending, totalTicks)
    {
      b := HeadIsDue(advanceClock);
      if b {
        FireHead(handlers);
      }
    }

    /** Drain the list of due interrupts: each call fires one, and what handlers schedule is never
        due at once, so the number of due interrupts goes down until none is left. */
    method FireDue(handlers: Handlers)
      requires Valid() && level == IntOff
      modifies this
      ensures Valid() && level == IntOff && status == old(status)
      ensures systemTicks == old(systemTicks) && userTicks == old(userTicks) && totalTicks == old(totalTicks)
      ensures OnlyTimer() || NoneDue(pending, totalTicks)
      ensures HandlersRan(handlers, old(Past()), Past())
    {
      NothingRan(handlers, Past());
      ghost var h, head := Past(), if pending == [] then None else Some(pending[0].item);
      var more := CheckIfDue(false, handlers);
      if more {
        OneRan(handlers, h, Firing(head.value, totalTicks));
      }
      while more
        invariant Valid() && level == IntOff && status == old(status)
        invariant systemTicks == old(systemTicks) && userTicks == old(userTicks) && totalTicks == old(totalTicks)
        invariant HandlersRan(handlers, old(Past()), Past())
        invariant !more ==> OnlyTimer() || NoneDue(pending, totalTicks)
        decreases if more then DueCount(pending, totalTicks) + 1 else 0
      {
        h, head := Past(), if pending == [] then None else Some(pending[0].item);
        more := CheckIfDue(false, handlers);
        if more {
          OneRan(handlers, h, Firing(head.value, totalTicks));
          RanOn(handlers, old(Past()), h, Past());
        }
      }
    }

    /** Advance simulated time and fire what is due.  `mustYield` tells the caller that a handler
        asked for a context switch, which OneTick makes once interrupts are on again. */
    method OneTick(handlers: Handlers) returns (mustYield: bool)
      requires Valid()
      modifies this
      ensures Valid() && level == IntOn && status == old(status) && !yieldOnReturn
      ensures status != IdleMode ==> forall i :: 0 <= i < |pending| ==> pending[i].key > totalTicks
      ensures old(status) == SystemMode ==>
                totalTicks == old(totalTicks) + SYSTEM_TICK && systemTicks == old(systemTicks) + SYSTEM_TICK
                    && userTicks == old(userTicks)
      ensures old(status) != SystemMode ==>
                totalTicks == old(totalTicks) + USER_TICK && userTicks == old(userTicks) + USER_TICK
                    && systemTicks == old(systemTicks)
      ensures idleTicks == old(idleTicks)
      ensures HandlersRan(handlers, old(Past()), Past().(wantsYield := mustYield))
    {
      if status == SystemMode {
        totalTicks := totalTicks + SYSTEM_TICK;
        systemTicks := systemTicks + SYSTEM_TICK;
      } else {
        totalTicks := totalTicks + USER_TICK;
        userTicks := userTicks + USER_TICK;
      }
      level := IntOff;
      FireDue(handlers);
      NoneDueIsNone(pending, LastDue(fired), totalTicks);
      level := IntOn;
      mustYield := yieldOnReturn;
      yieldOnReturn := false;
    }

    /** Nothing is ready: go to the next interrupt.  `halts` when nothing but the timer is left. */
    method Idle(handlers: Handlers) returns (halts: bool)
      requires Valid() && level == IntOff
      modifies this
      ensures Valid() && level == IntOff
      ensures systemTicks == old(systemTicks) && userTicks == old(userTicks)
      ensures totalTicks - old(totalTicks) == idleTicks - old(idleTicks)
      ensures totalTicks == if old(pending) != [] && old(pending)[0].key > old(totalTicks) then old(pending)[0].key
                else old(totalTicks)
      ensures halts <==> |old(pending)| == 0 || (|old(pending)| == 1 && old(pending)[0].item.kind == TimerInt)
      ensures halts ==> fired == old(fired) && pending == old(pending)
      ensures !halts ==>
                || HandlersRan(handlers, old(Past()), Past().(wantsYield := true))
                || HandlersRan(handlers, old(Past()), Past().(wantsYield := false))
      ensures !halts ==>
                && status == SystemMode && !yieldOnReturn && old(pending) != []
                && |fired| > |old(fired)| && fired[|old(fired)|].event == old(pending)[0].item
    {
      status := IdleMode;
      var any := FireFromNext(handlers);
      if any {
        yieldOnReturn := false;
        status := SystemMode;
        return false;
      }
      return true;
    }

    /** Go to the next interrupt, fire it, and fire all that are due with it. */
    method FireFromNext(handlers: Handlers) returns (any: bool)
      requires Valid() && level == IntOff && status == IdleMode
      modifies this
      ensures Valid() && level == IntOff
      ensures systemTicks == old(systemTicks) && userTicks == old(userTicks)
      ensures totalTicks == if old(pending) != [] && old(pending)[0].key > old(totalTicks) then old(pending)[0].key
                else old(totalTicks)
      ensures any <==> |old(pending)| > 1 || (|old(pending)| == 1 && old(pending)[0].item.kind != TimerInt)
      ensures !any ==> fired == old(fired) && pending == old(pending)
      ensures any ==> HandlersRan(handlers, old(Past()), Past()) && old(pending) != []
      ensures any ==> old(fired) + [Firing(old(pending)[0].item, totalTicks)] <= fired
    {
      ghost var h, head := Past(), if pending == [] then None else Some(pending[0].item);
      any := CheckIfDue(true, handlers);
      if any {
        ghost var h1 := Past();
        OneRan(handlers, h, Firing(head.value, totalTicks));
        FireDue(handlers);
        RanOn(handlers, h, h1, Past());
      }
    }

    method SetLevel(now: IntStatus, handlers: Handlers) returns (was: IntStatus, mustYield: bool)
      requires Valid() && (now == IntOff || !inHandler)
      modifies this
      ensures Valid() && was == old(level) && level == now && status == old(status)
      ensures !(now == IntOn && was == IntOff) ==>
                totalTicks == old(totalTicks) && fired == old(fired) && pending == old(pending) && !mustYield
      ensures now == IntOn && was == IntOff ==>
                && totalTicks == old(totalTicks) + (if old(status) == SystemMode then SYSTEM_TICK else USER_TICK)
                && HandlersRan(handlers, old(Past()), Past().(wantsYield := mustYield))
      ensures now == IntOn && was == IntOff && status != IdleMode ==>
                forall i :: 0 <= i < |pending| ==> pending[i].key > totalTicks
    {
      was, mustYield := level, false;
      level := now;
      if now == IntOn && was == IntOff {
        mustYield := OneTick(handlers);
      }
    }
  }
}
