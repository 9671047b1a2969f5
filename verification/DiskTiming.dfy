/** The disk's simulated timing: seek, rotation, transfer, and the track buffer. */
module DiskTiming {
  import opened DiskImage

  const SECTORS_PER_TRACK := 32
  const SEEK_TIME := 500
  const ROTATION_TIME := 500

  // The source's arithmetic

  function Abs(x: int): nat {
    if x < 0 then -x else x
  }

  function SeekTime(lastSector: nat, newSector: nat): (seek: nat) {
    Abs(newSector / SECTORS_PER_TRACK - lastSector / SECTORS_PER_TRACK) * SEEK_TIME
  }

  /** Ticks from the end of the seek to the next sector boundary. */
  function ToBoundary(ticks: nat, seek: nat): (rotation: nat) {
    var over := (ticks + seek) % ROTATION_TIME;
    if over > 0 then ROTATION_TIME - over else 0
  }

  function ModuloDiff(to: nat, from: nat): (d: nat) {
    ((to % SECTORS_PER_TRACK - from % SECTORS_PER_TRACK) + SECTORS_PER_TRACK) % SECTORS_PER_TRACK
  }

  predicate TrackBufferHit(lastSector: nat, bufferInit: nat, ticks: nat, newSector: nat, writing: bool)
    requires bufferInit <= ticks
  {
    var seek := SeekTime(lastSector, newSector);
    var timeAfter := ticks + seek + ToBoundary(ticks, seek);
    !writing && seek == 0
        && (timeAfter - bufferInit) / ROTATION_TIME > ModuloDiff(newSector, bufferInit / ROTATION_TIME)
  }

  function ComputeLatency(lastSector: nat, bufferInit: nat, ticks: nat, newSector: nat, writing: bool): (latency: nat)
    requires bufferInit <= ticks
  {
    var seek := SeekTime(lastSector, newSector);
    var rotation := ToBoundary(ticks, seek);
    var timeAfter := ticks + seek + rotation;
    if TrackBufferHit(lastSector, bufferInit, ticks, newSector, writing) then ROTATION_TIME
    else seek + rotation + ModuloDiff(newSector, timeAfter / ROTATION_TIME) * ROTATION_TIME + ROTATION_TIME
  }

  // The geometry it stands for

  /** The sector offset under the head in the slot that starts at boundary `t`. */
  function Under(t: nat): (offset: nat) {
    t / ROTATION_TIME % SECTORS_PER_TRACK
  }

  predicate Boundary(t: nat) {
    t % ROTATION_TIME == 0
  }

  /** From `start` on, the head passes over all of the target's sector by time `end`. */
  ghost predicate PassesWithin(sector: nat, start: nat, end: nat) {
    exists b: nat :: Boundary(b) && start <= b && b + ROTATION_TIME <= end && Under(b) == sector % SECTORS_PER_TRACK
  }

  lemma BoundaryAfter(ticks: nat, seek: nat)
    ensures var t := ticks + seek + ToBoundary(ticks, seek);
            Boundary(t) && ticks + seek <= t < ticks + seek + ROTATION_TIME
  {
  }

  /** ModuloDiff is how many slots the head is away from the target. */
  lemma SlotsAway(to: nat, t: nat)
    requires Boundary(t)
    ensures var d := ModuloDiff(to, t / ROTATION_TIME);
            && d < SECTORS_PER_TRACK
            && Boundary(t + d * ROTATION_TIME) && Under(t + d * ROTATION_TIME) == to % SECTORS_PER_TRACK
            && forall b: nat :: Boundary(b) && t <= b && Under(b) == to % SECTORS_PER_TRACK ==>
                t + d * ROTATION_TIME <= b
  {
    var n := t / ROTATION_TIME;
    var d := ModuloDiff(to, n);
    NextSlot(to, n, n);
    SlotStart(t, d);
    forall b: nat | Boundary(b) && t <= b && Under(b) == to % SECTORS_PER_TRACK
      ensures t + d * ROTATION_TIME <= b
    {
      SlotStart(b, 0);
      NextSlot(to, n, b / ROTATION_TIME);
    }
  }

  /** Counting in whole slots. */
  lemma SlotStart(t: nat, d: nat)
    requires Boundary(t)
    ensures t == t / ROTATION_TIME * ROTATION_TIME
    ensures Boundary(t + d * ROTATION_TIME) && (t + d * ROTATION_TIME) / ROTATION_TIME == t / ROTATION_TIME + d
  {
  }

  lemma NextSlot(to: nat, n: nat, m: nat)
    ensures ModuloDiff(to, n) < SECTORS_PER_TRACK
    ensures (n + ModuloDiff(to, n)) % SECTORS_PER_TRACK == to % SECTORS_PER_TRACK
    ensures n <= m && m % SECTORS_PER_TRACK == to % SECTORS_PER_TRACK ==> n + ModuloDiff(to, n) <= m
  {
    var r, k := to % SECTORS_PER_TRACK, n % SECTORS_PER_TRACK;
    assert ModuloDiff(to, n) == if r >= k then r - k else r - k + SECTORS_PER_TRACK;
    assert n == n / SECTORS_PER_TRACK * SECTORS_PER_TRACK + k;
    assert m == m / SECTORS_PER_TRACK * SECTORS_PER_TRACK + m % SECTORS_PER_TRACK;
  }

  /** A seek takes 500 ticks for each track crossed, in either direction. */
  lemma SeekPerTrack(lastSector: nat, newSector: nat, tracks: nat)
    requires || newSector / SECTORS_PER_TRACK == lastSector / SECTORS_PER_TRACK + tracks
             || lastSector / SECTORS_PER_TRACK == newSector / SECTORS_PER_TRACK + tracks
    ensures SeekTime(lastSector, newSector) == 500 * tracks
  {
  }

  lemma SameTrack(lastSector: nat, newSector: nat)
    ensures SeekTime(lastSector, newSector) == 0 <==> lastSector / SECTORS_PER_TRACK == newSector / SECTORS_PER_TRACK
  {
  }

  /** A read hits the track buffer exactly when it stays on the track and the target has rotated
      past the head, since the buffer began to fill, by the next sector boundary. */
  lemma HitExactly(lastSector: nat, bufferInit: nat, ticks: nat, newSector: nat, writing: bool)
    requires Boundary(bufferInit) && bufferInit <= ticks
    ensures TrackBufferHit(lastSector, bufferInit, ticks, newSector, writing) <==>
            (&& !writing && lastSector / SECTORS_PER_TRACK == newSector / SECTORS_PER_TRACK
             && PassesWithin(newSector, bufferInit, ticks + ToBoundary(ticks, 0)))
  {
    SameTrack(lastSector, newSector);
    SlotsAway(newSector, bufferInit);
    BoundaryAfter(ticks, 0);
    var d := ModuloDiff(newSector, bufferInit / ROTATION_TIME);
    var end := ticks + ToBoundary(ticks, 0);
    assert (end - bufferInit) / ROTATION_TIME > d <==> bufferInit + d * ROTATION_TIME + ROTATION_TIME <= end;
    if bufferInit + d * ROTATION_TIME + ROTATION_TIME <= end {
      assert PassesWithin(newSector, bufferInit, end);
    }
  }

  /** Rounding up to the boundary matters: a read is served from the buffer although the target
      is still passing under the head. */
  lemma HitBeforeFullyPassed()
    ensures TrackBufferHit(0, 0, 1, 0, false) && !PassesWithin(0, 0, 1)
  {
  }

  /** Exactly how early: on the same track, a read hits as soon as the target has begun to pass. */
  lemma HitOnceBegun(lastSector: nat, bufferInit: nat, ticks: nat, newSector: nat)
    requires Boundary(bufferInit) && bufferInit <= ticks
    requires lastSector / SECTORS_PER_TRACK == newSector / SECTORS_PER_TRACK
    ensures TrackBufferHit(lastSector, bufferInit, ticks, newSector, false) <==>
            exists b: nat :: Boundary(b) && bufferInit <= b < ticks && Under(b) == newSector % SECTORS_PER_TRACK
  {
    HitExactly(lastSector, bufferInit, ticks, newSector, false);
    BoundaryAfter(ticks, 0);
    var end := ticks + ToBoundary(ticks, 0);
    forall b: nat | Boundary(b) && bufferInit <= b
      ensures b < ticks <==> b + ROTATION_TIME <= end
    {
      BoundariesApart(b, end);
    }
  }

  /** The target is under the head now, its slot has begun but not ended, and the last full passage
      was before the buffer began to fill. */
  predicate OnlyPassing(bufferInit: nat, ticks: nat, newSector: nat) {
    && ticks % ROTATION_TIME != 0
    && Under(ticks) == newSector % SECTORS_PER_TRACK
    && ticks / ROTATION_TIME - bufferInit / ROTATION_TIME < SECTORS_PER_TRACK
  }

  /** Exactly when the buffer serves a read if and only if the target has fully passed: for every
      clock and every target but one that is passing for the first time. */
  lemma HitMeansFullyPassedExactly(lastSector: nat, bufferInit: nat, ticks: nat, newSector: nat)
    requires Boundary(bufferInit) && bufferInit <= ticks
    requires lastSector / SECTORS_PER_TRACK == newSector / SECTORS_PER_TRACK
    ensures (TrackBufferHit(lastSector, bufferInit, ticks, newSector, false)
             <==> PassesWithin(newSector, bufferInit, ticks)) <==> !OnlyPassing(bufferInit, ticks, newSector)
  {
    HitOnceBegun(lastSector, bufferInit, ticks, newSector);
    if PassesWithin(newSector, bufferInit, ticks) {
      var b: nat :| Boundary(b) && bufferInit <= b && b + ROTATION_TIME <= ticks
                    && Under(b) == newSector % SECTORS_PER_TRACK;
      assert b < ticks;
      PassedOnce(bufferInit, ticks, newSector, b);
    } else if TrackBufferHit(lastSector, bufferInit, ticks, newSector, false) {
      var b: nat :| Boundary(b) && bufferInit <= b < ticks && Under(b) == newSector % SECTORS_PER_TRACK;
      StillPassing(bufferInit, ticks, newSector, b);
    } else {
      PassingHasBegun(bufferInit, ticks, newSector);
    }
  }

  lemma PassingHasBegun(bufferInit: nat, ticks: nat, newSector: nat)
    requires Boundary(bufferInit) && bufferInit <= ticks
    ensures OnlyPassing(bufferInit, ticks, newSector) ==>
              exists b: nat :: Boundary(b) && bufferInit <= b < ticks && Under(b) == newSector % SECTORS_PER_TRACK
  {
    var b := SlotBegin(ticks);
    SlotOf(ticks);
    SlotOf(bufferInit);
    assert Boundary(b) && bufferInit <= b && Under(b) == Under(ticks);
  }

  /** The boundary at which the slot in progress began. */
  function SlotBegin(ticks: nat): (b: nat)
    ensures b <= ticks
  {
    ticks / ROTATION_TIME * ROTATION_TIME
  }

  lemma SlotOf(ticks: nat)
    ensures Boundary(SlotBegin(ticks)) && Under(SlotBegin(ticks)) == Under(ticks)
    ensures ticks == SlotBegin(ticks) + ticks % ROTATION_TIME
    ensures SlotBegin(ticks) / ROTATION_TIME == ticks / ROTATION_TIME
  {
  }

  lemma PassedOnce(bufferInit: nat, ticks: nat, newSector: nat, b: nat)
    requires Boundary(bufferInit) && Boundary(b) && bufferInit <= b && b + ROTATION_TIME <= ticks
    requires Under(b) == newSector % SECTORS_PER_TRACK
    ensures !OnlyPassing(bufferInit, ticks, newSector)
  {
    var m, n := b / ROTATION_TIME, ticks / ROTATION_TIME;
    SlotOf(b);
    SlotOf(ticks);
    SlotOf(bufferInit);
    assert m < n && bufferInit / ROTATION_TIME <= m;
    if Under(ticks) == newSector % SECTORS_PER_TRACK {
      SameOffset(m, n);
    }
  }

  lemma SameOffset(m: nat, n: nat)
    requires m < n && m % SECTORS_PER_TRACK == n % SECTORS_PER_TRACK
    ensures n - m >= SECTORS_PER_TRACK
  {
  }

  lemma StillPassing(bufferInit: nat, ticks: nat, newSector: nat, b: nat)
    requires Boundary(bufferInit) && Boundary(b) && bufferInit <= b < ticks
    requires Under(b) == newSector % SECTORS_PER_TRACK && !PassesWithin(newSector, bufferInit, ticks)
    ensures OnlyPassing(bufferInit, ticks, newSector)
  {
    SlotOf(ticks);
    SlotOf(b);
    SlotOf(bufferInit);
    assert b + ROTATION_TIME > ticks;
    assert b == SlotBegin(ticks);
    if ticks / ROTATION_TIME - bufferInit / ROTATION_TIME >= SECTORS_PER_TRACK {
      PassedATurnEarlier(bufferInit, ticks, newSector, b);
    }
  }

  lemma PassedATurnEarlier(bufferInit: nat, ticks: nat, newSector: nat, b: nat)
    requires Boundary(bufferInit) && Boundary(b) && b <= ticks && Under(b) == newSector % SECTORS_PER_TRACK
    requires bufferInit + SECTORS_PER_TRACK * ROTATION_TIME <= b
    ensures PassesWithin(newSector, bufferInit, ticks)
  {
    var c := b - SECTORS_PER_TRACK * ROTATION_TIME;
    TurnEarlier(b);
    assert Boundary(c) && bufferInit <= c && c + ROTATION_TIME <= ticks;
  }

  lemma TurnEarlier(b: nat)
    requires Boundary(b) && b >= SECTORS_PER_TRACK * ROTATION_TIME
    ensures Boundary(b - SECTORS_PER_TRACK * ROTATION_TIME)
    ensures Under(b - SECTORS_PER_TRACK * ROTATION_TIME) == Under(b)
  {
    SlotStart(b - SECTORS_PER_TRACK * ROTATION_TIME, SECTORS_PER_TRACK);
  }

  lemma BoundariesApart(b: nat, end: nat)
    requires Boundary(b) && Boundary(end)
    ensures b < end <==> b + ROTATION_TIME <= end
  {
  }

  /** Without a hit, the transfer starts at the first boundary after the seek at which the head is
      on the target, and the latency ends one slot later. */
  lemma TransferAtFirstChance(lastSector: nat, bufferInit: nat, ticks: nat, newSector: nat, writing: bool)
    requires bufferInit <= ticks && !TrackBufferHit(lastSector, bufferInit, ticks, newSector, writing)
    ensures var seekEnd := ticks + SeekTime(lastSector, newSector);
            var latency := ComputeLatency(lastSector, bufferInit, ticks, newSector, writing);
            var start := ticks + latency - ROTATION_TIME;
            && Boundary(start) && seekEnd <= start && Under(start) == newSector % SECTORS_PER_TRACK
            && forall b: nat :: Boundary(b) && seekEnd <= b && Under(b) == newSector % SECTORS_PER_TRACK ==> start <= b
  {
    var seek := SeekTime(lastSector, newSector);
    BoundaryAfter(ticks, seek);
    SlotsAway(newSector, ticks + seek + ToBoundary(ticks, seek));
  }

  lemma SeekBound(lastSector: nat, newSector: nat)
    requires lastSector < NUM_SECTORS && newSector < NUM_SECTORS
    ensures SeekTime(lastSector, newSector) <= 15500
  {
  }

  lemma LatencyRange(lastSector: nat, bufferInit: nat, ticks: nat, newSector: nat, writing: bool)
    requires bufferInit <= ticks && lastSector < NUM_SECTORS && newSector < NUM_SECTORS
    ensures 500 <= ComputeLatency(lastSector, bufferInit, ticks, newSector, writing) <= 31999
  {
    SeekBound(lastSector, newSector);
    BoundaryAfter(ticks, SeekTime(lastSector, newSector));
  }

  /** Both ends of the range are reached. */
  lemma LatencyExtremes()
    ensures ComputeLatency(0, 0, 0, 0, true) == 500
    ensures ComputeLatency(0, 0, 1, 992 + 31, true) == 31999
  {
  }

  // Runs

  /** `due` is when the request in progress completes. */
  datatype DiskState = DiskState(active: bool, lastSector: nat, bufferInit: nat, due: nat)

  datatype Event = Request(sector: nat, writing: bool, at: nat) | Complete(at: nat)

  predicate Seeks(d: DiskState, e: Event) {
    e.Request? && SeekTime(d.lastSector, e.sector) != 0
  }

  predicate Allowed(d: DiskState, e: Event) {
    match e
    case Request(sector, _, _) => !d.active && sector < NUM_SECTORS
    case Complete(at) => d.active && d.due <= at
  }

  function After(d: DiskState, e: Event): (d': DiskState)
    requires e.Request? ==> d.bufferInit <= e.at
  {
    match e
    case Request(sector, writing, at) =>
      var seek := SeekTime(d.lastSector, sector);
      DiskState(true, sector, if seek != 0 then at + seek + ToBoundary(at, seek) else d.bufferInit,
                at + ComputeLatency(d.lastSector, d.bufferInit, at, sector, writing))
    case Complete(_) => d.(active := false)
  }

  /** What holds at time `now` between events. */
  ghost predicate Timely(d: DiskState, now: nat) {
    && d.lastSector < NUM_SECTORS
    && Boundary(d.bufferInit)
    && (!d.active ==> d.bufferInit <= now)
    && (d.active ==> d.bufferInit + ROTATION_TIME <= d.due)
  }

  lemma EventKeeps(d: DiskState, e: Event, now: nat)
    requires Timely(d, now) && Allowed(d, e) && now <= e.at
    ensures e.Request? ==> d.bufferInit <= e.at
    ensures Timely(After(d, e), e.at)
  {
    if e.Request? {
      LatencyRange(d.lastSector, d.bufferInit, e.at, e.sector, e.writing);
      BoundaryAfter(e.at, SeekTime(d.lastSector, e.sector));
    }
  }

  /** The time of the last event before the `k`-th. */
  function Clock(events: seq<Event>, k: nat): (now: nat)
    requires k <= |events|
  {
    if k == 0 then 0 else events[k - 1].at
  }

  /** Requests and completions in any order the disk allows, the clock never going back. */
  ghost predicate IsRun(states: seq<DiskState>, events: seq<Event>) {
    && |states| == |events| + 1 && states[0] == DiskState(false, 0, 0, 0)
    && forall k :: 0 <= k < |events| ==> StepAt(states, events, k)
  }

  ghost predicate StepAt(states: seq<DiskState>, events: seq<Event>, k: nat)
    requires k < |events| && |states| == |events| + 1
  {
    Follows(states[k], events[k], states[k + 1], Clock(events, k))
  }

  ghost predicate Follows(d: DiskState, e: Event, d': DiskState, now: nat) {
    now <= e.at && Allowed(d, e) && (Timely(d, now) ==> (e.Request? ==> d.bufferInit <= e.at) && d' == After(d, e))
  }

  /** In every state of every run the track buffer began to fill at a sector boundary, no later than
      the clock when the disk is idle. */
  lemma {:induction false} RunTimely(states: seq<DiskState>, events: seq<Event>, k: nat)
    requires IsRun(states, events) && k <= |events|
    ensures Timely(states[k], Clock(events, k))
  {
    if k > 0 {
      RunTimely(states, events, k - 1);
      RunFollows(states, events, k - 1);
      EventKeeps(states[k - 1], events[k - 1], Clock(events, k - 1));
    }
  }

  /** No request since the `j`-th event has changed the track. */
  ghost predicate StaysOnTrack(states: seq<DiskState>, events: seq<Event>, j: nat, k: nat)
    requires j <= k <= |events| && |states| == |events| + 1
  {
    forall i :: j <= i < k ==> !Seeks(states[i], events[i])
  }

  /** The buffer has been filling since the first boundary after the last change of track. */
  lemma {:induction false} FillingSinceLastSeek(states: seq<DiskState>, events: seq<Event>, j: nat, k: nat)
    requires IsRun(states, events) && j < k <= |events| && Seeks(states[j], events[j])
    requires StaysOnTrack(states, events, j + 1, k)
    ensures var end := events[j].at + SeekTime(states[j].lastSector, events[j].sector);
            end <= states[k].bufferInit < end + ROTATION_TIME
    ensures states[k].lastSector / SECTORS_PER_TRACK == events[j].sector / SECTORS_PER_TRACK
  {
    RunTimely(states, events, k - 1);
    RunFollows(states, events, k - 1);
    if j < k - 1 {
      FillingSinceLastSeek(states, events, j, k - 1);
      assert !Seeks(states[k - 1], events[k - 1]);
    }
    BufferAfter(states[k - 1], events[k - 1]);
  }

  lemma RunFollows(states: seq<DiskState>, events: seq<Event>, k: nat)
    requires IsRun(states, events) && k < |events|
    ensures Follows(states[k], events[k], states[k + 1], Clock(events, k))
  {
    assert StepAt(states, events, k);
  }

  /** What one event does to the buffer and the track. */
  lemma BufferAfter(d: DiskState, e: Event)
    requires e.Request? ==> d.bufferInit <= e.at
    ensures Seeks(d, e) ==>
              var end := e.at + SeekTime(d.lastSector, e.sector);
              end <= After(d, e).bufferInit < end + ROTATION_TIME && After(d, e).lastSector == e.sector
    ensures !Seeks(d, e) ==>
              && After(d, e).bufferInit == d.bufferInit
              && After(d, e).lastSector / SECTORS_PER_TRACK == d.lastSector / SECTORS_PER_TRACK
  {
    if e.Request? {
      SameTrack(d.lastSector, e.sector);
      BoundaryAfter(e.at, SeekTime(d.lastSector, e.sector));
    }
  }

  /** Over every run: when a read request arrives, the buffer serves it exactly when the target has
      begun to pass under the head since the buffer began to fill, and it has the track. */
  lemma ReadsInRun(states: seq<DiskState>, events: seq<Event>, k: nat)
    requires IsRun(states, events) && k < |events| && events[k].Request? && !events[k].writing
    ensures var d, e := states[k], events[k];
            && d.bufferInit <= e.at
            && (TrackBufferHit(d.lastSector, d.bufferInit, e.at, e.sector, false) <==>
                  && !Seeks(d, e)
                  && exists b: nat :: Boundary(b) && d.bufferInit <= b < e.at
                      && Under(b) == e.sector % SECTORS_PER_TRACK)
            && (TrackBufferHit(d.lastSector, d.bufferInit, e.at, e.sector, false) ==> states[k + 1].due == e.at + 500)
            && states[k + 1].active && e.at + 500 <= states[k + 1].due <= e.at + 31999
  {
    var d, e := states[k], events[k];
    RunTimely(states, events, k);
    RunFollows(states, events, k);
    SameTrack(d.lastSector, e.sector);
    if !Seeks(d, e) {
      HitOnceBegun(d.lastSector, d.bufferInit, e.at, e.sector);
    }
    LatencyRange(d.lastSector, d.bufferInit, e.at, e.sector, false);
  }

  class Disk {
    var active: bool
    var lastSector: nat
    var bufferInit: nat
    ghost var due: nat   // when the request in progress completes

    ghost function Value(): (d: DiskState)
      reads this
    {
      DiskState(active, lastSector, bufferInit, due)
    }

    constructor ()
      ensures Value() == DiskState(false, 0, 0, 0)
    {
      active, lastSector, bufferInit, due := false, 0, 0, 0;
    }

    /** Start a request at time `ticks`; the completion interrupt is due `latency` ticks later. */
    method Request(sector: int, writing: bool, ticks: nat) returns (latency: nat)
      requires Timely(Value(), ticks) && !active && 0 <= sector < NUM_SECTORS
      requires ticks + 32000 < 0x8000_0000
      modifies this
      ensures Value() == After(old(Value()), Event.Request(sector, writing, ticks)) && Timely(Value(), ticks)
      ensures due == ticks + latency && 500 <= latency <= 31999
    {
      EventKeeps(Value(), Event.Request(sector, writing, ticks), ticks);
      latency := ComputeLatency(lastSector, bufferInit, ticks, sector, writing);
      LatencyRange(lastSector, bufferInit, ticks, sector, writing);
      active := true;
      due := ticks + latency;
      UpdateLast(sector, ticks);
    }

    method UpdateLast(newSector: nat, ticks: nat)
      modifies `lastSector, `bufferInit
      ensures lastSector == newSector
      ensures var seek := SeekTime(old(lastSector), newSector);
              bufferInit == if seek != 0 then ticks + seek + ToBoundary(ticks, seek) else old(bufferInit)
    {
      var seek := SeekTime(lastSector, newSector);
      if seek != 0 {
        bufferInit := ticks + seek + ToBoundary(ticks, seek);
      }
      lastSector := newSector;
    }

    /** The completion interrupt, at or after the time it was due. */
    method HandleInterrupt(ghost now: nat)
      requires Timely(Value(), now) && active && due <= now
      modifies this
      ensures Value() == After(old(Value()), Complete(now)) && Timely(Value(), now)
    {
      active := false;
    }
  }
}
