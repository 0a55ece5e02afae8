/** The recharge timer of a special power (`SpecialPowerModule`): the frame the
    power is available on, a nesting pause counter and the frame the first
    pause began. Frames are unbounded integers. A "shared" power
    (`SharedNSync`) keeps its timer in the owning player instead; that frame is
    a parameter here. */
module SpecialPower {
  import opened Common

  datatype PowerTimer = PowerTimer(availableOnFrame: int, pausedCount: int, pausedOnFrame: int)

  /** The constructor's timer (the `RETAIL_COMPATIBLE_CRC` build starts at
      frame 0), not yet paused. */
  function NewTimer(availableOnFrame: int): (t: PowerTimer)
    ensures t.pausedCount == 0 && t.pausedOnFrame == 0 && t.availableOnFrame == availableOnFrame
  {
    PowerTimer(availableOnFrame, 0, 0)
  }

  /** `pauseCountdown(pause)` at frame `now`. Pausing counts up and records the
      frame only for the outermost pause; unpausing an unpaused timer does
      nothing; the unpause that brings the count to 0 moves the available
      frame on by the frames spent paused. */
  function PauseCountdown(t: PowerTimer, pause: bool, now: int): (r: PowerTimer)
    ensures pause ==> r.pausedCount == t.pausedCount + 1 && r.availableOnFrame == t.availableOnFrame
    ensures pause && t.pausedCount == 0 ==> r.pausedOnFrame == now
    ensures pause && t.pausedCount != 0 ==> r.pausedOnFrame == t.pausedOnFrame
    ensures !pause && t.pausedCount <= 0 ==> r == t
    ensures !pause && t.pausedCount > 1 ==> r == t.(pausedCount := t.pausedCount - 1)
    ensures !pause && t.pausedCount == 1 ==>
              r == t.(pausedCount := 0, availableOnFrame := t.availableOnFrame + (now - t.pausedOnFrame))
  {
    if pause then
      if t.pausedCount == 0 then t.(pausedOnFrame := now, pausedCount := 1)
      else t.(pausedCount := t.pausedCount + 1)
    else if t.pausedCount > 0 then
      var c := t.pausedCount - 1;
      if c == 0 then t.(pausedCount := 0, availableOnFrame := t.availableOnFrame + (now - t.pausedOnFrame))
      else t.(pausedCount := c)
    else t
  }

  /** The pause counter never goes negative. */
  lemma PausedCountStaysNonNegative(t: PowerTimer, pause: bool, now: int)
    requires t.pausedCount >= 0
    ensures PauseCountdown(t, pause, now).pausedCount >= 0
  {
  }

  /** A call of `pauseCountdown` at some frame. */
  datatype PauseEvent = PauseEvent(pause: bool, frame: int)

  function Run(t: PowerTimer, evs: seq<PauseEvent>): PowerTimer
    decreases |evs|
  {
    if evs == [] then t else Run(PauseCountdown(t, evs[0].pause, evs[0].frame), evs[1..])
  }

  /** The counter after one event. */
  function NextCount(c: int, pause: bool): int {
    if pause then c + 1 else if c > 0 then c - 1 else c
  }

  /** Starting from count `c`, the events never bring the counter down to 0. */
  predicate StaysPaused(c: int, evs: seq<PauseEvent>)
    decreases |evs|
  {
    evs == [] || (NextCount(c, evs[0].pause) >= 1 && StaysPaused(NextCount(c, evs[0].pause), evs[1..]))
  }

  function CountAfter(c: int, evs: seq<PauseEvent>): int
    decreases |evs|
  {
    if evs == [] then c else CountAfter(NextCount(c, evs[0].pause), evs[1..])
  }

  /** While the timer stays paused, pausing and unpausing only move the counter:
      neither the available frame nor the recorded pause frame changes. */
  lemma {:induction false} InnerEventsOnlyCount(t: PowerTimer, evs: seq<PauseEvent>)
    requires t.pausedCount >= 1 && StaysPaused(t.pausedCount, evs)
    ensures Run(t, evs) == t.(pausedCount := CountAfter(t.pausedCount, evs))
    decreases |evs|
  {
    if evs != [] {
      var t' := PauseCountdown(t, evs[0].pause, evs[0].frame);
      assert t' == t.(pausedCount := NextCount(t.pausedCount, evs[0].pause));
      InnerEventsOnlyCount(t', evs[1..]);
    }
  }

  /** However the pauses nest, a power first paused at frame `p` and finally
      unpaused at frame `u` becomes ready exactly `u - p` frames later. */
  lemma NestedPauseDelay(t: PowerTimer, p: int, evs: seq<PauseEvent>, u: int)
    requires t.pausedCount == 0
    requires StaysPaused(1, evs) && CountAfter(1, evs) == 1
    ensures Run(t, [PauseEvent(true, p)] + evs + [PauseEvent(false, u)]).availableOnFrame
              == t.availableOnFrame + (u - p)
  {
    var t1 := PauseCountdown(t, true, p);
    InnerEventsOnlyCount(t1, evs);
    RunAppend(t1, evs, [PauseEvent(false, u)]);
    var all := [PauseEvent(true, p)] + evs + [PauseEvent(false, u)];
    assert all[1..] == evs + [PauseEvent(false, u)];
  }

  lemma {:induction false} RunAppend(t: PowerTimer, a: seq<PauseEvent>, b: seq<PauseEvent>)
    ensures Run(t, a + b) == Run(Run(t, a), b)
    decreases |a|
  {
    if a == [] {
      assert a + b == b;
    } else {
      assert (a + b)[0] == a[0] && (a + b)[1..] == a[1..] + b;
      RunAppend(PauseCountdown(t, a[0].pause, a[0].frame), a[1..], b);
    }
  }

  /** `isReady()` at frame `now`. `shared` is the owning player's ready frame
      for a `SharedNSync` power (when the object has a controlling player);
      otherwise the power is ready when not paused and its frame has come. */
  function IsReady(t: PowerTimer, now: int, shared: Option<int>): (r: bool)
    ensures shared.Some? ==> (r <==> now >= shared.value)
    ensures shared.None? ==> (r <==> t.pausedCount == 0 && now >= t.availableOnFrame)
  {
    match shared
    case Some(f) => now >= f
    case None => t.pausedCount == 0 && now >= t.availableOnFrame
  }

  /** `startPowerRecharge()` for a power that is not shared: available again
      `reloadTime` frames from now. Without an object or a controlling player
      nothing happens; a shared power restarts the player's timer instead,
      leaving this one alone. */
  function StartPowerRecharge(t: PowerTimer, now: int, reloadTime: nat, hasPlayer: bool, isShared: bool)
    : (r: PowerTimer)
    ensures !hasPlayer || isShared ==> r == t
    ensures hasPlayer && !isShared ==> r == t.(availableOnFrame := now + reloadTime)
  {
    if !hasPlayer || isShared then t else t.(availableOnFrame := now + reloadTime)
  }

  /** `setReadyFrame(frame)`: also restarts the pause clock at `now`. */
  function SetReadyFrame(t: PowerTimer, frame: int, now: int): (r: PowerTimer)
    ensures r.availableOnFrame == frame && r.pausedOnFrame == now && r.pausedCount == t.pausedCount
  {
    t.(availableOnFrame := frame, pausedOnFrame := now)
  }

  /** `getReadyFrame()`: for a shared power the player's frame; otherwise,
      while paused or disabled, the available frame pushed back by the frames
      paused so far, else the available frame. */
  function GetReadyFrame(t: PowerTimer, now: int, disabled: bool, shared: Option<int>): (r: int)
    ensures shared.Some? ==> r == shared.value
    ensures shared.None? && (t.pausedCount > 0 || disabled) ==> r == t.availableOnFrame + (now - t.pausedOnFrame)
    ensures shared.None? && !(t.pausedCount > 0 || disabled) ==> r == t.availableOnFrame
  {
    match shared
    case Some(f) => f
    case None =>
      if t.pausedCount > 0 || disabled then t.availableOnFrame + (now - t.pausedOnFrame)
      else t.availableOnFrame
  }

  /** Every `doSpecialPower*` variant returns at once while the power is
      paused or its object disabled. */
  function DoesSpecialPower(t: PowerTimer, disabled: bool): (r: bool)
    ensures r <==> t.pausedCount <= 0 && !disabled
  {
    !(t.pausedCount > 0 || disabled)
  }

  /** The ready frame reported while paused is where the final unpause at the
      same frame would put the available frame. */
  lemma ReadyFrameAnticipatesUnpause(t: PowerTimer, now: int)
    requires t.pausedCount == 1
    ensures GetReadyFrame(t, now, false, None) == PauseCountdown(t, false, now).availableOnFrame
  {
  }

  /** When not paused or disabled, a power is ready exactly from its reported
      ready frame on. */
  lemma ReadyFromReadyFrame(t: PowerTimer, now: int)
    requires t.pausedCount == 0
    ensures IsReady(t, now, None) <==> now >= GetReadyFrame(t, now, false, None)
  {
  }

  /** A paused power is never ready, and does nothing when used. */
  lemma PausedPowerInert(t: PowerTimer, now: int, disabled: bool)
    requires t.pausedCount > 0
    ensures !IsReady(t, now, None) && !DoesSpecialPower(t, disabled)
  {
  }

  /** After a recharge started at `now`, the power is ready exactly from
      `now + reloadTime` on (while not paused). */
  lemma RechargeReadyAfterReload(t: PowerTimer, now: int, reloadTime: nat, later: int)
    requires t.pausedCount == 0
    ensures var r := StartPowerRecharge(t, now, reloadTime, true, false);
            IsReady(r, later, None) <==> later >= now + reloadTime
  {
  }

  /** A ready frame set by a script while paused is reported as given at the
      frame it was set. */
  lemma SetReadyFrameWhilePaused(t: PowerTimer, frame: int, now: int)
    ensures GetReadyFrame(SetReadyFrame(t, frame, now), now, true, None) == frame
  {
  }
}
