/** How a stealthy object looks to a player (`StealthUpdate`): the decision
    table of `calcStealthedStatusForPlayer`, the detection expiry frame kept by
    `markAsDetected` and read back by `update`, and the update's sleep time.
    Frames are unbounded integers. */
module Stealth {
  import opened Common

  datatype Relationship = Enemies | Neutral | Allies

  datatype StealthLook =
    | LookNone
    | VisibleFriendly
    | DisguisedEnemy
    | VisibleDetected
    | VisibleFriendlyDetected
    | Invisible

  /** What the decision reads of the object and of the viewing player.
      `teamRelation` is `None` when the object has no team. */
  datatype Viewing = Viewing(
    dead: bool,
    stealthed: bool,
    detected: bool,
    teamRelation: Option<Relationship>,
    playerActive: bool,
    canDisguise: bool,
    disguised: bool)

  /** The relationship the decision uses: an object without a team is neutral,
      and an observer (inactive player) is everyone's ally. */
  function EffectiveRelationship(v: Viewing): (r: Relationship)
    ensures !v.playerActive ==> r == Allies
    ensures v.playerActive && v.teamRelation.None? ==> r == Neutral
    ensures v.playerActive && v.teamRelation.Some? ==> r == v.teamRelation.value
  {
    if !v.playerActive then Allies
    else match v.teamRelation
      case None => Neutral
      case Some(rel) => rel
  }

  function CalcStealthedStatus(v: Viewing): (r: StealthLook)
    ensures v.dead || !v.stealthed ==> r == LookNone
    ensures !v.dead && v.stealthed && v.canDisguise ==>
              (r == DisguisedEnemy <==> EffectiveRelationship(v) != Allies && v.disguised) &&
              (r != DisguisedEnemy ==> r == LookNone)
    ensures !v.dead && v.stealthed && !v.canDisguise && v.detected ==>
              r == (if EffectiveRelationship(v) == Allies then VisibleFriendlyDetected else VisibleDetected)
    ensures !v.dead && v.stealthed && !v.canDisguise && !v.detected ==>
              r == (if EffectiveRelationship(v) == Allies then VisibleFriendly else Invisible)
  {
    if v.dead then LookNone
    else if !v.stealthed then LookNone
    else
      var rel := EffectiveRelationship(v);
      if v.canDisguise then
        if rel != Allies && v.disguised then DisguisedEnemy else LookNone
      else if v.detected then
        if rel == Allies then VisibleFriendlyDetected else VisibleDetected
      else if rel == Allies then VisibleFriendly
      else Invisible
  }

  /** An object is hidden from a player exactly when it is alive, stealthed,
      not a disguiser, undetected and not allied to an active player. */
  lemma InvisibleExactly(v: Viewing)
    ensures CalcStealthedStatus(v) == Invisible <==>
              !v.dead && v.stealthed && !v.canDisguise && !v.detected &&
              v.playerActive && v.teamRelation != Some(Allies)
  {
  }

  /** Observers see everything: nothing is invisible or disguised to them. */
  lemma ObserverSeesThrough(v: Viewing)
    requires !v.playerActive
    ensures CalcStealthedStatus(v) in {LookNone, VisibleFriendly, VisibleFriendlyDetected}
  {
  }

  /** For a disguiser, detection makes no difference. */
  lemma DisguiseIgnoresDetection(v: Viewing)
    requires v.canDisguise
    ensures CalcStealthedStatus(v) == CalcStealthedStatus(v.(detected := !v.detected))
  {
  }

  /** What `markAsDetected` changes: the frame the detection expires at and
      whether the object is disguised. */
  datatype Detection = Detection(expires: int, disguised: bool)

  /** `markAsDetected(numFrames)` at frame `now`: a disguise is removed for
      good first. Then 0 means "for the configured stealth delay" and always
      overwrites the expiry, possibly shortening it; a positive count only
      ever extends it. */
  function MarkAsDetected(d: Detection, now: int, numFrames: nat, stealthDelay: nat): (r: Detection)
    ensures !r.disguised
    ensures numFrames == 0 ==> r.expires == now + stealthDelay
    ensures numFrames > 0 ==> r.expires == Max(d.expires, now + numFrames)
  {
    var d' := if d.disguised then d.(disguised := false) else d;
    if numFrames == 0 then d'.(expires := now + stealthDelay)
    else if d'.expires < now + numFrames then d'.(expires := now + numFrames)
    else d'
  }

  /** `update` sets the DETECTED status exactly while the expiry lies ahead. */
  function DetectedAt(expires: int, now: int): (r: bool)
    ensures r <==> now < expires
  {
    expires > now
  }

  /** After `markAsDetected(n)` with `n > 0`, the object stays detected at
      least for the frames `now .. now + n - 1`, and no detection already
      pending is cut short. */
  lemma MarkedStaysDetected(d: Detection, now: int, n: nat, stealthDelay: nat, f: int)
    requires n > 0 && now <= f < now + n
    ensures DetectedAt(MarkAsDetected(d, now, n, stealthDelay).expires, f)
    ensures DetectedAt(d.expires, f) ==> DetectedAt(MarkAsDetected(d, now, n, stealthDelay).expires, f)
  {
  }

  /** With the default count the object is detected exactly for the stealth
      delay from now, whatever was pending. */
  lemma DefaultMarkDetectsForDelay(d: Detection, now: int, stealthDelay: nat, f: int)
    requires f >= now
    ensures DetectedAt(MarkAsDetected(d, now, 0, stealthDelay).expires, f) <==> f < now + stealthDelay
  {
  }

  /** Marking twice with the same positive count at the same frame changes
      nothing the second time. */
  lemma MarkIdempotent(d: Detection, now: int, n: nat, stealthDelay: nat)
    requires n > 0
    ensures var once := MarkAsDetected(d, now, n, stealthDelay);
            MarkAsDetected(once, now, n, stealthDelay) == once
  {
  }

  /** Being marked ends a disguise: although detection itself makes no
      difference to a disguiser's look (`DisguiseIgnoresDetection`), after a
      mark no player sees it disguised any more. */
  lemma MarkEndsDisguise(v: Viewing, d: Detection, now: int, numFrames: nat, stealthDelay: nat)
    requires v.disguised == d.disguised
    ensures var m := MarkAsDetected(d, now, numFrames, stealthDelay);
            CalcStealthedStatus(v.(disguised := m.disguised)) != DisguisedEnemy
  {
  }

  datatype SleepTime = SleepNone | SleepForever

  /** `calcSleepTime`: every frame while enabled, forever otherwise. */
  function CalcSleepTime(enabled: bool): (r: SleepTime)
    ensures r == SleepNone <==> enabled
    ensures r == SleepForever <==> !enabled
  {
    if enabled then SleepNone else SleepForever
  }
}
