/** The room's day cycle, kept in Photon room properties: the master client starts a day, ends
    it (time over, manual end, everyone dead) and returns to idle after a short ending phase;
    every client mirrors the properties into a local cache and reacts when the day state
    changes. The shared repair meter lives in the same properties and loses points when a day
    ends. Network time is `now`; times are exact reals here. */
module DayCycle {
  import opened Wrappers

  datatype DayState = Idle | Running | Ending
  datatype DayEndReason = TimeOver | ManualEnd | AllDead
  datatype GameEndType = Success | FailTimeOver | FailPlayerDead

  /** The room properties this code reads and writes; None is a key that is not set. A change
      set sent with SetCustomProperties has the same shape. */
  datatype RoomProps = RoomProps(dayStartTime: Option<real>, dayDuration: Option<real>,
                                 endReason: Option<DayEndReason>, endingUntil: Option<real>,
                                 dayState: Option<DayState>, repair: Option<int>)

  const NoProps := RoomProps(None, None, None, None, None, None)
  const DefaultDayDuration: real := 600.0
  const EndingDuration: real := 5.0
  const MaxRepair := 100

  /** Photon's merge of a change set into the room: every key it sets overwrites. */
  function Merge(room: RoomProps, changed: RoomProps): (r: RoomProps)
    ensures changed.dayState.Some? ==> r.dayState == changed.dayState
    ensures changed.dayState.None? ==> r.dayState == room.dayState
    ensures changed.repair.Some? ==> r.repair == changed.repair
    ensures changed.repair.None? ==> r.repair == room.repair
  {
    RoomProps(
      if changed.dayStartTime.Some? then changed.dayStartTime else room.dayStartTime,
      if changed.dayDuration.Some? then changed.dayDuration else room.dayDuration,
      if changed.endReason.Some? then changed.endReason else room.endReason,
      if changed.endingUntil.Some? then changed.endingUntil else room.endingUntil,
      if changed.dayState.Some? then changed.dayState else room.dayState,
      if changed.repair.Some? then changed.repair else room.repair)
  }

  /** The change set that ends a day for `reason` at time `now`. */
  function EndDaySet(reason: DayEndReason, now: real): (c: RoomProps)
    ensures c.dayState == Some(Ending) && Merge(NoProps, c).dayState == Some(Ending)
    ensures c.endReason == Some(reason) && c.endingUntil == Some(now + EndingDuration)
    ensures c.repair.None? && c.dayStartTime.None? && c.dayDuration.None?
  {
    RoomProps(None, None, Some(reason), Some(now + EndingDuration), Some(Ending), None)
  }

  /** The change set that moves the day to `state`, keeping `reason` and clearing the ending time. */
  function StateSet(state: DayState, reason: DayEndReason): (c: RoomProps)
    ensures c.dayState == Some(state) && c.endReason == Some(reason) && c.endingUntil == Some(0.0)
    ensures c.repair.None? && c.dayStartTime.None? && c.dayDuration.None?
  {
    RoomProps(None, None, Some(reason), Some(0.0), Some(state), None)
  }

  /** Mathf.Clamp on ints. */
  function Clamp(v: int, lo: int, hi: int): (r: int)
    requires lo <= hi
    ensures lo <= r <= hi
    ensures lo <= v <= hi ==> r == v
    ensures v < lo ==> r == lo
    ensures hi < v ==> r == hi
  {
    if v < lo then lo else if v > hi then hi else v
  }

  /** The points a day's end costs the repair meter. */
  function Penalty(reason: DayEndReason): (p: int)
    ensures p > 0
  {
    match reason
    case ManualEnd => 2
    case TimeOver => 5
    case AllDead => 10
  }

  /** Failure costs more than a manual end, and everyone dying costs the most. */
  lemma PenaltyOrder()
    ensures Penalty(ManualEnd) < Penalty(TimeOver) < Penalty(AllDead)
    ensures Penalty(ManualEnd) == 2 && Penalty(TimeOver) == 5 && Penalty(AllDead) == 10
  {
  }

  function ConvertEndType(reason: DayEndReason): GameEndType {
    match reason
    case TimeOver => FailTimeOver
    case AllDead => FailPlayerDead
    case ManualEnd => Success
  }

  /** Only a manual end is a success, and the two failures are told apart, so the end type
      determines the reason. */
  lemma ConvertEndTypeSpec(a: DayEndReason, b: DayEndReason)
    ensures ConvertEndType(a) == Success <==> a == ManualEnd
    ensures ConvertEndType(a) == ConvertEndType(b) <==> a == b
  {
  }

  /** The day states the master moves between: Idle to Running to Ending to Idle. */
  predicate LegalStep(from: DayState, to: DayState) {
    (from == Idle && to == Running) || (from == Running && to == Ending) || (from == Ending && to == Idle)
  }

  /** Three steps bring any state back to itself, and no state steps to itself. */
  lemma LegalStepCycle(s: DayState, t: DayState, u: DayState, v: DayState)
    requires LegalStep(s, t) && LegalStep(t, u) && LegalStep(u, v)
    ensures v == s && s != t && t != u && u != s
  {
  }

  predicate RepairInRange(room: RoomProps) {
    room.repair.None? || 0 <= room.repair.value <= MaxRepair
  }

  /** The value GetRepair reads: a missing key counts as 0. */
  function RepairOf(room: RoomProps): (r: int)
    ensures RepairInRange(room) ==> 0 <= r <= MaxRepair
    ensures room.repair.None? ==> r == 0
  {
    if room.repair.Some? then room.repair.value else 0
  }

  /** The change set that charges `reason`'s penalty to a meter standing at `repair`. */
  function PenaltySet(repair: int, reason: DayEndReason): (c: RoomProps)
    ensures 0 <= repair <= MaxRepair ==> c.repair == Some(if repair < Penalty(reason) then 0 else repair - Penalty(reason))
    ensures c.dayState.None? && c.endReason.None? && c.endingUntil.None? && c.dayStartTime.None? && c.dayDuration.None?
  {
    NoProps.(repair := Some(Clamp(repair - Penalty(reason), 0, MaxRepair)))
  }

  /** Whether a property update carries a day state other than the cached one `s`. */
  predicate ChangesState(changed: Option<RoomProps>, s: DayState) {
    changed.Some? && changed.value.dayState.Some? && changed.value.dayState.value != s
  }

  class RoomDay {
    /** The room's properties as the server holds them. */
    var room: RoomProps
    /** Every change set this client has sent, oldest first. */
    var sent: seq<RoomProps>

    var cachedState: DayState
    var cachedEndReason: DayEndReason
    var cachedEndingUntil: real
    var dayStartTime: real
    var dayDuration: real
    var remainTime: real
    var isRunning: bool
    /** The end type reported by the last OnGameEndTriggered, if any. */
    var lastEndType: Option<GameEndType>

    ghost predicate Valid()
      reads this
    {
      RepairInRange(room)
    }

    constructor (room0: RoomProps)
      requires RepairInRange(room0)
      ensures Valid() && room == room0 && sent == []
      ensures cachedState == Idle && cachedEndReason == TimeOver && cachedEndingUntil == 0.0
      ensures dayDuration == DefaultDayDuration && !isRunning && lastEndType == None
    {
      room, sent := room0, [];
      cachedState, cachedEndReason, cachedEndingUntil := Idle, TimeOver, 0.0;
      dayStartTime, dayDuration, remainTime := 0.0, DefaultDayDuration, 0.0;
      isRunning, lastEndType := false, None;
    }

    /** SetCustomProperties: the change set goes out and the room takes it. */
    method Send(changed: RoomProps)
      requires Valid() && RepairInRange(changed)
      modifies this
      ensures Valid() && room == Merge(old(room), changed) && sent == old(sent) + [changed]
      ensures cachedState == old(cachedState) && cachedEndReason == old(cachedEndReason)
      ensures cachedEndingUntil == old(cachedEndingUntil) && dayStartTime == old(dayStartTime)
      ensures dayDuration == old(dayDuration) && remainTime == old(remainTime)
      ensures isRunning == old(isRunning) && lastEndType == old(lastEndType)
    {
      room := Merge(room, changed);
      sent := sent + [changed];
    }

    /** Only the master, and only from Idle: a new day starts now, with nothing pending. */
    method StartDay_Master(isMaster: bool, now: real)
      requires Valid()
      modifies this
      ensures Valid() && cachedState == old(cachedState) && cachedEndReason == old(cachedEndReason)
      ensures cachedEndingUntil == old(cachedEndingUntil)
      ensures dayStartTime == old(dayStartTime) && dayDuration == old(dayDuration) && remainTime == old(remainTime)
      ensures isRunning == old(isRunning) && lastEndType == old(lastEndType)
      ensures !isMaster || old(cachedState) != Idle ==> sent == old(sent) && room == old(room)
      ensures isMaster && old(cachedState) == Idle ==>
                var c := RoomProps(Some(now), Some(dayDuration), None, Some(0.0), Some(Running), None);
                sent == old(sent) + [c] && room == Merge(old(room), c)
                && LegalStep(old(cachedState), Running)
    {
      if !isMaster || cachedState != Idle {
        return;
      }
      Send(RoomProps(Some(now), Some(dayDuration), None, Some(0.0), Some(Running), None));
    }

    /** Only the master, and only from Running: the reason, the end of the ending phase and
        the Ending state go out together. */
    method EndDay_Master(isMaster: bool, now: real, reason: DayEndReason)
      requires Valid()
      modifies this
      ensures Valid() && cachedState == old(cachedState) && cachedEndReason == old(cachedEndReason)
      ensures cachedEndingUntil == old(cachedEndingUntil)
      ensures !isMaster || old(cachedState) != Running ==> sent == old(sent) && room == old(room)
      ensures dayStartTime == old(dayStartTime) && dayDuration == old(dayDuration) && remainTime == old(remainTime)
      ensures isRunning == old(isRunning) && lastEndType == old(lastEndType)
      ensures isMaster && old(cachedState) == Running ==>
                sent == old(sent) + [EndDaySet(reason, now)] && room == Merge(old(room), EndDaySet(reason, now))
                && LegalStep(old(cachedState), Ending)
    {
      if !isMaster || cachedState != Running {
        return;
      }
      Send(EndDaySet(reason, now));
    }

    method SetDayState_Master(isMaster: bool, state: DayState, reason: DayEndReason)
      requires Valid()
      modifies this
      ensures Valid() && cachedState == old(cachedState) && cachedEndReason == old(cachedEndReason)
      ensures !isMaster ==> sent == old(sent) && room == old(room)
      ensures cachedEndingUntil == old(cachedEndingUntil) && dayStartTime == old(dayStartTime) && dayDuration == old(dayDuration)
      ensures remainTime == old(remainTime) && isRunning == old(isRunning) && lastEndType == old(lastEndType)
      ensures isMaster ==> sent == old(sent) + [StateSet(state, reason)] && room == Merge(old(room), StateSet(state, reason))
    {
      if !isMaster {
        return;
      }
      Send(StateSet(state, reason));
    }

    /** The repair meter moves by `amount` and stays within [0, 100]; only the master writes. */
    method AddRepair_Master(isMaster: bool, amount: int)
      requires Valid()
      modifies this
      ensures Valid() && cachedState == old(cachedState) && cachedEndReason == old(cachedEndReason)
      ensures cachedEndingUntil == old(cachedEndingUntil)
      ensures dayStartTime == old(dayStartTime) && dayDuration == old(dayDuration) && remainTime == old(remainTime)
      ensures isRunning == old(isRunning) && lastEndType == old(lastEndType)
      ensures !isMaster ==> sent == old(sent) && room == old(room)
      ensures isMaster ==>
                var c := NoProps.(repair := Some(Clamp(RepairOf(old(room)) + amount, 0, MaxRepair)));
                sent == old(sent) + [c] && room == Merge(old(room), c)
      ensures isMaster ==> RepairOf(room) == Clamp(RepairOf(old(room)) + amount, 0, MaxRepair)
    {
      if !isMaster {
        return;
      }
      var currentRepair := GetRepair();
      currentRepair := Clamp(currentRepair + amount, 0, MaxRepair);
      Send(NoProps.(repair := Some(currentRepair)));
    }

    method GetRepair() returns (r: int)
      requires Valid()
      ensures r == RepairOf(room) && 0 <= r <= MaxRepair
    {
      if room.repair.Some? {
        return room.repair.value;
      }
      return 0;
    }

    /** The master takes the reason's penalty off the repair meter, stopping at 0. */
    method ApplyRepairPenalty(isMaster: bool, reason: DayEndReason)
      requires Valid()
      modifies this
      ensures Valid() && cachedState == old(cachedState) && cachedEndReason == old(cachedEndReason)
      ensures cachedEndingUntil == old(cachedEndingUntil)
      ensures dayStartTime == old(dayStartTime) && dayDuration == old(dayDuration) && remainTime == old(remainTime)
      ensures isRunning == old(isRunning) && lastEndType == old(lastEndType)
      ensures !isMaster ==> sent == old(sent) && room == old(room)
      ensures isMaster ==>
                var c := PenaltySet(RepairOf(old(room)), reason);
                sent == old(sent) + [c] && room == Merge(old(room), c)
      ensures isMaster ==> RepairOf(room) == if RepairOf(old(room)) < Penalty(reason) then 0 else RepairOf(old(room)) - Penalty(reason)
    {
      if !isMaster {
        return;
      }
      var penalty := 0;
      if reason == ManualEnd {
        penalty := 2;
      } else if reason == TimeOver {
        penalty := 5;
      } else if reason == AllDead {
        penalty := 10;
      }
      if penalty <= 0 {
        return;
      }
      var current := GetRepair();
      var next := Clamp(current - penalty, 0, MaxRepair);
      Send(NoProps.(repair := Some(next)));
    }

    /** The local reaction to a new day state: Running starts the clock, Ending reports the
        end type and charges the repair penalty, Idle just stops. */
    method ApplyState_Local(isMaster: bool, state: DayState)
      requires Valid()
      modifies this
      ensures Valid() && cachedState == old(cachedState) && cachedEndReason == old(cachedEndReason)
      ensures cachedEndingUntil == old(cachedEndingUntil)
      ensures dayStartTime == old(dayStartTime) && dayDuration == old(dayDuration)
      ensures isRunning == (state == Running)
      ensures state == Running ==> remainTime == dayDuration
      ensures state != Running ==> remainTime == old(remainTime)
      ensures state == Ending ==> lastEndType == Some(ConvertEndType(cachedEndReason))
      ensures state != Ending ==> lastEndType == old(lastEndType)
      ensures state == Ending && isMaster ==>
                var c := PenaltySet(RepairOf(old(room)), cachedEndReason);
                sent == old(sent) + [c] && room == Merge(old(room), c)
      ensures state == Ending && isMaster ==>
                RepairOf(room) == if RepairOf(old(room)) < Penalty(cachedEndReason) then 0 else RepairOf(old(room)) - Penalty(cachedEndReason)
      ensures !(state == Ending && isMaster) ==> sent == old(sent) && room == old(room)
    {
      if state == Idle {
        isRunning := false;
        return;
      }
      if state == Running {
        isRunning := true;
        remainTime := dayDuration;
        return;
      }
      isRunning := false;
      lastEndType := Some(ConvertEndType(cachedEndReason));
      ApplyRepairPenalty(isMaster, cachedEndReason);
    }

    /** The cache takes every key that is present; the local reaction runs only when the day
        state actually changes. A null change set is ignored. */
    method OnRoomPropertiesUpdate(isMaster: bool, changed: Option<RoomProps>)
      requires Valid()
      modifies this
      ensures Valid()
      ensures changed.None? ==>
                cachedState == old(cachedState) && cachedEndReason == old(cachedEndReason)
                && cachedEndingUntil == old(cachedEndingUntil) && dayStartTime == old(dayStartTime)
                && dayDuration == old(dayDuration)
      ensures changed.Some? && changed.value.dayStartTime.Some? ==> dayStartTime == changed.value.dayStartTime.value
      ensures changed.Some? && changed.value.dayStartTime.None? ==> dayStartTime == old(dayStartTime)
      ensures changed.Some? && changed.value.dayDuration.Some? ==> dayDuration == changed.value.dayDuration.value
      ensures changed.Some? && changed.value.dayDuration.None? ==> dayDuration == old(dayDuration)
      ensures changed.Some? && changed.value.endReason.Some? ==> cachedEndReason == changed.value.endReason.value
      ensures changed.Some? && changed.value.endReason.None? ==> cachedEndReason == old(cachedEndReason)
      ensures changed.Some? && changed.value.endingUntil.Some? ==> cachedEndingUntil == changed.value.endingUntil.value
      ensures changed.Some? && changed.value.endingUntil.None? ==> cachedEndingUntil == old(cachedEndingUntil)
      ensures changed.Some? && changed.value.dayState.Some? ==> cachedState == changed.value.dayState.value
      ensures !ChangesState(changed, old(cachedState)) ==>
                cachedState == old(cachedState) && isRunning == old(isRunning) && lastEndType == old(lastEndType)
                && remainTime == old(remainTime) && sent == old(sent) && room == old(room)
      ensures ChangesState(changed, old(cachedState)) ==>
                isRunning == (cachedState == Running)
                && (cachedState == Running ==> remainTime == dayDuration)
                && (cachedState != Running ==> remainTime == old(remainTime))
                && (cachedState == Ending ==> lastEndType == Some(ConvertEndType(cachedEndReason)))
                && (cachedState != Ending ==> lastEndType == old(lastEndType))
      ensures ChangesState(changed, old(cachedState)) && cachedState == Ending && isMaster ==>
                var c := PenaltySet(RepairOf(old(room)), cachedEndReason);
                sent == old(sent) + [c] && room == Merge(old(room), c)
                && RepairOf(room) == if RepairOf(old(room)) < Penalty(cachedEndReason) then 0 else RepairOf(old(room)) - Penalty(cachedEndReason)
      ensures !(ChangesState(changed, old(cachedState)) && cachedState == Ending && isMaster) ==>
                sent == old(sent) && room == old(room)
    {
      if changed.None? {
        return;
      }
      var c := changed.value;
      CacheKeys(c);
      if c.dayState.Some? {
        var newState := c.dayState.value;
        if newState != cachedState {
          cachedState := newState;
          ApplyState_Local(isMaster, newState);
        }
      }
    }

    /** The four keys OnRoomPropertiesUpdate copies into the cache, each only when present. */
    method CacheKeys(c: RoomProps)
      requires Valid()
      modifies this
      ensures Valid() && room == old(room) && sent == old(sent) && cachedState == old(cachedState)
      ensures remainTime == old(remainTime) && isRunning == old(isRunning) && lastEndType == old(lastEndType)
      ensures dayStartTime == if c.dayStartTime.Some? then c.dayStartTime.value else old(dayStartTime)
      ensures dayDuration == if c.dayDuration.Some? then c.dayDuration.value else old(dayDuration)
      ensures cachedEndReason == if c.endReason.Some? then c.endReason.value else old(cachedEndReason)
      ensures cachedEndingUntil == if c.endingUntil.Some? then c.endingUntil.value else old(cachedEndingUntil)
    {
      if c.dayStartTime.Some? {
        dayStartTime := c.dayStartTime.value;
      }
      if c.dayDuration.Some? {
        dayDuration := c.dayDuration.value;
      }
      if c.endReason.Some? {
        cachedEndReason := c.endReason.value;
      }
      if c.endingUntil.Some? {
        cachedEndingUntil := c.endingUntil.value;
      }
    }

    /** One frame. While Running the clock runs down; the master ends the day when it reaches 0
        and, separately, when everyone is dead, so in a frame where both hold the second change
        set replaces the first's reason with AllDead. The master closes an Ending phase once
        its end time has passed. */
    method Update(inRoom: bool, isMaster: bool, now: real, allDead: bool)
      requires Valid()
      modifies this
      ensures Valid() && cachedState == old(cachedState) && cachedEndReason == old(cachedEndReason)
      ensures !inRoom ==> sent == old(sent) && room == old(room)
      ensures forall k :: |old(sent)| <= k < |sent| && sent[k].dayState.Some? ==> LegalStep(old(cachedState), sent[k].dayState.value)
      ensures |sent| == |old(sent)| + NumSent(inRoom, isMaster, now, allDead, old(cachedState), old(dayStartTime),
                                                  old(dayDuration), old(cachedEndingUntil))
      ensures dayStartTime == old(dayStartTime) && dayDuration == old(dayDuration)
      ensures cachedEndingUntil == old(cachedEndingUntil) && isRunning == old(isRunning) && lastEndType == old(lastEndType)
      ensures inRoom && old(cachedState) == Running ==>
                remainTime == Max0(old(dayDuration) - (now - old(dayStartTime)))
      ensures !inRoom || old(cachedState) != Running ==> remainTime == old(remainTime)
      ensures inRoom && isMaster && old(cachedState) == Running ==>
                var timeUp := old(dayDuration) - (now - old(dayStartTime)) <= 0.0;
                sent == old(sent) + (if timeUp then [EndDaySet(TimeOver, now)] else [])
                                  + (if allDead then [EndDaySet(AllDead, now)] else [])
                && (timeUp || allDead ==> room.dayState == Some(Ending) && room.endingUntil == Some(now + EndingDuration))
                && (allDead ==> room.endReason == Some(AllDead))
                && (timeUp && !allDead ==> room.endReason == Some(TimeOver))
                && (!timeUp && !allDead ==> room == old(room))
      ensures inRoom && isMaster && old(cachedState) == Ending ==>
                if old(cachedEndingUntil) > 0.0 && now >= old(cachedEndingUntil) then
                  sent == old(sent) + [StateSet(Idle, old(cachedEndReason))]
                  && room.dayState == Some(Idle) && room.endReason == Some(old(cachedEndReason)) && room.endingUntil == Some(0.0)
                else sent == old(sent) && room == old(room)
      ensures inRoom && (!isMaster || old(cachedState) == Idle) ==> sent == old(sent) && room == old(room)
    {
      if !inRoom {
        return;
      }
      if cachedState == Running {
        var elapsed := now - dayStartTime;
        remainTime := Max0(dayDuration - elapsed);
        if remainTime <= 0.0 && isMaster {
          EndDay_Master(isMaster, now, TimeOver);
        }
        if isMaster && allDead {
          EndDay_Master(isMaster, now, AllDead);
        }
      }
      if cachedState == Ending && isMaster && cachedEndingUntil > 0.0 && now >= cachedEndingUntil {
        SetDayState_Master(isMaster, Idle, cachedEndReason);
      }
    }
  }

  /** Mathf.Max(0, v). */
  function Max0(v: real): (r: real)
    ensures r >= 0.0 && r >= v && (r == 0.0 || r == v)
  {
    if v < 0.0 then 0.0 else v
  }

  /** How many change sets one frame sends. */
  function NumSent(inRoom: bool, isMaster: bool, now: real, allDead: bool, state: DayState,
                   start: real, duration: real, endingUntil: real): (n: nat)
    ensures n <= 2
    ensures !isMaster ==> n == 0
  {
    if !inRoom || !isMaster then 0
    else if state == Running then (if duration - (now - start) <= 0.0 then 1 else 0) + (if allDead then 1 else 0)
    else if state == Ending && endingUntil > 0.0 && now >= endingUntil then 1
    else 0
  }
}
