/** Per-player match state kept in Photon player properties: alive, escaped or dead, whether
    the player died today, and the share of health to start the next day with. Properties
    arrive untyped, so each reader tests the stored value's type and falls back to a default. */
module PlayerStates {
  import opened Wrappers

  /** A property value as Photon delivers it; a byte holds 0..255. */
  datatype PropValue = IntV(i: int) | BoolV(b: bool) | ByteV(y: int) | FloatV(f: real) | DoubleV(d: real) | StringV(s: string)

  /** A player's custom properties. */
  type Props = map<string, PropValue>

  const StateKey: string := "State"
  const WasDeadKey: string := "WasDead"
  const NextHpKey: string := "NextHp"

  /** PlayerGameState codes. A stored int is cast to the enum unchecked, so any int is a state. */
  const Alive := 0
  const Escaped := 1
  const Dead := 2

  /** The stored int when there is one; Alive for a null player, a missing key or a value of
      another type. `props` is None for a null player. */
  function GetState(props: Option<Props>): int {
    if props.Some? && StateKey in props.value && props.value[StateKey].IntV? then props.value[StateKey].i
    else Alive
  }

  /** A bool as it is; an int or a byte counts as dead when it is 1; anything else is false. */
  function GetWasDeadThisDay(props: Option<Props>): bool {
    if props.Some? && WasDeadKey in props.value then
      match props.value[WasDeadKey]
      case BoolV(b) => b
      case IntV(i) => i == 1
      case ByteV(y) => y == 1
      case _ => false
    else false
  }

  /** A float as it is, a double narrowed to float, and 1 otherwise. */
  function GetNextDayHpRatio(props: Option<Props>): real {
    if props.Some? && NextHpKey in props.value then
      match props.value[NextHpKey]
      case FloatV(f) => f
      case DoubleV(d) => d
      case _ => 1.0
    else 1.0
  }

  /** Mathf.Clamp01. */
  function Clamp01(r: real): (c: real)
    ensures 0.0 <= c <= 1.0
    ensures 0.0 <= r <= 1.0 ==> c == r
  {
    if r < 0.0 then 0.0 else if r > 1.0 then 1.0 else r
  }

  /** What the setters write is what the readers read back, and every reader falls back to
      its default when the key is missing. */
  lemma DecodersRoundTrip(p: Props, state: int, dead: bool, ratio: real)
    ensures GetState(Some(p[StateKey := IntV(state)])) == state
    ensures GetWasDeadThisDay(Some(p[WasDeadKey := BoolV(dead)])) == dead
    ensures GetNextDayHpRatio(Some(p[NextHpKey := FloatV(Clamp01(ratio))])) == Clamp01(ratio)
    ensures StateKey !in p ==> GetState(Some(p)) == Alive
    ensures WasDeadKey !in p ==> !GetWasDeadThisDay(Some(p))
    ensures NextHpKey !in p ==> GetNextDayHpRatio(Some(p)) == 1.0
    ensures GetState(None) == Alive && !GetWasDeadThisDay(None) && GetNextDayHpRatio(None) == 1.0
  {
  }

  /** The keys are distinct, so writing one property never changes what another reader sees. */
  lemma SettersIndependent(p: Props, v: PropValue)
    ensures GetState(Some(p[WasDeadKey := v])) == GetState(Some(p))
    ensures GetState(Some(p[NextHpKey := v])) == GetState(Some(p))
    ensures GetWasDeadThisDay(Some(p[StateKey := v])) == GetWasDeadThisDay(Some(p))
    ensures GetWasDeadThisDay(Some(p[NextHpKey := v])) == GetWasDeadThisDay(Some(p))
    ensures GetNextDayHpRatio(Some(p[StateKey := v])) == GetNextDayHpRatio(Some(p))
    ensures GetNextDayHpRatio(Some(p[WasDeadKey := v])) == GetNextDayHpRatio(Some(p))
  {
    assert StateKey != WasDeadKey && StateKey != NextHpKey && WasDeadKey != NextHpKey by {
      assert StateKey[0] == 'S' && WasDeadKey[0] == 'W' && NextHpKey[0] == 'N';
    }
  }

  /** A Photon player; SetCustomProperties merges into its table. */
  class PhotonPlayer {
    var props: Props

    constructor (props: Props)
      ensures this.props == props
    {
      this.props := props;
    }
  }

  /** The local overload: no master check, only a null guard. */
  method SetLocalState(local: Option<PhotonPlayer>, state: int)
    modifies if local.Some? then {local.value} else {}
    ensures local.Some? ==> local.value.props == old(local.value.props)[StateKey := IntV(state)]
    ensures local.Some? ==> GetState(Some(local.value.props)) == state
  {
    if local.None? {
      return;
    }
    local.value.props := local.value.props[StateKey := IntV(state)];
  }

  /** The targeted overload: only the master writes, and only to a real player. */
  method SetState(target: Option<PhotonPlayer>, isMaster: bool, state: int)
    modifies if target.Some? then {target.value} else {}
    ensures target.Some? && !isMaster ==> target.value.props == old(target.value.props)
    ensures target.Some? && isMaster ==> target.value.props == old(target.value.props)[StateKey := IntV(state)]
    ensures target.Some? && isMaster ==> GetState(Some(target.value.props)) == state
  {
    if target.None? || !isMaster {
      return;
    }
    target.value.props := target.value.props[StateKey := IntV(state)];
  }

  method SetWasDeadThisDay(local: Option<PhotonPlayer>, value: bool)
    modifies if local.Some? then {local.value} else {}
    ensures local.Some? ==> local.value.props == old(local.value.props)[WasDeadKey := BoolV(value)]
    ensures local.Some? ==> GetWasDeadThisDay(Some(local.value.props)) == value
  {
    if local.None? {
      return;
    }
    local.value.props := local.value.props[WasDeadKey := BoolV(value)];
  }

  /** A new day: not dead today, full health next day. */
  method ResetDayFlags(local: Option<PhotonPlayer>)
    modifies if local.Some? then {local.value} else {}
    ensures local.Some? ==> local.value.props == old(local.value.props)[WasDeadKey := BoolV(false)][NextHpKey := FloatV(1.0)]
    ensures local.Some? ==> !GetWasDeadThisDay(Some(local.value.props)) && GetNextDayHpRatio(Some(local.value.props)) == 1.0
    ensures local.Some? ==> GetState(Some(local.value.props)) == GetState(Some(old(local.value.props)))
  {
    if local.None? {
      return;
    }
    SettersIndependent(local.value.props, BoolV(false));
    SettersIndependent(local.value.props[WasDeadKey := BoolV(false)], FloatV(1.0));
    local.value.props := local.value.props[WasDeadKey := BoolV(false)][NextHpKey := FloatV(1.0)];
  }

  /** Only the master writes, and the ratio is clamped to [0, 1]. */
  method SetNextDayHpRatio(target: Option<PhotonPlayer>, isMaster: bool, ratio: real)
    modifies if target.Some? then {target.value} else {}
    ensures target.Some? && !isMaster ==> target.value.props == old(target.value.props)
    ensures target.Some? && isMaster ==> target.value.props == old(target.value.props)[NextHpKey := FloatV(Clamp01(ratio))]
    ensures target.Some? && isMaster ==> 0.0 <= GetNextDayHpRatio(Some(target.value.props)) <= 1.0
  {
    if target.None? || !isMaster {
      return;
    }
    target.value.props := target.value.props[NextHpKey := FloatV(Clamp01(ratio))];
  }

  /** True exactly when no player in the list reads as Alive, so an empty list counts as
      everyone dead. */
  method AreAllPlayersDead(players: seq<PhotonPlayer>) returns (b: bool)
    ensures b <==> forall i :: 0 <= i < |players| ==> GetState(Some(players[i].props)) != Alive
    ensures players == [] ==> b
  {
    var i := 0;
    while i < |players|
      invariant 0 <= i <= |players|
      invariant forall j :: 0 <= j < i ==> GetState(Some(players[j].props)) != Alive
    {
      if GetState(Some(players[i].props)) == Alive {
        return false;
      }
      i := i + 1;
    }
    return true;
  }
}
