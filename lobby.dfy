/** The lobby's room list: a cache of the rooms Photon reports, updated from each partial room
    list, one button per cached room, and the guards on joining or creating a room by a typed
    name. The Photon connection, scene loading and the randomly named fallback room are not
    modelled. */
module Lobby {
  import opened Wrappers
  import opened Text

  datatype RoomInfo = RoomInfo(name: string, playerCount: int, maxPlayers: int, removedFromList: bool)

  /** What a room button is set up with. */
  datatype RoomButton = RoomButton(name: string, playerCount: int, maxPlayers: int)

  const MaxPlayers := 4

  datatype CreateRoomRequest = CreateRoomRequest(roomName: string, maxPlayers: int)

  function ButtonFor(info: RoomInfo): RoomButton {
    RoomButton(info.name, info.playerCount, info.maxPlayers)
  }

  /** One entry of an update: a removed room leaves the cache, any other is stored under its
      name. */
  function ApplyUpdate(cache: map<string, RoomInfo>, info: RoomInfo): map<string, RoomInfo> {
    if info.removedFromList then (if info.name in cache then cache - {info.name} else cache)
    else cache[info.name := info]
  }

  /** The entries of an update, applied in order. */
  function ApplyAll(cache: map<string, RoomInfo>, roomList: seq<RoomInfo>): map<string, RoomInfo> {
    if roomList == [] then cache
    else ApplyUpdate(ApplyAll(cache, roomList[..|roomList| - 1]), roomList[|roomList| - 1])
  }

  /** Every cached room is stored under its own name. */
  predicate KeyedByName(cache: map<string, RoomInfo>) {
    forall k :: k in cache ==> cache[k].name == k
  }

  /** Names the update does not mention keep what they had. */
  lemma {:induction false} ApplyAllUnmentioned(cache: map<string, RoomInfo>, roomList: seq<RoomInfo>, n: string)
    requires forall k :: 0 <= k < |roomList| ==> roomList[k].name != n
    ensures n in ApplyAll(cache, roomList) <==> n in cache
    ensures n in cache ==> ApplyAll(cache, roomList)[n] == cache[n]
  {
    if roomList != [] {
      var front := roomList[..|roomList| - 1];
      assert forall k :: 0 <= k < |front| ==> front[k] == roomList[k];
      ApplyAllUnmentioned(cache, front, n);
    }
  }

  /** A name's last entry in the update decides: the cache ends holding that entry, or without
      the name when the entry is a removal. */
  lemma {:induction false} ApplyAllLast(cache: map<string, RoomInfo>, roomList: seq<RoomInfo>, j: nat)
    requires j < |roomList|
    requires forall k :: j < k < |roomList| ==> roomList[k].name != roomList[j].name
    ensures roomList[j].name in ApplyAll(cache, roomList) <==> !roomList[j].removedFromList
    ensures roomList[j].name in ApplyAll(cache, roomList) ==> ApplyAll(cache, roomList)[roomList[j].name] == roomList[j]
  {
    var front := roomList[..|roomList| - 1];
    if j < |roomList| - 1 {
      assert forall k :: 0 <= k < |front| ==> front[k] == roomList[k];
      ApplyAllLast(cache, front, j);
    }
  }

  /** Removing a room that is not cached changes nothing. */
  lemma RemoveAbsentIsNoOp(cache: map<string, RoomInfo>, info: RoomInfo)
    requires info.removedFromList && info.name !in cache
    ensures ApplyUpdate(cache, info) == cache
  {
  }

  /** The cache stays keyed by name. */
  lemma {:induction false} ApplyAllKeyed(cache: map<string, RoomInfo>, roomList: seq<RoomInfo>)
    requires KeyedByName(cache)
    ensures KeyedByName(ApplyAll(cache, roomList))
  {
    if roomList != [] {
      ApplyAllKeyed(cache, roomList[..|roomList| - 1]);
    }
  }

  /** Joining or creating by the typed name needs a non-empty name. */
  function JoinRequest(typed: Option<string>): (r: Option<string>)
    ensures r.None? <==> IsNullOrEmpty(typed)
    ensures r.Some? ==> r.value == typed.value
  {
    if IsNullOrEmpty(typed) then None else Some(typed.value)
  }

  /** A created room holds at most four players. */
  function CreateRequest(typed: Option<string>): (r: Option<CreateRoomRequest>)
    ensures r.None? <==> IsNullOrEmpty(typed)
    ensures r.Some? ==> r.value.roomName == typed.value && r.value.maxPlayers == MaxPlayers
  {
    if IsNullOrEmpty(typed) then None else Some(CreateRoomRequest(typed.value, MaxPlayers))
  }

  class LobbyManager {
    var cachedRoomList: map<string, RoomInfo>
    var roomButtons: map<string, RoomButton>

    ghost predicate Valid()
      reads this
    {
      KeyedByName(cachedRoomList)
    }

    constructor ()
      ensures Valid() && cachedRoomList == map[] && roomButtons == map[]
    {
      cachedRoomList, roomButtons := map[], map[];
    }

    method OnRoomListUpdate(roomList: seq<RoomInfo>)
      requires Valid()
      modifies this
      ensures Valid() && cachedRoomList == ApplyAll(old(cachedRoomList), roomList)
      ensures roomButtons.Keys == cachedRoomList.Keys
      ensures forall k :: k in roomButtons ==> roomButtons[k] == ButtonFor(cachedRoomList[k])
    {
      ApplyAllKeyed(cachedRoomList, roomList);
      var i := 0;
      while i < |roomList|
        invariant 0 <= i <= |roomList|
        invariant cachedRoomList == ApplyAll(old(cachedRoomList), roomList[..i])
      {
        assert roomList[..i + 1][..i] == roomList[..i];
        var info := roomList[i];
        if info.removedFromList {
          if info.name in cachedRoomList {
            cachedRoomList := cachedRoomList - {info.name};
          }
        } else {
          cachedRoomList := cachedRoomList[info.name := info];
        }
        i := i + 1;
      }
      assert roomList[..i] == roomList;
      UpdateRoomList();
    }

    /** The old buttons go and one new button per cached room is made. */
    method UpdateRoomList()
      requires Valid()
      modifies this
      ensures Valid() && cachedRoomList == old(cachedRoomList)
      ensures roomButtons.Keys == cachedRoomList.Keys
      ensures forall k :: k in roomButtons ==> roomButtons[k] == ButtonFor(cachedRoomList[k])
    {
      roomButtons := map[];
      var remaining := cachedRoomList.Keys;
      while remaining != {}
        invariant Valid() && cachedRoomList == old(cachedRoomList)
        invariant remaining <= cachedRoomList.Keys
        invariant roomButtons.Keys == cachedRoomList.Keys - remaining
        invariant forall k :: k in roomButtons ==> roomButtons[k] == ButtonFor(cachedRoomList[k])
        decreases remaining
      {
        var name :| name in remaining;
        var info := cachedRoomList[name];
        roomButtons := roomButtons[info.name := ButtonFor(info)];
        remaining := remaining - {name};
      }
    }
  }
}
