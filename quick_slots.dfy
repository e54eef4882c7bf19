/** The player's quick-slot inventory: a fixed array of slots, each holding an item or
    nothing, a selected slot, pickup into the first free slot, dropping the selected item,
    and the mapping to and from the saved array of item ids. Change events, the drop requests
    sent to the local player and the save call inside ClearAllSlots are not modelled. */
module QuickSlots {
  import opened Wrappers
  import opened IdIndex
  import opened Items

  /** One slot; `data` is the ItemData it holds, null when empty. */
  class QuickSlot {
    var data: Option<ItemData>

    constructor ()
      ensures data == None
    {
      data := None;
    }

    predicate IsEmpty()
      reads this
    {
      data.None?
    }

    method Set(d: Option<ItemData>)
      modifies this
      ensures data == d && (d == None ==> IsEmpty())
    {
      data := d;
    }

    method Clear()
      modifies this
      ensures data == None && IsEmpty()
    {
      data := None;
    }
  }

  /** The index of the first empty slot, or |s| when every slot is full. */
  function FirstEmpty(s: seq<Option<ItemData>>): (k: nat)
    ensures k <= |s|
    ensures k < |s| ==> s[k] == None
    ensures forall j :: 0 <= j < k ==> s[j] != None
  {
    if s == [] then 0
    else if s[0] == None then 0
    else 1 + FirstEmpty(s[1..])
  }

  /** The ids of the filled slots, in slot order. */
  function FilledIds(s: seq<Option<ItemData>>): seq<int> {
    if s == [] then []
    else FilledIds(s[..|s| - 1]) + (if s[|s| - 1].Some? then [s[|s| - 1].value.id] else [])
  }

  lemma FilledIdsStep(s: seq<Option<ItemData>>, i: nat)
    requires i < |s|
    ensures FilledIds(s[..i + 1]) == FilledIds(s[..i]) + (if s[i].Some? then [s[i].value.id] else [])
  {
    assert s[..i + 1][..i] == s[..i];
  }

  /** The first empty slot is determined by the slots before it being full. */
  lemma {:induction false} FirstEmptyAt(s: seq<Option<ItemData>>, k: nat)
    requires k < |s| && s[k] == None
    requires forall j :: 0 <= j < k ==> s[j] != None
    ensures FirstEmpty(s) == k
  {
    if k > 0 {
      forall j | 0 <= j < k - 1
        ensures s[1..][j] != None
      {
        assert s[1..][j] == s[j + 1];
      }
      FirstEmptyAt(s[1..], k - 1);
    }
  }

  function FilledSlots(s: seq<Option<ItemData>>): set<nat> {
    set i: nat | i < |s| && s[i].Some?
  }

  /** One id per filled slot, so there are none exactly when every slot is empty. */
  lemma {:induction false} FilledIdsCount(s: seq<Option<ItemData>>)
    ensures |FilledIds(s)| == |FilledSlots(s)|
    ensures FilledIds(s) == [] <==> forall i :: 0 <= i < |s| ==> s[i] == None
  {
    if s != [] {
      var front := s[..|s| - 1];
      FilledIdsCount(front);
      if s[|s| - 1].Some? {
        assert FilledSlots(s) == FilledSlots(front) + {|s| - 1};
      } else {
        assert FilledSlots(s) == FilledSlots(front);
      }
      forall i | 0 <= i < |front|
        ensures front[i] == s[i]
      {
      }
    }
  }

  /** The saved array: NONE for an empty slot, the item's id otherwise, position by position. */
  function SaveIds(s: seq<Option<ItemData>>): (ids: seq<int>)
    ensures |ids| == |s|
  {
    seq(|s|, i requires 0 <= i < |s| => if s[i].None? then NONE else s[i].value.id)
  }

  /** The slots loaded from a saved array: NONE clears a slot, any other id holds the
      database's item for it (null when the database does not know the id). */
  function LoadedSlots(ids: seq<int>, items: seq<Option<ItemData>>, n: nat): (s: seq<Option<ItemData>>)
    requires n <= |ids|
    ensures |s| == n
  {
    seq(n, i requires 0 <= i < n => if ids[i] == NONE then None else Lookup(items, IdOf, ids[i]))
  }

  /** Saving and loading give back the same slots when every held item has a real id that the
      database maps back to it. */
  lemma SaveLoadRoundTrip(s: seq<Option<ItemData>>, items: seq<Option<ItemData>>)
    requires forall i :: 0 <= i < |s| && s[i].Some? ==> s[i].value.id != NONE && Lookup(items, IdOf, s[i].value.id) == s[i]
    ensures LoadedSlots(SaveIds(s), items, |s|) == s
  {
  }

  class QuickSlotManager {
    const slots: array<QuickSlot>
    var currentIndex: int

    ghost function Repr(): set<QuickSlot>
      reads slots
    {
      set i | 0 <= i < slots.Length :: slots[i]
    }

    ghost predicate Valid()
      reads this, slots
    {
      1 <= slots.Length && 0 <= currentIndex < slots.Length
      && forall i, j :: 0 <= i < j < slots.Length ==> slots[i] != slots[j]
    }

    /** What the slots hold, in order. */
    ghost function Contents(): (s: seq<Option<ItemData>>)
      reads slots, Repr()
      ensures |s| == slots.Length
    {
      seq(slots.Length, i requires 0 <= i < slots.Length reads slots, Repr() => slots[i].data)
    }

    /** Awake's result: `n` empty slots (5 by default) with the first one selected. */
    constructor (n: nat)
      requires 1 <= n
      ensures Valid() && slots.Length == n && currentIndex == 0
      ensures forall i :: 0 <= i < n ==> Contents()[i] == None
    {
      var made: seq<QuickSlot> := [];
      while |made| < n
        invariant |made| <= n
        invariant forall i, j :: 0 <= i < j < |made| ==> made[i] != made[j]
        invariant forall i :: 0 <= i < |made| ==> made[i].data == None
      {
        var q := new QuickSlot();
        made := made + [q];
      }
      slots := new QuickSlot[n](i requires 0 <= i < n => made[i]);
      currentIndex := 0;
    }

    /** Out-of-range indices are ignored. */
    method SelectSlot(index: int)
      requires Valid()
      modifies this
      ensures Valid() && Contents() == old(Contents())
      ensures currentIndex == if 0 <= index < slots.Length then index else old(currentIndex)
    {
      if index < 0 || index >= slots.Length {
        return;
      }
      currentIndex := index;
    }

    /** Null is refused; otherwise the item goes into the lowest-numbered empty slot, and the
        pickup fails when every slot is full. */
    method TryPickup(d: Option<ItemData>) returns (ok: bool)
      requires Valid()
      modifies Repr()
      ensures Valid() && currentIndex == old(currentIndex)
      ensures ok <==> d.Some? && FirstEmpty(old(Contents())) < slots.Length
      ensures ok ==> Contents() == old(Contents())[FirstEmpty(old(Contents())) := d]
      ensures !ok ==> Contents() == old(Contents())
    {
      if d.None? {
        return false;
      }
      var i := 0;
      while i < slots.Length
        invariant 0 <= i <= slots.Length
        invariant forall j :: 0 <= j < i ==> slots[j].data != None
        invariant Contents() == old(Contents())
      {
        if slots[i].IsEmpty() {
          FirstEmptyAt(old(Contents()), i);
          slots[i].Set(d);
          assert forall j :: 0 <= j < slots.Length && j != i ==> slots[j].data == old(slots[j].data);
          assert Contents() == old(Contents())[i := d];
          return true;
        }
        i := i + 1;
      }
      return false;
    }

    /** An empty selected slot gives nothing; otherwise its item is handed out and only that
        slot is emptied. */
    method TryDropCurrent() returns (ok: bool, dropped: Option<ItemData>)
      requires Valid()
      modifies Repr()
      ensures Valid() && currentIndex == old(currentIndex)
      ensures ok <==> old(Contents())[currentIndex].Some?
      ensures dropped == old(Contents())[currentIndex]
      ensures Contents() == old(Contents())[currentIndex := None]
    {
      dropped := None;
      var slot := slots[currentIndex];
      if slot.IsEmpty() {
        return false, dropped;
      }
      dropped := slot.data;
      slot.Clear();
      ok := true;
    }

    /** Drops the selected item through the local player. Without a local player the item is
        picked up again, into the first empty slot, which may lie before the selected one. */
    method DropSelectedItem(hasLocalPlayer: bool) returns (request: Option<int>)
      requires Valid()
      modifies Repr()
      ensures Valid() && currentIndex == old(currentIndex)
      ensures old(Contents())[currentIndex].None? ==> request == None && Contents() == old(Contents())
      ensures old(Contents())[currentIndex].Some? && hasLocalPlayer ==>
                request == Some(old(Contents())[currentIndex].value.id)
                && Contents() == old(Contents())[currentIndex := None]
      ensures old(Contents())[currentIndex].Some? && !hasLocalPlayer ==>
                var emptied := old(Contents())[currentIndex := None];
                request == None && FirstEmpty(emptied) <= currentIndex
                && Contents() == emptied[FirstEmpty(emptied) := old(Contents())[currentIndex]]
    {
      var ok, dropped := TryDropCurrent();
      if !ok {
        return None;
      }
      if !hasLocalPlayer {
        ghost var emptied := Contents();
        assert emptied[currentIndex] == None;
        var _ := TryPickup(dropped);
        return None;
      }
      request := Some(dropped.value.id);
    }

    method HasEmptySlot() returns (b: bool)
      requires Valid()
      ensures b <==> exists i :: 0 <= i < slots.Length && Contents()[i] == None
      ensures b <==> FirstEmpty(Contents()) < slots.Length
    {
      var i := 0;
      while i < slots.Length
        invariant 0 <= i <= slots.Length
        invariant forall j :: 0 <= j < i ==> Contents()[j] != None
      {
        if slots[i].IsEmpty() {
          assert Contents()[i] == None;
          FirstEmptyAt(Contents(), i);
          return true;
        }
        i := i + 1;
      }
      PickupIffEmptySlot(Contents());
      return false;
    }

    /** The ids of the held items, in slot order, gathered into a scratch array first. */
    method GetAllItemIds() returns (ids: seq<int>)
      requires Valid()
      ensures ids == FilledIds(Contents())
      ensures |ids| == |FilledSlots(Contents())|
    {
      ghost var s := Contents();
      FilledIdsCount(s);
      var temp := new int[slots.Length];
      var count := 0;
      var i := 0;
      while i < slots.Length
        invariant 0 <= i <= slots.Length && 0 <= count <= i
        invariant temp[..count] == FilledIds(s[..i])
        invariant Contents() == s
      {
        FilledIdsStep(s, i);
        var slot := slots[i];
        assert slot.data == s[i];
        if !slot.IsEmpty() {
          temp[count] := slot.data.value.id;
          assert temp[..count + 1] == temp[..count] + [slot.data.value.id];
          count := count + 1;
        }
        i := i + 1;
      }
      assert s[..slots.Length] == s;
      ids := temp[..count];
    }

    /** Every slot emptied and the first selected. */
    method ClearAllSlots()
      requires Valid()
      modifies this, Repr()
      ensures Valid() && currentIndex == 0
      ensures forall i :: 0 <= i < slots.Length ==> Contents()[i] == None
    {
      var i := 0;
      while i < slots.Length
        invariant 0 <= i <= slots.Length
        invariant forall j :: 0 <= j < i ==> slots[j].data == None
      {
        slots[i].Clear();
        i := i + 1;
      }
      currentIndex := 0;
    }

    /** The slot part of dying: the ids to drop, and the slots cleared unless there were none. */
    method DropAllOnDeath() returns (items: seq<int>)
      requires Valid()
      modifies this, Repr()
      ensures Valid() && items == FilledIds(old(Contents()))
      ensures items == [] ==> Contents() == old(Contents()) && currentIndex == old(currentIndex)
      ensures items != [] ==> currentIndex == 0 && forall i :: 0 <= i < slots.Length ==> Contents()[i] == None
    {
      items := GetAllItemIds();
      if |items| == 0 {
        return;
      }
      ClearAllSlots();
    }

    method ToSaveData() returns (save: seq<int>)
      requires Valid()
      ensures save == SaveIds(Contents())
    {
      var data := new int[slots.Length];
      var i := 0;
      while i < slots.Length
        invariant 0 <= i <= slots.Length
        invariant forall j :: 0 <= j < i ==> data[j] == SaveIds(Contents())[j]
      {
        if slots[i].IsEmpty() {
          data[i] := NONE;
        } else {
          data[i] := slots[i].data.value.id;
        }
        i := i + 1;
      }
      save := data[..];
    }

    /** A null save or database changes nothing; otherwise every slot is loaded from its saved
        id and the first slot is selected. The saved array holds one id per slot. */
    method LoadFromSaveData(save: Option<seq<int>>, db: Option<ItemDatabase>)
      requires Valid()
      requires save.Some? ==> slots.Length <= |save.value|
      requires db.Some? ==> db.value.Valid()
      modifies this, Repr(), if db.Some? then {db.value} else {}
      ensures Valid()
      ensures (save.None? || db.None?) ==> Contents() == old(Contents()) && currentIndex == old(currentIndex)
      ensures save.Some? && db.Some? ==>
                currentIndex == 0 && db.value.Valid() && Contents() == LoadedSlots(save.value, db.value.items, slots.Length)
    {
      if save.None? || db.None? {
        return;
      }
      var ids, base := save.value, db.value;
      var i := 0;
      while i < slots.Length
        invariant 0 <= i <= slots.Length && base.Valid()
        invariant forall j :: 0 <= j < i ==> slots[j].data == LoadedSlots(ids, base.items, slots.Length)[j]
        invariant forall j :: i <= j < slots.Length ==> slots[j].data == old(slots[j].data)
      {
        var id := ids[i];
        if id == NONE {
          slots[i].Clear();
        } else {
          var item := base.Get(id);
          slots[i].Set(item);
        }
        i := i + 1;
      }
      currentIndex := 0;
    }
  }

  /** An empty slot exists exactly when a pickup of a real item succeeds. */
  lemma PickupIffEmptySlot(s: seq<Option<ItemData>>)
    ensures (exists i :: 0 <= i < |s| && s[i] == None) <==> FirstEmpty(s) < |s|
  {
  }
}
