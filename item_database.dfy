/** Item definitions and the item database asset: an id index built from the serialized item
    array, lookup by id, and the weighted random choice of an item to spawn. The roll drawn
    by Random.Range(0, total) is a parameter. */
module Items {
  import opened Wrappers
  import opened Weighted
  import opened IdIndex

  /** ItemId.NONE; the other ids are the enum's positive values. */
  const NONE := 0

  /** The parts of an ItemData asset the logic reads. */
  datatype ItemData = ItemData(id: int, weight: int)

  function IdOf(d: ItemData): int {
    d.id
  }

  /** An item takes part in the weighted choice when it exists, has a real id and is not the
      excluded one. */
  predicate Eligible(it: Option<ItemData>, excludeId: int) {
    it.Some? && it.value.id != NONE && !(excludeId != NONE && it.value.id == excludeId)
  }

  /** Its weight in the choice: Mathf.Max(0, weight), and 0 when it does not take part. */
  function ItemWeight(it: Option<ItemData>, excludeId: int): int {
    if !Eligible(it, excludeId) then 0
    else if it.value.weight < 0 then 0
    else it.value.weight
  }

  function Weights(items: seq<Option<ItemData>>, excludeId: int): (ws: seq<int>)
    ensures |ws| == |items| && NonNegative(ws)
  {
    seq(|items|, i requires 0 <= i < |items| => ItemWeight(items[i], excludeId))
  }

  /** The item the roll selects, or nothing when the total weight is not positive. */
  function Chosen(items: seq<Option<ItemData>>, excludeId: int, roll: int): Option<ItemData> {
    var ws := Weights(items, excludeId);
    if Sum(ws) <= 0 then None
    else
      match Pick(ws, roll)
      case None => None
      case Some(k) => if k < |items| then items[k] else None
  }

  /** For a roll in [0, total) the choice is an item that takes part, has positive weight and
      is the first whose running total exceeds the roll; with no items, or nothing of positive
      weight, there is no choice. */
  lemma ChosenSpec(items: seq<Option<ItemData>>, excludeId: int, roll: int)
    ensures items == [] ==> Chosen(items, excludeId, roll) == None
    ensures Sum(Weights(items, excludeId)) <= 0 ==> Chosen(items, excludeId, roll) == None
    ensures 0 <= roll < Sum(Weights(items, excludeId)) ==> Pick(Weights(items, excludeId), roll).Some?
    ensures 0 <= roll < Sum(Weights(items, excludeId)) ==>
              var k := Pick(Weights(items, excludeId), roll).value;
              k < |items| && Chosen(items, excludeId, roll) == items[k] && items[k].Some?
              && Eligible(items[k], excludeId) && 0 < items[k].value.weight
              && Sum(Weights(items, excludeId)[..k]) <= roll < Sum(Weights(items, excludeId)[..k + 1])
  {
    var ws := Weights(items, excludeId);
    if items == [] {
      assert ws == [];
    }
    if 0 <= roll < Sum(ws) {
      PickSpec(ws, roll);
    }
  }

  class ItemDatabase {
    /** The serialized item array; null entries are allowed. */
    const items: seq<Option<ItemData>>
    /** The id index, null until first built. */
    var index: Option<map<int, ItemData>>

    ghost predicate Valid()
      reads this
    {
      index == None || index == Some(BuildMap(items, IdOf))
    }

    constructor (items: seq<Option<ItemData>>)
      ensures Valid() && this.items == items && index == None
    {
      this.items := items;
      index := None;
    }

    method Build()
      modifies this
      ensures index == Some(BuildMap(items, IdOf))
    {
      var m: map<int, ItemData> := map[];
      var i := 0;
      while i < |items|
        invariant 0 <= i <= |items|
        invariant m == BuildMap(items[..i], IdOf)
      {
        BuildMapStep(items, IdOf, i);
        var data := items[i];
        if data.Some? {
          m := m[data.value.id := data.value];
        }
        i := i + 1;
      }
      assert items[..|items|] == items;
      index := Some(m);
    }

    /** NONE is answered without building the index; any other id builds it if needed. */
    method Get(id: int) returns (r: Option<ItemData>)
      requires Valid()
      modifies this
      ensures Valid() && r == Lookup(items, IdOf, id)
      ensures id == NONE ==> r == None && index == old(index)
      ensures id != NONE ==> index == Some(BuildMap(items, IdOf))
    {
      if id == NONE {
        return None;
      }
      if index == None {
        Build();
      }
      var m := index.value;
      r := if id in m then Some(m[id]) else None;
    }

    /** Random.Range(0, total) supplies `roll`, so it lies in [0, total) whenever the total
        weight is positive. */
    method GetRandomWeighted(excludeId: int, roll: int) returns (r: Option<ItemData>)
      requires Sum(Weights(items, excludeId)) > 0 ==> 0 <= roll < Sum(Weights(items, excludeId))
      ensures r == Chosen(items, excludeId, roll)
      ensures r.Some? ==> Eligible(r, excludeId) && 0 < r.value.weight
    {
      ghost var ws := Weights(items, excludeId);
      ChosenSpec(items, excludeId, roll);
      if |items| == 0 {
        return None;
      }
      var total := 0;
      var i := 0;
      while i < |items|
        invariant 0 <= i <= |items|
        invariant total == Sum(ws[..i])
      {
        SumStep(ws, i);
        var it := items[i];
        if it.None? {
        } else if it.value.id == NONE {
        } else if excludeId != NONE && it.value.id == excludeId {
        } else {
          total := total + (if it.value.weight < 0 then 0 else it.value.weight);
        }
        i := i + 1;
      }
      assert ws[..|items|] == ws;
      if total <= 0 {
        return None;
      }
      var acc := 0;
      i := 0;
      while i < |items|
        invariant 0 <= i <= |items|
        invariant acc == Sum(ws[..i]) <= roll
        invariant Pick(ws, roll) == PickFrom(ws, roll, i)
      {
        SumStep(ws, i);
        var it := items[i];
        if it.None? {
        } else if it.value.id == NONE {
        } else if excludeId != NONE && it.value.id == excludeId {
        } else {
          acc := acc + (if it.value.weight < 0 then 0 else it.value.weight);
          if roll < acc {
            return it;
          }
        }
        i := i + 1;
      }
      return None;
    }
  }
}
