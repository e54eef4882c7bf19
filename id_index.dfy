/** The id dictionary both databases build from their serialized arrays: every non-null entry
    under its id, a later entry replacing an earlier one with the same id. */
module IdIndex {
  import opened Wrappers

  predicate HasId<T>(e: Option<T>, idOf: T -> int, id: int) {
    e.Some? && idOf(e.value) == id
  }

  function BuildMap<T>(entries: seq<Option<T>>, idOf: T -> int): map<int, T> {
    if entries == [] then map[]
    else
      var m := BuildMap(entries[..|entries| - 1], idOf);
      match entries[|entries| - 1]
      case None => m
      case Some(d) => m[idOf(d) := d]
  }

  /** An id is indexed exactly when some entry has it, and it maps to the last such entry. */
  lemma {:induction false} BuildMapSpec<T>(entries: seq<Option<T>>, idOf: T -> int, id: int)
    ensures id in BuildMap(entries, idOf) <==> exists i :: 0 <= i < |entries| && HasId(entries[i], idOf, id)
    ensures forall i :: 0 <= i < |entries| && HasId(entries[i], idOf, id)
                        && (forall j :: i < j < |entries| ==> !HasId(entries[j], idOf, id)) ==>
              id in BuildMap(entries, idOf) && BuildMap(entries, idOf)[id] == entries[i].value
  {
    if entries != [] {
      var front := entries[..|entries| - 1];
      BuildMapSpec(front, idOf, id);
      forall i | 0 <= i < |front|
        ensures front[i] == entries[i]
      {
      }
    }
  }

  /** The loops that build the dictionary, one entry at a time. */
  lemma BuildMapStep<T>(entries: seq<Option<T>>, idOf: T -> int, i: nat)
    requires i < |entries|
    ensures BuildMap(entries[..i + 1], idOf)
            == (match entries[i] case None => BuildMap(entries[..i], idOf) case Some(d) => BuildMap(entries[..i], idOf)[idOf(d) := d])
  {
    assert entries[..i + 1][..i] == entries[..i];
  }

  /** Get's answer: nothing for NONE (id 0) or an id that is not indexed. */
  function Lookup<T>(entries: seq<Option<T>>, idOf: T -> int, id: int): Option<T> {
    if id == 0 || id !in BuildMap(entries, idOf) then None else Some(BuildMap(entries, idOf)[id])
  }
}
