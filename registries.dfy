/** The player, ground-item and enemy registries: a list of live objects without duplicates.
    The three classes share the same code over different element types, so one generic class
    models them. A Unity object that has been destroyed compares equal to null; `destroyed`
    says which elements that is. */
module Registries {
  ghost predicate NoDup<T>(s: seq<T>) {
    forall i, j :: 0 <= i < j < |s| ==> s[i] != s[j]
  }

  /** List.IndexOf: the first position holding x, or |s| when there is none. */
  function IndexOf<T(==)>(s: seq<T>, x: T): (k: nat)
    ensures k <= |s| && (k < |s| ==> s[k] == x)
    ensures forall j :: 0 <= j < k ==> s[j] != x
  {
    if s == [] then 0
    else if s[0] == x then 0
    else 1 + IndexOf(s[1..], x)
  }

  /** List.Remove: the first occurrence cut out, or the list unchanged when there is none. */
  function RemoveFirst<T(==)>(s: seq<T>, x: T): seq<T> {
    var k := IndexOf(s, x);
    if k < |s| then s[..k] + s[k + 1..] else s
  }

  /** List.RemoveAll: the elements that are not destroyed, in their order. */
  function Survivors<T>(s: seq<T>, destroyed: T -> bool): seq<T> {
    if s == [] then []
    else Survivors(s[..|s| - 1], destroyed) + (if destroyed(s[|s| - 1]) then [] else [s[|s| - 1]])
  }

  /** Removing from a list without duplicates: the element is gone, every other element
      stays, nothing is duplicated, and an absent element changes nothing. */
  lemma RemoveFirstSpec<T>(s: seq<T>, x: T)
    requires NoDup(s)
    ensures x !in s ==> RemoveFirst(s, x) == s
    ensures x in s ==> |RemoveFirst(s, x)| == |s| - 1
    ensures NoDup(RemoveFirst(s, x))
    ensures forall y :: y in RemoveFirst(s, x) <==> y in s && y != x
  {
    var i := IndexOf(s, x);
    var r := RemoveFirst(s, x);
    if i < |s| {
      forall a, b | 0 <= a < b < |r|
        ensures r[a] != r[b]
      {
        var a' := if a < i then a else a + 1;
        var b' := if b < i then b else b + 1;
        assert r[a] == s[a'] && r[b] == s[b'];
      }
      forall y
        ensures y in r <==> y in s && y != x
      {
        if y in s && y != x {
          var k :| 0 <= k < |s| && s[k] == y;
          if k < i {
            assert r[k] == y;
          } else {
            assert r[k - 1] == y;
          }
        }
        if y in r {
          var k :| 0 <= k < |r| && r[k] == y;
          var k' := if k < i then k else k + 1;
          assert s[k'] == y && k' != i;
        }
      }
    } else {
      assert x !in s;
    }
  }

  /** An element survives exactly when it was listed and is not destroyed. */
  lemma {:induction false} SurvivorsMember<T>(s: seq<T>, destroyed: T -> bool, y: T)
    ensures y in Survivors(s, destroyed) <==> y in s && !destroyed(y)
  {
    if s != [] {
      var front := s[..|s| - 1];
      SurvivorsMember(front, destroyed, y);
      assert s == front + [s[|s| - 1]];
    }
  }

  lemma SurvivorsMembers<T>(s: seq<T>, destroyed: T -> bool)
    ensures forall y :: y in Survivors(s, destroyed) <==> y in s && !destroyed(y)
    ensures forall i :: 0 <= i < |Survivors(s, destroyed)| ==> !destroyed(Survivors(s, destroyed)[i])
  {
    forall i | 0 <= i < |Survivors(s, destroyed)|
      ensures !destroyed(Survivors(s, destroyed)[i])
    {
      SurvivorsMember(s, destroyed, Survivors(s, destroyed)[i]);
    }
    forall y
      ensures y in Survivors(s, destroyed) <==> y in s && !destroyed(y)
    {
      SurvivorsMember(s, destroyed, y);
    }
  }

  /** The survivors keep the list's order: they are at most as many, and a list without
      duplicates keeps none; nothing is dropped when nothing is destroyed. */
  lemma {:induction false} SurvivorsShape<T>(s: seq<T>, destroyed: T -> bool)
    ensures |Survivors(s, destroyed)| <= |s|
    ensures NoDup(s) ==> NoDup(Survivors(s, destroyed))
    ensures (forall i :: 0 <= i < |s| ==> !destroyed(s[i])) ==> Survivors(s, destroyed) == s
  {
    if s != [] {
      var front := s[..|s| - 1];
      var last := s[|s| - 1];
      SurvivorsShape(front, destroyed);
      assert s == front + [last];
      if NoDup(s) {
        NoDupFront(s);
        SurvivorsMember(front, destroyed, last);
        if !destroyed(last) {
          NoDupSnoc(Survivors(front, destroyed), last);
        }
      }
    }
  }

  lemma NoDupFront<T>(s: seq<T>)
    requires NoDup(s) && s != []
    ensures NoDup(s[..|s| - 1]) && s[|s| - 1] !in s[..|s| - 1]
  {
    var front := s[..|s| - 1];
    forall i, j | 0 <= i < j < |front|
      ensures front[i] != front[j]
    {
      assert front[i] == s[i] && front[j] == s[j];
    }
    forall k | 0 <= k < |front|
      ensures front[k] != s[|s| - 1]
    {
      assert front[k] == s[k];
    }
  }

  lemma NoDupSnoc<T>(r: seq<T>, x: T)
    requires NoDup(r) && x !in r
    ensures NoDup(r + [x])
  {
    var t := r + [x];
    forall a, b | 0 <= a < b < |t|
      ensures t[a] != t[b]
    {
      if b == |r| {
        assert t[a] == r[a];
      } else {
        assert t[a] == r[a] && t[b] == r[b];
      }
    }
  }

  class Registry<T(==)> {
    var list: seq<T>

    ghost predicate Valid()
      reads this
    {
      NoDup(list)
    }

    constructor ()
      ensures Valid() && list == []
    {
      list := [];
    }

    /** Appends the element unless it is already there; there are never duplicates. */
    method Register(x: T)
      requires Valid()
      modifies this
      ensures Valid() && x in list
      ensures x in old(list) ==> list == old(list)
      ensures x !in old(list) ==> list == old(list) + [x]
    {
      if x !in list {
        list := list + [x];
      }
    }

    /** List.Remove alone, as the enemy registry unregisters: the first occurrence is cut out
        and the answer says whether there was one; nothing changes when the element is absent. */
    method Remove(x: T) returns (removed: bool)
      requires Valid()
      modifies this
      ensures Valid() && list == RemoveFirst(old(list), x)
      ensures removed <==> x in old(list)
      ensures x !in list && forall y :: y != x ==> (y in list <==> y in old(list))
    {
      RemoveFirstSpec(list, x);
      removed := x in list;
      list := RemoveFirst(list, x);
    }

    /** The player and item registries check Contains first; the outcome is the same as
        Remove's. */
    method Unregister(x: T)
      requires Valid()
      modifies this
      ensures Valid() && list == RemoveFirst(old(list), x)
      ensures x !in old(list) ==> list == old(list)
      ensures x !in list && forall y :: y != x ==> (y in list <==> y in old(list))
    {
      if x in list {
        var _ := Remove(x);
      }
    }

    /** The Players / Items / Enemies getter: destroyed entries are dropped from the list itself,
        which is then returned. */
    method Live(destroyed: T -> bool) returns (r: seq<T>)
      requires Valid()
      modifies this
      ensures Valid() && list == Survivors(old(list), destroyed) && r == list
      ensures forall i :: 0 <= i < |r| ==> !destroyed(r[i])
      ensures forall y :: y in r <==> y in old(list) && !destroyed(y)
    {
      SurvivorsShape(list, destroyed);
      list := Survivors(list, destroyed);
      r := list;
      SurvivorsMembers(old(list), destroyed);
    }
  }
}
