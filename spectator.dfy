/** The spectator camera's target bookkeeping after the local player dies: the list of players
    to watch, the one being watched, and cycling through them. The camera itself and the input
    actions are not modelled. */
module Spectator {
  import opened Wrappers

  /** The players found in the scene, nulls skipped, in the order found. */
  function NonNull<T>(found: seq<Option<T>>): (ts: seq<T>)
    ensures |ts| <= |found|
  {
    if found == [] then []
    else NonNull(found[..|found| - 1]) + (if found[|found| - 1].Some? then [found[|found| - 1].value] else [])
  }

  lemma NonNullStep<T>(found: seq<Option<T>>, i: nat)
    requires i < |found|
    ensures NonNull(found[..i + 1]) == NonNull(found[..i]) + (if found[i].Some? then [found[i].value] else [])
  {
    assert found[..i + 1][..i] == found[..i];
  }

  /** Every non-null entry is kept, and only those. */
  lemma {:induction false} NonNullMember<T>(found: seq<Option<T>>, x: T)
    ensures x in NonNull(found) <==> Some(x) in found
  {
    if found != [] {
      var front := found[..|found| - 1];
      NonNullMember(front, x);
      assert found == front + [found[|found| - 1]];
    }
  }

  /** The lowest index of a living target, or |ts| when none lives. */
  function FirstAlive<T>(ts: seq<T>, alive: T -> bool): (k: nat)
    ensures k <= |ts| && (k < |ts| ==> alive(ts[k]))
    ensures forall j :: 0 <= j < k ==> !alive(ts[j])
  {
    if ts == [] then 0
    else if alive(ts[0]) then 0
    else 1 + FirstAlive(ts[1..], alive)
  }

  /** The index focused on: the first living target, else the first target. */
  function FocusIndex<T>(ts: seq<T>, alive: T -> bool): (i: nat)
    ensures ts != [] ==> i < |ts|
    ensures i > 0 ==> i < |ts| && alive(ts[i])
    ensures i < |ts| && alive(ts[i]) ==> forall j :: 0 <= j < i ==> !alive(ts[j])
    ensures (exists j :: 0 <= j < |ts| && alive(ts[j])) ==> i < |ts| && alive(ts[i])
  {
    var k := FirstAlive(ts, alive);
    if k < |ts| then k else 0
  }

  /** One step forward, wrapping from the last target to the first. */
  function NextIndex(i: int, n: int): int
    requires 0 <= i && 0 < n
  {
    (i + 1) % n
  }

  /** One step back, wrapping from the first target to the last. */
  function PrevIndex(i: int, n: int): int
    requires 0 < n
  {
    if i - 1 < 0 then n - 1 else i - 1
  }

  /** Both steps stay among the targets and undo each other. */
  lemma NextPrevInverse(i: int, n: int)
    requires 0 <= i < n
    ensures 0 <= NextIndex(i, n) < n && 0 <= PrevIndex(i, n) < n
    ensures PrevIndex(NextIndex(i, n), n) == i
    ensures NextIndex(PrevIndex(i, n), n) == i
  {
  }

  class SpectatorCamera<T> {
    var targets: seq<T>
    var index: int
    var spectating: bool

    ghost predicate Valid()
      reads this
    {
      0 <= index && (targets != [] ==> index < |targets|)
    }

    constructor ()
      ensures Valid() && targets == [] && index == 0 && !spectating
    {
      targets, index, spectating := [], 0, false;
    }

    /** Spectating starts over the players found now; the view goes to the first living one,
        or the first one. With nobody found the index is left untouched. */
    method StartSpectate(found: seq<Option<T>>, alive: T -> bool)
      requires Valid()
      modifies this
      ensures Valid() && spectating && targets == NonNull(found)
      ensures targets == [] ==> index == old(index)
      ensures targets != [] ==> index == FocusIndex(targets, alive)
    {
      spectating := true;
      RefreshTargets(found);
      FocusToAliveOrFirst(alive);
    }

    method StopSpectate()
      modifies this
      ensures Valid() && !spectating && targets == [] && index == 0
    {
      spectating := false;
      targets := [];
      index := 0;
    }

    method RefreshTargets(found: seq<Option<T>>)
      modifies this
      ensures targets == NonNull(found)
      ensures index == old(index) && spectating == old(spectating)
    {
      targets := [];
      var i := 0;
      while i < |found|
        invariant 0 <= i <= |found|
        invariant targets == NonNull(found[..i])
        invariant index == old(index) && spectating == old(spectating)
      {
        NonNullStep(found, i);
        if found[i].None? {
          i := i + 1;
          continue;
        }
        targets := targets + [found[i].value];
        i := i + 1;
      }
      assert found[..i] == found;
    }

    method FocusToAliveOrFirst(alive: T -> bool)
      requires 0 <= index
      modifies this
      ensures Valid() && targets == old(targets) && spectating == old(spectating)
      ensures targets == [] ==> index == old(index)
      ensures targets != [] ==> index == FocusIndex(targets, alive)
    {
      if |targets| == 0 {
        return;
      }
      var i := 0;
      while i < |targets|
        invariant 0 <= i <= |targets|
        invariant forall j :: 0 <= j < i ==> !alive(targets[j])
      {
        if alive(targets[i]) {
          index := i;
          return;
        }
        i := i + 1;
      }
      index := 0;
    }

    method NextTarget()
      requires Valid()
      modifies this
      ensures Valid() && targets == old(targets) && spectating == old(spectating)
      ensures index == if targets == [] then old(index) else NextIndex(old(index), |targets|)
    {
      if |targets| == 0 {
        return;
      }
      index := (index + 1) % |targets|;
    }

    method PrevTarget()
      requires Valid()
      modifies this
      ensures Valid() && targets == old(targets) && spectating == old(spectating)
      ensures index == if targets == [] then old(index) else PrevIndex(old(index), |targets|)
    {
      if |targets| == 0 {
        return;
      }
      index := index - 1;
      if index < 0 {
        index := |targets| - 1;
      }
    }

    /** The input handlers act only while spectating. */
    method OnNext()
      requires Valid()
      modifies this
      ensures Valid() && targets == old(targets) && spectating == old(spectating)
      ensures index == if !spectating || targets == [] then old(index) else NextIndex(old(index), |targets|)
    {
      if !spectating {
        return;
      }
      NextTarget();
    }

    method OnPrevious()
      requires Valid()
      modifies this
      ensures Valid() && targets == old(targets) && spectating == old(spectating)
      ensures index == if !spectating || targets == [] then old(index) else PrevIndex(old(index), |targets|)
    {
      if !spectating {
        return;
      }
      PrevTarget();
    }
  }
}
