/** Cumulative-weight selection, the scheme both databases use: walk the entries adding each
    eligible weight to a running total and take the first entry at which the total exceeds the
    roll. An entry that is skipped contributes weight 0, which the scheme never selects. */
module Weighted {
  import opened Wrappers

  predicate NonNegative(ws: seq<int>) {
    forall i :: 0 <= i < |ws| ==> 0 <= ws[i]
  }

  /** The sum of the weights, built up from the front as the loops accumulate it. */
  function Sum(ws: seq<int>): int {
    if ws == [] then 0 else Sum(ws[..|ws| - 1]) + ws[|ws| - 1]
  }

  /** The first index from `i` on at which the running total exceeds `roll`. */
  function PickFrom(ws: seq<int>, roll: int, i: nat): Option<nat>
    requires i <= |ws|
    decreases |ws| - i
  {
    if i == |ws| then None
    else if roll < Sum(ws[..i + 1]) then Some(i)
    else PickFrom(ws, roll, i + 1)
  }

  /** The entry a roll selects, if any. */
  function Pick(ws: seq<int>, roll: int): Option<nat> {
    PickFrom(ws, roll, 0)
  }

  lemma SumStep(ws: seq<int>, i: nat)
    requires i < |ws|
    ensures Sum(ws[..i + 1]) == Sum(ws[..i]) + ws[i]
  {
    assert ws[..i + 1][..i] == ws[..i];
  }

  /** With no negative weight the running total never decreases. */
  lemma {:induction false} SumMonotone(ws: seq<int>, i: nat, j: nat)
    requires NonNegative(ws) && i <= j <= |ws|
    ensures 0 <= Sum(ws[..i]) <= Sum(ws[..j])
    decreases j
  {
    if j == 0 {
    } else if i == j {
      SumMonotone(ws, i - 1, i - 1);
      SumStep(ws, i - 1);
    } else {
      SumMonotone(ws, i, j - 1);
      SumStep(ws, j - 1);
    }
  }

  lemma {:induction false} PickFromSpec(ws: seq<int>, roll: int, i: nat)
    requires NonNegative(ws) && i <= |ws| && Sum(ws[..i]) <= roll
    ensures PickFrom(ws, roll, i).Some? <==> roll < Sum(ws)
    ensures PickFrom(ws, roll, i).Some? ==>
              var k := PickFrom(ws, roll, i).value;
              i <= k < |ws| && 0 < ws[k] && Sum(ws[..k]) <= roll < Sum(ws[..k + 1])
    decreases |ws| - i
  {
    assert ws[..|ws|] == ws;
    if i < |ws| {
      SumStep(ws, i);
      if roll >= Sum(ws[..i + 1]) {
        PickFromSpec(ws, roll, i + 1);
      } else {
        SumMonotone(ws, i + 1, |ws|);
      }
    }
  }

  /** A roll selects an entry exactly when it is below the total, and then the entry is the
      first whose running total exceeds the roll; its own weight is positive, so an entry of
      weight 0 is never selected. */
  lemma PickSpec(ws: seq<int>, roll: int)
    requires NonNegative(ws) && 0 <= roll
    ensures Pick(ws, roll).Some? <==> roll < Sum(ws)
    ensures Pick(ws, roll).Some? ==>
              var k := Pick(ws, roll).value;
              k < |ws| && 0 < ws[k] && Sum(ws[..k]) <= roll < Sum(ws[..k + 1])
  {
    PickFromSpec(ws, roll, 0);
  }
}
