/** Enemy definitions and the enemy database asset: the id index, lookup by id, one weighted
    roll, and the choice of the next enemy to spawn, which rerolls up to 30 times to avoid
    repeating the previous kind. The k-th Random.Range(0, total) drawn during one choice is
    `rolls(k)`. */
module Enemies {
  import opened Wrappers
  import opened Weighted
  import opened IdIndex

  /** EnemyId.NONE; CHASER, WATCHER and LURKER are 1, 2 and 3. */
  const NONE := 0
  /** Rolls that may be spent avoiding the previous kind before one last unconstrained roll. */
  const Retries := 30

  /** The parts of an EnemyData asset the logic reads. The selection code skips an entry whose
      prefab name is null; `hasPrefabName` stands for that test. */
  datatype EnemyData = EnemyData(id: int, hasPrefabName: bool, weight: int,
                                 baseMaxHP: int, baseContactDamage: int, baseMoveSpeed: real)

  function IdOf(d: EnemyData): int {
    d.id
  }

  predicate Eligible(e: Option<EnemyData>) {
    e.Some? && e.value.hasPrefabName
  }

  /** Mathf.Max(1, weight) for an entry that takes part, 0 for one that is skipped. */
  function EnemyWeight(e: Option<EnemyData>): int {
    if !Eligible(e) then 0
    else if e.value.weight < 1 then 1
    else e.value.weight
  }

  function Weights(enemies: seq<Option<EnemyData>>): (ws: seq<int>)
    ensures |ws| == |enemies| && NonNegative(ws)
  {
    seq(|enemies|, i requires 0 <= i < |enemies| => EnemyWeight(enemies[i]))
  }

  function Total(enemies: seq<Option<EnemyData>>): int {
    Sum(Weights(enemies))
  }

  /** The entry one roll selects, or nothing when no entry takes part. */
  function Rolled(enemies: seq<Option<EnemyData>>, roll: int): Option<EnemyData> {
    if Total(enemies) <= 0 then None
    else
      match Pick(Weights(enemies), roll)
      case None => None
      case Some(k) => if k < |enemies| then enemies[k] else None
  }

  /** Rolls k, k + 1, ... up to the 30th: the first selection that exists and differs from
      `lastId`, or else the result of one more roll. */
  function Retry(enemies: seq<Option<EnemyData>>, lastId: int, rolls: nat -> int, k: nat): Option<EnemyData>
    requires k <= Retries
    decreases Retries - k
  {
    if k == Retries then Rolled(enemies, rolls(Retries))
    else
      var picked := Rolled(enemies, rolls(k));
      if picked.Some? && picked.value.id != lastId then picked else Retry(enemies, lastId, rolls, k + 1)
  }

  /** GetRandomWeighted's answer: nothing from an empty array, the only entry of a single-entry
      array whatever it is, and otherwise the retry scheme. */
  function NextEnemy(enemies: seq<Option<EnemyData>>, lastId: int, rolls: nat -> int): Option<EnemyData> {
    if |enemies| == 0 then None
    else if |enemies| == 1 then enemies[0]
    else Retry(enemies, lastId, rolls, 0)
  }

  /** A roll in [0, total) selects an entry that takes part, the first whose running total
      exceeds the roll. */
  lemma RolledSpec(enemies: seq<Option<EnemyData>>, roll: int)
    ensures Total(enemies) <= 0 ==> Rolled(enemies, roll) == None
    ensures 0 <= roll < Total(enemies) ==> Pick(Weights(enemies), roll).Some?
    ensures 0 <= roll < Total(enemies) ==>
              var k := Pick(Weights(enemies), roll).value;
              k < |enemies| && Rolled(enemies, roll) == enemies[k] && Eligible(enemies[k])
              && Sum(Weights(enemies)[..k]) <= roll < Sum(Weights(enemies)[..k + 1])
  {
    if 0 <= roll < Total(enemies) {
      PickSpec(Weights(enemies), roll);
    }
  }

  /** Every entry that takes part counts at least 1, however its weight is set, so some roll
      selects it: the running total just before it. */
  lemma EligibleReachable(enemies: seq<Option<EnemyData>>, k: nat)
    requires k < |enemies| && Eligible(enemies[k])
    ensures EnemyWeight(enemies[k]) >= 1
    ensures 0 <= Sum(Weights(enemies)[..k]) < Total(enemies)
    ensures Rolled(enemies, Sum(Weights(enemies)[..k])) == enemies[k]
  {
    var ws := Weights(enemies);
    var roll := Sum(ws[..k]);
    SumMonotone(ws, k, k);
    SumStep(ws, k);
    SumMonotone(ws, k + 1, |ws|);
    assert ws[..|ws|] == ws;
    PickSpec(ws, roll);
    var j := Pick(ws, roll).value;
    if j < k {
      SumMonotone(ws, j + 1, k);
    } else if j > k {
      SumMonotone(ws, k + 1, j);
    }
    assert j == k;
  }

  /** A retry that finds an entry differing from `lastId` is the answer: the result differs
      from `lastId` unless all 30 constrained rolls failed. */
  lemma {:induction false} RetryAvoidsLast(enemies: seq<Option<EnemyData>>, lastId: int, rolls: nat -> int, k: nat, j: nat)
    requires k <= j < Retries
    requires Rolled(enemies, rolls(j)).Some? && Rolled(enemies, rolls(j)).value.id != lastId
    ensures Retry(enemies, lastId, rolls, k).Some? && Retry(enemies, lastId, rolls, k).value.id != lastId
    decreases j - k
  {
    if k < j {
      var picked := Rolled(enemies, rolls(k));
      if !(picked.Some? && picked.value.id != lastId) {
        RetryAvoidsLast(enemies, lastId, rolls, k + 1, j);
      }
    }
  }

  class EnemyDatabase {
    /** The serialized enemy array; null entries are allowed. */
    const enemies: seq<Option<EnemyData>>
    /** The id index, null until first built. */
    var index: Option<map<int, EnemyData>>

    ghost predicate Valid()
      reads this
    {
      index == None || index == Some(BuildMap(enemies, IdOf))
    }

    constructor (enemies: seq<Option<EnemyData>>)
      ensures Valid() && this.enemies == enemies && index == None
    {
      this.enemies := enemies;
      index := None;
    }

    method Build()
      modifies this
      ensures index == Some(BuildMap(enemies, IdOf))
    {
      var m: map<int, EnemyData> := map[];
      var i := 0;
      while i < |enemies|
        invariant 0 <= i <= |enemies|
        invariant m == BuildMap(enemies[..i], IdOf)
      {
        BuildMapStep(enemies, IdOf, i);
        var data := enemies[i];
        if data.Some? {
          m := m[data.value.id := data.value];
        }
        i := i + 1;
      }
      assert enemies[..|enemies|] == enemies;
      index := Some(m);
    }

    method Get(id: int) returns (r: Option<EnemyData>)
      requires Valid()
      modifies this
      ensures Valid() && r == Lookup(enemies, IdOf, id)
      ensures id == NONE ==> r == None && index == old(index)
      ensures id != NONE ==> index == Some(BuildMap(enemies, IdOf))
    {
      if id == NONE {
        return None;
      }
      if index == None {
        Build();
      }
      var m := index.value;
      r := if id in m then Some(m[id]) else None;
    }

    /** One weighted roll; `roll` is the Random.Range(0, total) it draws. */
    method RollWeighted(roll: int) returns (r: Option<EnemyData>)
      requires Total(enemies) > 0 ==> 0 <= roll < Total(enemies)
      ensures r == Rolled(enemies, roll)
      ensures r.Some? ==> Eligible(r)
    {
      ghost var ws := Weights(enemies);
      RolledSpec(enemies, roll);
      var total := 0;
      var i := 0;
      while i < |enemies|
        invariant 0 <= i <= |enemies|
        invariant total == Sum(ws[..i])
      {
        SumStep(ws, i);
        var data := enemies[i];
        if data.Some? && data.value.hasPrefabName {
          total := total + (if data.value.weight < 1 then 1 else data.value.weight);
        }
        i := i + 1;
      }
      assert ws[..|enemies|] == ws;
      if total <= 0 {
        return None;
      }
      var acc := 0;
      i := 0;
      while i < |enemies|
        invariant 0 <= i <= |enemies|
        invariant acc == Sum(ws[..i]) <= roll
        invariant Pick(ws, roll) == PickFrom(ws, roll, i)
      {
        SumStep(ws, i);
        var data := enemies[i];
        if data.Some? && data.value.hasPrefabName {
          acc := acc + (if data.value.weight < 1 then 1 else data.value.weight);
          if roll < acc {
            return data;
          }
        }
        i := i + 1;
      }
      return None;
    }

    /** The next enemy kind to spawn, avoiding `lastId` when the rolls allow. */
    method GetRandomWeighted(lastId: int, rolls: nat -> int) returns (r: Option<EnemyData>)
      requires Total(enemies) > 0 ==> forall k :: 0 <= rolls(k) < Total(enemies)
      ensures r == NextEnemy(enemies, lastId, rolls)
    {
      if |enemies| == 0 {
        return None;
      }
      if |enemies| == 1 {
        return enemies[0];
      }
      var safety := Retries;
      while safety > 0
        invariant 0 <= safety <= Retries
        invariant NextEnemy(enemies, lastId, rolls) == Retry(enemies, lastId, rolls, Retries - safety)
      {
        var picked := RollWeighted(rolls(Retries - safety));
        safety := safety - 1;
        if picked.Some? && picked.value.id != lastId {
          return picked;
        }
      }
      r := RollWeighted(rolls(Retries));
    }
  }
}
