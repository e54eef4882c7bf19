/** An enemy's live numbers: hit points, contact damage and speed, taken from its EnemyData
    when it spawns and worn down by damage. */
module EnemyModels {
  import opened Wrappers
  import opened Enemies

  class EnemyModel {
    var moveSpeed: real
    var maxHP: int
    var currentHP: int
    var contactDamage: int
    var alwaysChase: bool
    var approachDistance: real
    var stats: Option<EnemyData>

    /** A fresh model holds C#'s default values. */
    constructor ()
      ensures moveSpeed == 0.0 && maxHP == 0 && currentHP == 0 && contactDamage == 0
      ensures !alwaysChase && approachDistance == 0.0 && stats == None
    {
      moveSpeed, maxHP, currentHP, contactDamage := 0.0, 0, 0, 0;
      alwaysChase, approachDistance, stats := false, 0.0, None;
    }

    /** Full health at the base maximum, and the base damage and speed. */
    method Init(s: EnemyData)
      modifies this
      ensures stats == Some(s) && maxHP == s.baseMaxHP && currentHP == maxHP
      ensures contactDamage == s.baseContactDamage && moveSpeed == s.baseMoveSpeed
      ensures alwaysChase == old(alwaysChase) && approachDistance == old(approachDistance)
      ensures IsDead() <==> s.baseMaxHP <= 0
    {
      stats := Some(s);
      moveSpeed := s.baseMoveSpeed;
      maxHP := s.baseMaxHP;
      currentHP := maxHP;
      contactDamage := s.baseContactDamage;
    }

    predicate IsDead()
      reads this
    {
      currentHP <= 0
    }

    /** Hit points drop by the damage and stop at 0; the enemy is dead afterwards exactly when
        the damage reached its remaining hit points. Nothing else changes. */
    method TakeDamage(dmg: int)
      modifies this
      ensures currentHP == if old(currentHP) - dmg < 0 then 0 else old(currentHP) - dmg
      ensures 0 <= currentHP && (0 <= dmg && 0 <= old(currentHP) ==> currentHP <= old(currentHP))
      ensures IsDead() <==> old(currentHP) <= dmg
      ensures moveSpeed == old(moveSpeed) && maxHP == old(maxHP) && contactDamage == old(contactDamage)
      ensures alwaysChase == old(alwaysChase) && approachDistance == old(approachDistance) && stats == old(stats)
    {
      currentHP := currentHP - dmg;
      if currentHP < 0 {
        currentHP := 0;
      }
    }
  }

  /** Hit points after a run of hits: each hit subtracts and clamps at 0. */
  function AfterHits(hp: int, hits: seq<int>): int
    decreases |hits|
  {
    if hits == [] then hp
    else
      var next := if hp - hits[0] < 0 then 0 else hp - hits[0];
      AfterHits(next, hits[1..])
  }

  /** With non-negative hits, hit points never rise and a dead enemy stays dead; the outcome
      is the start value less the total damage, clamped at 0. */
  lemma {:induction false} AfterHitsSpec(hp: int, hits: seq<int>)
    requires 0 <= hp && forall i :: 0 <= i < |hits| ==> 0 <= hits[i]
    ensures 0 <= AfterHits(hp, hits) <= hp
    ensures AfterHits(hp, hits) == if hp - Total(hits) < 0 then 0 else hp - Total(hits)
    decreases |hits|
  {
    if hits != [] {
      var next := if hp - hits[0] < 0 then 0 else hp - hits[0];
      AfterHitsSpec(next, hits[1..]);
      TotalFront(hits);
    }
  }

  function Total(hits: seq<int>): int
    decreases |hits|
  {
    if hits == [] then 0 else hits[0] + Total(hits[1..])
  }

  lemma {:induction false} TotalFront(hits: seq<int>)
    requires hits != [] && forall i :: 0 <= i < |hits| ==> 0 <= hits[i]
    ensures 0 <= Total(hits[1..]) && Total(hits) == hits[0] + Total(hits[1..])
  {
    TotalNonNegative(hits[1..]);
  }

  lemma {:induction false} TotalNonNegative(hits: seq<int>)
    requires forall i :: 0 <= i < |hits| ==> 0 <= hits[i]
    ensures 0 <= Total(hits)
    decreases |hits|
  {
    if hits != [] {
      TotalNonNegative(hits[1..]);
    }
  }
}
