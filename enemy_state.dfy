/** The synchronised animation state of an enemy. Local changes always apply; a state received
    from the network is ignored once the enemy is dead. */
module EnemyStates {
  datatype State = Idle | Move | Hit | Dead

  class EnemyState {
    var current: State

    constructor ()
      ensures current == Idle
    {
      current := Idle;
    }

    /** Any state, even out of Dead. */
    method ChangeState(next: State)
      modifies this
      ensures current == next
    {
      current := next;
    }

    /** Dead absorbs remote updates; from any other state the received state is taken. */
    method SetRemoteState(next: State)
      modifies this
      ensures old(current) == Dead ==> current == Dead
      ensures old(current) != Dead ==> current == next
    {
      if current == Dead {
        return;
      }
      current := next;
    }
  }

  /** The state after a run of remote updates: once Dead is reached it stays. */
  function AfterRemote(s: State, updates: seq<State>): State
    decreases |updates|
  {
    if updates == [] then s
    else AfterRemote(if s == Dead then Dead else updates[0], updates[1..])
  }

  /** Dead is absorbing, and otherwise a run ends in Dead exactly when some update was Dead or
      the run ends with the last update. */
  lemma {:induction false} AfterRemoteSpec(s: State, updates: seq<State>)
    ensures s == Dead ==> AfterRemote(s, updates) == Dead
    ensures s != Dead && updates != [] && (forall i :: 0 <= i < |updates| ==> updates[i] != Dead) ==>
              AfterRemote(s, updates) == updates[|updates| - 1]
    ensures (AfterRemote(s, updates) == Dead) <==> (s == Dead || exists i :: 0 <= i < |updates| && updates[i] == Dead)
    decreases |updates|
  {
    if updates != [] {
      var next := if s == Dead then Dead else updates[0];
      AfterRemoteSpec(next, updates[1..]);
      if exists i :: 0 <= i < |updates[1..]| && updates[1..][i] == Dead {
        var i :| 0 <= i < |updates[1..]| && updates[1..][i] == Dead;
        assert updates[i + 1] == Dead;
      }
      if exists i :: 0 <= i < |updates| && updates[i] == Dead {
        var i :| 0 <= i < |updates| && updates[i] == Dead;
        if i > 0 {
          assert updates[1..][i - 1] == Dead;
        }
      }
      if updates[1..] == [] {
      } else {
        assert updates[1..][|updates[1..]| - 1] == updates[|updates| - 1];
      }
    }
  }
}
