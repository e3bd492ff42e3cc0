/**
 The drift of the in-flight counter: how far it gets from the sends in progress, and that it
 never comes back.
 */
module SafetyDrift {
  import opened Numbers
  import opened SafetyGate
  import opened Sequences
  import opened Strings

  ghost predicate Reachable(p: Policy, s: State) {
    exists states, moves :: Behaviour(p, states, moves) && states[|moves|] == s
  }

  lemma Extend(p: Policy, s: State, m: Move)
    requires Reachable(p, s) && Enabled(p, s, m)
    ensures Reachable(p, Apply(p, s, m))
  {
    var states, moves :| Behaviour(p, states, moves) && states[|moves|] == s;
    var states', moves' := states + [Apply(p, s, m)], moves + [m];
    forall k | 0 <= k < |moves'|
      ensures Enabled(p, states'[k], moves'[k]) && states'[k + 1] == Apply(p, states'[k], moves'[k])
    {
      if k < |moves| { assert moves'[k] == moves[k] && states'[k] == states[k] && states'[k + 1] == states[k + 1]; }
    }
    assert Behaviour(p, states', moves') && states'[|moves'|] == Apply(p, s, m);
  }

  ghost predicate AllFailed(rows: seq<Row>) {
    forall r :: r in rows ==> r.status.Failed? && !r.stage.Admitted?
  }

  /** Nobody is in `begin` and every row but one in progress has failed and been released; the counter is c. */
  ghost predicate OneInProgress(s: State, c: nat) {
    && FinishedBefore(s.tasks, |s.tasks|) && s.tail.None? && s.counter == c
    && s.rows != [] && AllFailed(s.rows[..|s.rows| - 1])
    && s.rows[|s.rows| - 1].stage.Admitted? && s.rows[|s.rows| - 1].status.Pending?
  }

  /** The last call is evaluating and has read c. */
  ghost predicate HasRead(s: State, c: nat, passed: set<Limit>) {
    && s.tasks != [] && FinishedBefore(s.tasks, |s.tasks| - 1) && s.tail == Some(|s.tasks| - 1)
    && s.tasks[|s.tasks| - 1].phase == Checking(c, s.clock, "", passed)
  }

  lemma ReadsCounter(p: Policy, s: State) returns (s': State)
    requires Reachable(p, s) && FinishedBefore(s.tasks, |s.tasks|) && s.tail.None? && s.counter < p.maxConcurrentSends
    ensures Reachable(p, s') && HasRead(s', s.counter, {}) && s'.rows == s.rows && s'.counter == s.counter
  {
    var n := |s.tasks|;
    var s1 := Apply(p, s, Arrive);
    Extend(p, s, Arrive);
    var s2 := Apply(p, s1, Enter(n));
    Extend(p, s1, Enter(n));
    s' := Apply(p, s2, ReadCounter(n, ""));
    Extend(p, s2, ReadCounter(n, ""));
  }

  /** The one send in progress fails and is released. */
  lemma SendFails(p: Policy, s: State) returns (s': State)
    requires Reachable(p, s) && s.rows != [] && AllFailed(s.rows[..|s.rows| - 1])
    requires s.rows[|s.rows| - 1].stage.Admitted? && s.rows[|s.rows| - 1].status.Pending?
    ensures Reachable(p, s') && AllFailed(s'.rows) && s'.tasks == s.tasks && s'.tail == s.tail && s'.clock == s.clock
    ensures s'.counter == if s.counter <= 1 then 0 else s.counter - 1
  {
    var r := |s.rows| - 1;
    var s1 := Apply(p, s, Settle(r, false));
    Extend(p, s, Settle(r, false));
    s' := Apply(p, s1, Release(r));
    Extend(p, s1, Release(r));
    forall q | q in s'.rows ensures q.status.Failed? && !q.stage.Admitted? {
      var i :| 0 <= i < |s'.rows| && s'.rows[i] == q;
      if i < r { assert s'.rows[i] == s.rows[..r][i]; }
    }
  }

  lemma PassesOne(p: Policy, s: State, c: nat, passed: set<Limit>, l: Limit) returns (s': State)
    requires Reachable(p, s) && HasRead(s, c, passed) && AllFailed(s.rows) && Maximum(p, l) >= 1
    ensures Reachable(p, s') && HasRead(s', c, passed + {l}) && s'.rows == s.rows && s'.counter == s.counter
  {
    var n := |s.tasks| - 1;
    CountNone(Queried(l, "", s.clock - Window(l)), s.rows);
    s' := Apply(p, s, Pass(n, l));
    Extend(p, s, Pass(n, l));
  }

  /** With all rows failed the call that has read c is admitted, and writes c + 1. */
  lemma IsAdmitted(p: Policy, s: State, c: nat) returns (s': State)
    requires Reachable(p, s) && HasRead(s, c, {}) && AllFailed(s.rows)
    requires forall l :: Maximum(p, l) >= 1
    ensures Reachable(p, s') && OneInProgress(s', c + 1)
  {
    var n := |s.tasks| - 1;
    var s1 := PassesOne(p, s, c, {}, InstanceMinute);
    var s2 := PassesOne(p, s1, c, {InstanceMinute}, InstanceDay);
    var s3 := PassesOne(p, s2, c, {InstanceMinute, InstanceDay}, RecipientMinute);
    var s4 := PassesOne(p, s3, c, {InstanceMinute, InstanceDay, RecipientMinute}, RecipientDay);
    s' := IsWritten(p, s4, c);
  }

  lemma IsWritten(p: Policy, s: State, c: nat) returns (s': State)
    requires Reachable(p, s) && HasRead(s, c, ALL_LIMITS) && AllFailed(s.rows)
    ensures Reachable(p, s') && OneInProgress(s', c + 1)
  {
    var n := |s.tasks| - 1;
    var s1 := Apply(p, s, Create(n));
    Extend(p, s, Create(n));
    var s2 := Apply(p, s1, Write(n));
    Extend(p, s1, Write(n));
    s' := Apply(p, s2, Leave(n));
    Extend(p, s2, Leave(n));
    assert s'.rows[..|s'.rows| - 1] == s.rows;
  }

  /** One send at a time, each released while the next call is between read and write, drives the counter up. */
  lemma {:induction false} CounterClimbs(p: Policy, c: nat) returns (s: State)
    requires 1 <= c <= p.maxConcurrentSends && forall l :: Maximum(p, l) >= 1
    ensures Reachable(p, s) && OneInProgress(s, c)
  {
    if c == 1 {
      var none: seq<Move> := [];
      assert Behaviour(p, [INITIAL], none) && [INITIAL][|none|] == INITIAL;
      var s1 := ReadsCounter(p, INITIAL);
      s := IsAdmitted(p, s1, 0);
    } else {
      var s0 := CounterClimbs(p, c - 1);
      var s1 := ReadsCounter(p, s0);
      var s2 := SendFails(p, s1);
      s := IsAdmitted(p, s2, c - 1);
    }
  }

  // What a call has read is not below the counter: since then only releases have changed it.
  ghost predicate ReadInv(s: State) {
    forall i :: 0 <= i < |s.tasks| && (s.tasks[i].phase.Checking? || s.tasks[i].phase.Created?) ==>
      s.counter <= s.tasks[i].phase.active
  }

  lemma ReadStep(p: Policy, s: State, m: Move)
    requires LockInv(s.tasks, s.tail) && ReadInv(s) && Enabled(p, s, m)
    ensures ReadInv(Apply(p, s, m))
  {
    if m.Write? { OnlyOneBusy(s, m.i); }
  }

  function Overestimate(s: State): int {
    s.counter - Unfinished(s)
  }

  lemma OverestimateStep(p: Policy, s: State, m: Move)
    requires LockInv(s.tasks, s.tail) && CounterInv(p, s) && ReadInv(s) && Enabled(p, s, m)
    ensures Overestimate(s) <= Overestimate(Apply(p, s, m))
  {
    match m
    case Cleanup(i) => SweepCounts(Outstanding(), s.rows, s.clock - p.retentionDays * DAY);
    case Create(i) =>
      CountAppend(Outstanding(), s.rows, Row(s.tasks[i].phase.recipient, s.clock, Pending, Inserted, false));
    case Write(i) => OverestimateAfterWrite(p, s, i);
    case Settle(r, ok) => CountUpdate(Outstanding(), s.rows, r, s.rows[r].(status := if ok then Sent else Failed));
    case Release(r) => CountUpdate(Outstanding(), s.rows, r, s.rows[r].(stage := Released));
    case _ =>
  }

  lemma {:induction false} BehaviourRead(p: Policy, states: seq<State>, moves: seq<Move>, k: nat)
    requires Behaviour(p, states, moves) && k < |states|
    ensures ReadInv(states[k])
  {
    if k > 0 {
      BehaviourRead(p, states, moves, k - 1);
      BehaviourLockCounter(p, states, moves, k - 1);
      ReadStep(p, states[k - 1], moves[k - 1]);
    }
  }

  /** Over every run the overestimate never shrinks: a place that is lost stays lost. */
  lemma {:induction false} OverestimateNeverShrinks(p: Policy, states: seq<State>, moves: seq<Move>, j: nat, k: nat)
    requires Behaviour(p, states, moves) && j <= k < |states|
    ensures Overestimate(states[j]) <= Overestimate(states[k])
  {
    if j < k {
      OverestimateNeverShrinks(p, states, moves, j, k - 1);
      BehaviourLockCounter(p, states, moves, k - 1);
      BehaviourRead(p, states, moves, k - 1);
      OverestimateStep(p, states[k - 1], moves[k - 1]);
    }
  }

  /**
   The bound on the overestimate is reached: for every policy under which anything can be
   sent there is a run after which nothing is in progress and the counter is one below the limit.
   */
  lemma OverestimateIsReached(p: Policy) returns (states: seq<State>, moves: seq<Move>)
    requires p.maxConcurrentSends >= 1 && forall l :: Maximum(p, l) >= 1
    ensures Behaviour(p, states, moves)
    ensures Unfinished(states[|moves|]) == 0 && states[|moves|].counter == p.maxConcurrentSends - 1
    ensures FinishedBefore(states[|moves|].tasks, |states[|moves|].tasks|)
  {
    var s := CounterClimbs(p, p.maxConcurrentSends);
    var s' := SendFails(p, s);
    CountNone(Outstanding(), s'.rows);
    states, moves :| Behaviour(p, states, moves) && states[|moves|] == s';
  }
}
