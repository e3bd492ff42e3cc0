/**
 The limits of the safety gate in plain terms: how many messages any minute and any day of a run
 can hold, and what the hourly clean-up deletes.
 */
module SafetyWindows {
  import opened Strings
  import opened Sequences
  import opened SafetyGate

  /** Rows of a closed span of time that have not failed, those deleted since included. */
  function Between(lo: int, hi: int): Row -> bool {
    (r: Row) => !r.status.Failed? && lo <= r.requestedAt <= hi
  }

  function BetweenTo(recipient: string, lo: int, hi: int): Row -> bool {
    (r: Row) => !r.status.Failed? && lo <= r.requestedAt <= hi && r.recipient == recipient
  }

  /** Any 60 seconds of a run stay within the limits per minute. */
  lemma AnyMinute(p: Policy, states: seq<State>, moves: seq<Move>, k: nat, recipient: string, lo: int, hi: int)
    requires p.retentionDays >= 1 && Behaviour(p, states, moves) && k < |states| && hi - lo <= 60_000
    ensures Count(Between(lo, hi), states[k].rows) <= p.instancePerMinute
    ensures Count(BetweenTo(recipient, lo, hi), states[k].rows) <= p.recipientPerMinute
  {
    var rows := states[k].rows;
    SlidingWindows(p, states, moves, k, InstanceMinute, recipient, lo, hi);
    SlidingWindows(p, states, moves, k, RecipientMinute, recipient, lo, hi);
    CountBound(Between(lo, hi), InWindow(InstanceMinute, recipient, lo, hi), rows);
    CountBound(BetweenTo(recipient, lo, hi), InWindow(RecipientMinute, recipient, lo, hi), rows);
  }

  /** Any 24 hours of a run stay within the daily limits. */
  lemma AnyDay(p: Policy, states: seq<State>, moves: seq<Move>, k: nat, recipient: string, lo: int, hi: int)
    requires p.retentionDays >= 1 && Behaviour(p, states, moves) && k < |states| && hi - lo <= 86_400_000
    ensures Count(Between(lo, hi), states[k].rows) <= p.instancePerDay
    ensures Count(BetweenTo(recipient, lo, hi), states[k].rows) <= p.recipientPerDay
  {
    var rows := states[k].rows;
    SlidingWindows(p, states, moves, k, InstanceDay, recipient, lo, hi);
    SlidingWindows(p, states, moves, k, RecipientDay, recipient, lo, hi);
    CountBound(Between(lo, hi), InWindow(InstanceDay, recipient, lo, hi), rows);
    CountBound(BetweenTo(recipient, lo, hi), InWindow(RecipientDay, recipient, lo, hi), rows);
  }

  /** No row is from the future. */
  lemma {:induction false} RowsArePast(p: Policy, states: seq<State>, moves: seq<Move>, k: nat)
    requires Behaviour(p, states, moves) && k < |states|
    ensures forall r :: r in states[k].rows ==> r.requestedAt <= states[k].clock
  {
    if k > 0 {
      RowsArePast(p, states, moves, k - 1);
      PastStep(p, states[k - 1], moves[k - 1]);
    }
  }

  lemma PastStep(p: Policy, s: State, m: Move)
    requires Enabled(p, s, m) && forall r :: r in s.rows ==> r.requestedAt <= s.clock
    ensures forall r :: r in Apply(p, s, m).rows ==> r.requestedAt <= Apply(p, s, m).clock
  {
    var rows := Apply(p, s, m).rows;
    forall j | 0 <= j < |rows| ensures rows[j].requestedAt <= Apply(p, s, m).clock {
      if j < |s.rows| { assert s.rows[j] in s.rows; }
    }
  }

  /** A call is refused by a limit only when the span that ends with its check has reached it. */
  lemma RefusedAtTheLimit(p: Policy, states: seq<State>, moves: seq<Move>, k: nat, i: nat, l: Limit)
    requires Behaviour(p, states, moves) && k < |states|
    requires i < |states[k].tasks| && states[k].tasks[i].phase.Checking? && !Enabled(p, states[k], Pass(i, l))
    ensures var s := states[k];
            var now, to := s.tasks[i].phase.now, s.tasks[i].phase.recipient;
            match l
            case InstanceMinute => Count(Between(now - 60_000, s.clock), s.rows) >= p.instancePerMinute
            case InstanceDay => Count(Between(now - 86_400_000, s.clock), s.rows) >= p.instancePerDay
            case RecipientMinute => Count(BetweenTo(to, now - 60_000, s.clock), s.rows) >= p.recipientPerMinute
            case RecipientDay => Count(BetweenTo(to, now - 86_400_000, s.clock), s.rows) >= p.recipientPerDay
  {
    var s := states[k];
    var now, to := s.tasks[i].phase.now, s.tasks[i].phase.recipient;
    RowsArePast(p, states, moves, k);
    CheckCounts(p, l, to, now, s.rows);
    match l
    case InstanceMinute => CountBound(Since(now - 60_000), Between(now - 60_000, s.clock), s.rows);
    case InstanceDay => CountBound(Since(now - 86_400_000), Between(now - 86_400_000, s.clock), s.rows);
    case RecipientMinute => CountBound(SinceTo(to, now - 60_000), BetweenTo(to, now - 60_000, s.clock), s.rows);
    case RecipientDay => CountBound(SinceTo(to, now - 86_400_000), BetweenTo(to, now - 86_400_000, s.clock), s.rows);
  }

  // ---------------------------------------------------------------- the clean-up

  /** A clean-up deletes the rows older than the retention period in days, and no others. */
  lemma CleanupDrops(p: Policy, s: State, i: nat, j: nat)
    requires Enabled(p, s, Cleanup(i)) && j < |s.rows|
    ensures var after := Apply(p, s, Cleanup(i)).rows;
            && |after| == |s.rows|
            && after[j] == s.rows[j].(purged := after[j].purged)
            && (after[j].purged <==> s.rows[j].purged || s.rows[j].requestedAt < s.clock - p.retentionDays * 86_400_000)
  {
  }

  /** Once there has been a clean-up, the next one comes an hour later at the earliest. */
  lemma CleanupsAreHourly(p: Policy, states: seq<State>, moves: seq<Move>, i: nat, j: nat)
    requires Behaviour(p, states, moves) && i < j < |moves| && moves[i].Cleanup? && moves[j].Cleanup?
    ensures states[j].clock - states[i].clock >= 3_600_000
  {
    CleanupRemembered(p, states, moves, i, j);
  }

  lemma {:induction false} CleanupRemembered(p: Policy, states: seq<State>, moves: seq<Move>, i: nat, k: nat)
    requires Behaviour(p, states, moves) && i < k < |states| && moves[i].Cleanup?
    ensures states[k].lastCleanup.Some? && states[i].clock <= states[k].lastCleanup.value <= states[k].clock
  {
    if k > i + 1 { CleanupRemembered(p, states, moves, i, k - 1); }
    assert states[k] == Apply(p, states[k - 1], moves[k - 1]);
  }

  /** And an hour after the last one, a call that evaluates does clean up. */
  lemma CleanupIsDue(p: Policy, s: State, i: nat)
    requires i < |s.tasks| && s.tasks[i].phase.Evaluating?
    ensures Enabled(p, s, Cleanup(i)) <==> s.lastCleanup.None? || s.clock >= s.lastCleanup.value + 3_600_000
  {
  }
}
