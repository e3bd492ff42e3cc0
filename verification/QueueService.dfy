/** The outbound queue as a class: admission, claims and reschedules of one instance. */
module QueueService {
  import opened Numbers
  import opened Strings
  import opened Sequences
  import opened OutboundQueue
  import opened QueueAdmission

  class OutboundMessageQueueService {
    const policy: Policy
    var rows: seq<Row>

    constructor (policy: Policy)
      ensures this.policy == policy && rows == []
    {
      this.policy := policy;
      rows := [];
    }

    /** One call of `capacity`. */
    method CheckCapacity(recent: Recent, q: Request, s: Scope) returns (refusal: Option<Answer>)
      ensures refusal == if Full(policy, recent, rows, q, s) then Some(Refusal(policy, recent, rows, q, s)) else None
    {
      if !Applies(policy, q, s) { return None; }
      var sent, queued := SentIn(recent, s), QueuedIn(rows, q, s);
      if |sent| + queued < Limit(policy, s) { return None; }
      var windowMs := if s.InstanceMinute? || s.RecipientMinute? then MINUTE else DAY;
      var retry := if sent == [] then CeilDiv(windowMs, 1000) else Max(1, CeilDiv(sent[0] + windowMs - q.now, 1000));
      return Some(CapacityReached(s, retry, Limit(policy, s), |sent|, queued));
    }

    /** The five calls of `capacity`, in order; the first full scope refuses. */
    method CheckScopes(recent: Recent, q: Request) returns (refusal: Option<Answer>)
      ensures refusal.None? <==> forall s :: !Full(policy, recent, rows, q, s)
      ensures refusal.Some? ==>
                exists k: nat :: FirstFull(policy, recent, rows, q, k)
                                 && refusal.value == Refusal(policy, recent, rows, q, SCOPES[k])
    {
      for i := 0 to |SCOPES|
        invariant forall k :: 0 <= k < i ==> !Full(policy, recent, rows, q, SCOPES[k])
      {
        refusal := CheckCapacity(recent, q, SCOPES[i]);
        if refusal.Some? {
          assert FirstFull(policy, recent, rows, q, i);
          return;
        }
      }
      forall s ensures !Full(policy, recent, rows, q, s) {
        assert s == SCOPES[0] || s == SCOPES[1] || s == SCOPES[2] || s == SCOPES[3] || s == SCOPES[4];
      }
      return None;
    }

    /**
     `enqueueText`: refused by the first full scope, or for waiting too long behind the queue;
     otherwise appended after every active row, at the position it reports.
     */
    method EnqueueText(recent: Recent, q: Request) returns (answer: Answer)
      modifies this
      ensures answer.Accepted? ==> |rows| > 0
      ensures Answers(policy, recent, old(rows), q, if answer.Accepted? then rows[..|rows| - 1] else rows, answer, rows)
    {
      rows := Filter(Retained(policy, q.now), rows);
      ghost var kept := rows;
      KeptIff(policy, q.now, old(rows));
      var refusal := CheckScopes(recent, q);
      if refusal.Some? {
        RefusalAnswers(policy, recent, rows, q, refusal.value);
        return refusal.value;
      }
      answer := AppendRow(q);
      if answer.Accepted? {
        AcceptedAnswers(policy, recent, old(rows), kept, q, answer);
        assert rows[..|rows| - 1] == kept;
      } else {
        TooFarAnswers(policy, recent, old(rows), kept, q, answer);
      }
    }

    /** The second half of `enqueueText`, after the capacity checks. */
    method AppendRow(q: Request) returns (answer: Answer)
      modifies this
      ensures !answer.CapacityReached? && (answer.Accepted? <==> !TooFar(policy, old(rows), q))
      ensures answer.WaitTooLong? ==>
                && rows == old(rows)
                && answer.tailAt == Tail(IsActive(), rows).value && answer.requestedAt == Schedule(policy, rows, q)
                && answer.retryAfterSeconds == Max(1, CeilDiv(answer.requestedAt - answer.tailAt, 1000))
      ensures answer.Accepted? ==>
                && answer.row == NewRow(policy, old(rows), q) && rows == old(rows) + [answer.row]
                && answer.position == Count(IsActive(), rows)
                && answer.retryAfterSeconds == Max(1, CeilDiv(answer.row.scheduledAt - q.now, 1000))
    {
      var requestedSchedule := q.now + Max(1, q.retryAfterSeconds) * 1000;
      var tail := Tail(IsActive(), rows);
      var scheduledAt := requestedSchedule;
      if tail.Some? {
        scheduledAt := Max(requestedSchedule, tail.value + Max(1, policy.minimumIntervalMs));
        var gapMs := scheduledAt - tail.value;
        if gapMs > policy.maxTailGapMs {
          return WaitTooLong(Max(1, CeilDiv(gapMs, 1000)), tail.value, scheduledAt);
        }
      }
      var row := Row(q.id, q.recipient, q.reason, Pending, 0, q.now, scheduledAt, None);
      PositionIsActiveCount(policy, rows, q);
      rows := rows + [row];
      var position := Count(ScheduledBy(scheduledAt), rows);
      return Accepted(row, if position == 0 then 1 else position, Max(1, CeilDiv(scheduledAt - q.now, 1000)));
    }

    /**
     `claimNext` when no other worker's statement comes in between: once the stale locks are
     freed, the earliest due row gets locked, and only that one.
     */
    method ClaimNext(now: int) returns (claimed: Option<Row>)
      requires UniqueIds(rows)
      modifies this
      ensures var swept := UpdateWhere(Stale(now), Free(), old(rows));
              match FirstDue(swept, now)
              case None => claimed.None? && rows == swept
              case Some(c) =>
                claimed == Some(Lock(now)(c)) && rows == UpdateWhere(PendingWithId(c.id), Lock(now), swept)
      ensures claimed.Some? ==> claimed.value in rows && UniqueIds(rows)
      ensures ClaimsFirst(old(rows), now, claimed, rows)
    {
      ghost var swept := UpdateWhere(Stale(now), Free(), rows);
      if FirstDue(swept, now).Some? {
        FirstClaimed(rows, now, FirstDue(swept, now).value);
      } else {
        NothingDue(rows, now);
      }
      SweepKeepsIds(rows, now);
      rows := UpdateWhere(Stale(now), Free(), rows);
      var candidate := FirstDue(rows, now);
      if candidate.None? { return None; }
      var id := candidate.value.id;
      var hits := Count(PendingWithId(id), rows);
      OnePending(rows, candidate.value);
      ClaimLocks(rows, candidate.value, now);
      rows := UpdateWhere(PendingWithId(id), Lock(now), rows);
      if hits != 1 { return None; }
      var k :| 0 <= k < |rows| && rows[k].id == id;
      claimed := Some(rows[k]);
    }

    /** `rescheduleOrReject`. */
    method RescheduleOrReject(id: string, reason: string, retryAfterSeconds: int, now: int)
      returns (found: bool, rescheduled: bool)
      modifies this
      ensures found == HasId(old(rows), id)
      ensures rescheduled == (found && RescheduleFits(old(rows), now, retryAfterSeconds, policy.maxTailGapMs))
      ensures rescheduled ==>
                && rows == UpdateWhere(WithId(id), Postpone(reason, Requested(now, retryAfterSeconds)), old(rows))
                && Requested(now, retryAfterSeconds) <= Anchor(old(rows), now) + policy.maxTailGapMs
      ensures found && !rescheduled ==>
                rows == UpdateWhere(WithId(id), Fail(Some("outbound_queue_wait_too_long")), old(rows))
      ensures !found ==> rows == old(rows)
      ensures Reschedules(old(rows), id, reason, retryAfterSeconds, now, policy.maxTailGapMs, found, rescheduled, rows)
    {
      RescheduleMeans(rows, id, reason, retryAfterSeconds, now, policy.maxTailGapMs,
                      if !HasId(rows, id) then rows
                      else if RescheduleFits(rows, now, retryAfterSeconds, policy.maxTailGapMs) then
                        UpdateWhere(WithId(id), Postpone(reason, Requested(now, retryAfterSeconds)), rows)
                      else UpdateWhere(WithId(id), Fail(Some("outbound_queue_wait_too_long")), rows));
      var requestedSendAt := now + Max(1, retryAfterSeconds) * 1000;
      found := HasId(rows, id);
      if !found { return false, false; }
      var tail := Tail((r: Row) => r.status.Pending?, rows);
      var anchor := if tail.Some? && tail.value > now then tail.value else now;
      assert anchor == Anchor(rows, now);
      if requestedSendAt - anchor > policy.maxTailGapMs {
        rows := UpdateWhere(WithId(id), Fail(Some("outbound_queue_wait_too_long")), rows);
        return true, false;
      }
      rows := UpdateWhere(WithId(id), Postpone(reason, requestedSendAt), rows);
      return true, true;
    }

    /** `complete`, `clear` and the retention delete remove rows. */
    method Complete(id: string)
      modifies this
      ensures rows == Filter((r: Row) => r.id != id, old(rows))
      ensures forall r :: r in rows <==> r in old(rows) && r.id != id
    {
      FilterMembers((r: Row) => r.id != id, rows);
      rows := Filter((r: Row) => r.id != id, rows);
    }
  }
}
