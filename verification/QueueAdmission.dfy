/**
 The outbound queue in plain terms: when a message is admitted and for when it is scheduled, which
 row a worker gets, how long it may keep it, and how far a row can be postponed.
 */
module QueueAdmission {
  import opened Numbers
  import opened Strings
  import opened Sequences
  import opened OutboundQueue

  // ---------------------------------------------------------------- admission

  /** Rows that wait or are being sent. */
  function Waiting(): Row -> bool {
    (r: Row) => !r.status.Failed?
  }

  function WaitingFor(recipient: string): Row -> bool {
    (r: Row) => !r.status.Failed? && r.recipient == recipient
  }

  /** The other recipients that wait for the outreach quota. */
  function OthersWaiting(rows: seq<Row>, recipient: string): set<string> {
    (set r | r in rows && !r.status.Failed? && r.reason == "outreach_recipient_limit" :: r.recipient) - {recipient}
  }

  /** What was sent and what waits leave room for one more message. */
  predicate HasRoom(p: Policy, recent: Recent, rows: seq<Row>, q: Request, s: Scope) {
    match s
    case InstanceMinute => |recent.instanceMinute| + Count(Waiting(), rows) < p.instancePerMinute
    case InstanceDay => |recent.instanceDay| + Count(Waiting(), rows) < p.instancePerDay
    case RecipientMinute => |recent.recipientMinute| + Count(WaitingFor(q.recipient), rows) < p.recipientPerMinute
    case RecipientDay => |recent.recipientDay| + Count(WaitingFor(q.recipient), rows) < p.recipientPerDay
    case OutreachDay =>
      q.reason == "outreach_recipient_limit" && p.outreachEnabled ==>
        |recent.outreachDay| + |OthersWaiting(rows, q.recipient)| < p.outreachPerDay
  }

  lemma SameRows(f: Row -> bool, g: Row -> bool, rows: seq<Row>)
    requires forall r :: f(r) <==> g(r)
    ensures Count(f, rows) == Count(g, rows)
  {
    CountBound(f, g, rows);
    CountBound(g, f, rows);
  }

  lemma WaitingCounts(rows: seq<Row>, recipient: string)
    ensures Count(IsActive(), rows) == Count(Waiting(), rows)
    ensures Count(ActiveFor(recipient), rows) == Count(WaitingFor(recipient), rows)
    ensures OutreachRecipients(rows, recipient) == OthersWaiting(rows, recipient)
  {
    SameRows(IsActive(), Waiting(), rows);
    SameRows(ActiveFor(recipient), WaitingFor(recipient), rows);
  }

  lemma FullIff(p: Policy, recent: Recent, rows: seq<Row>, q: Request, s: Scope)
    ensures Full(p, recent, rows, q, s) <==> !HasRoom(p, recent, rows, q, s)
  {
    WaitingCounts(rows, q.recipient);
  }

  /** The figures of a refusal: what was sent, what waits, and a limit that leaves no room. */
  ghost predicate Explains(p: Policy, recent: Recent, rows: seq<Row>, q: Request, a: Answer)
    requires a.CapacityReached?
  {
    && a.sent + a.queued >= a.limit
    && match a.scope
       case InstanceMinute =>
         a.limit == p.instancePerMinute && a.sent == |recent.instanceMinute| && a.queued == Count(Waiting(), rows)
         && Frees(recent.instanceMinute, 60_000, q.now, a.retryAfterSeconds)
       case InstanceDay =>
         a.limit == p.instancePerDay && a.sent == |recent.instanceDay| && a.queued == Count(Waiting(), rows)
         && Frees(recent.instanceDay, 86_400_000, q.now, a.retryAfterSeconds)
         && HasRoom(p, recent, rows, q, InstanceMinute)
       case RecipientMinute =>
         a.limit == p.recipientPerMinute && a.sent == |recent.recipientMinute|
         && a.queued == Count(WaitingFor(q.recipient), rows)
         && Frees(recent.recipientMinute, 60_000, q.now, a.retryAfterSeconds)
         && HasRoom(p, recent, rows, q, InstanceMinute) && HasRoom(p, recent, rows, q, InstanceDay)
       case RecipientDay =>
         a.limit == p.recipientPerDay && a.sent == |recent.recipientDay|
         && a.queued == Count(WaitingFor(q.recipient), rows)
         && Frees(recent.recipientDay, 86_400_000, q.now, a.retryAfterSeconds)
         && HasRoom(p, recent, rows, q, InstanceMinute) && HasRoom(p, recent, rows, q, InstanceDay)
         && HasRoom(p, recent, rows, q, RecipientMinute)
       case OutreachDay =>
         a.limit == p.outreachPerDay && a.sent == |recent.outreachDay|
         && a.queued == |OthersWaiting(rows, q.recipient)|
         && Frees(recent.outreachDay, 86_400_000, q.now, a.retryAfterSeconds)
         && HasRoom(p, recent, rows, q, InstanceMinute) && HasRoom(p, recent, rows, q, InstanceDay)
         && HasRoom(p, recent, rows, q, RecipientMinute) && HasRoom(p, recent, rows, q, RecipientDay)
  }

  /** The least number of seconds, at least one, after which a time has come. */
  predicate SecondsUntil(time: int, now: int, seconds: int) {
    seconds >= 1 && now + 1000 * seconds >= time && (seconds == 1 || now + 1000 * (seconds - 1) < time)
  }

  /** The wait until the oldest message sent is a window old, or a whole window if none was sent. */
  predicate Frees(sent: seq<int>, windowMs: int, now: int, seconds: int) {
    if sent == [] then SecondsUntil(now + windowMs, now, seconds) else SecondsUntil(sent[0] + windowMs, now, seconds)
  }

  lemma RoundedUp(time: int, now: int)
    ensures SecondsUntil(time, now, Max(1, CeilDiv(time - now, 1000)))
  {
  }

  /** A refusal names the first limit that leaves no room. */
  lemma RefusalExplains(p: Policy, recent: Recent, rows: seq<Row>, q: Request, k: nat)
    requires FirstFull(p, recent, rows, q, k)
    ensures Explains(p, recent, rows, q, Refusal(p, recent, rows, q, SCOPES[k]))
  {
    WaitingCounts(rows, q.recipient);
    var s := SCOPES[k];
    FullIff(p, recent, rows, q, s);
    var windowMs := if s.InstanceMinute? || s.RecipientMinute? then 60_000 else 86_400_000;
    if SentIn(recent, s) != [] { RoundedUp(SentIn(recent, s)[0] + windowMs, q.now); }
    forall j | 0 <= j < k ensures HasRoom(p, recent, rows, q, SCOPES[j]) { FullIff(p, recent, rows, q, SCOPES[j]); }
    assert SCOPES[0] == InstanceMinute && SCOPES[1] == InstanceDay && SCOPES[2] == RecipientMinute;
    assert SCOPES[3] == RecipientDay && SCOPES[4] == OutreachDay;
  }

  // ---------------------------------------------------------------- schedules

  /** Late enough: at least a second and as long as asked for from now, and the interval after every row. */
  predicate LateEnough(p: Policy, rows: seq<Row>, q: Request, at: int) {
    && at >= q.now + 1000 && at >= q.now + 1000 * q.retryAfterSeconds
    && forall r :: r in rows && !r.status.Failed? ==>
         at >= r.scheduledAt + 1 && at >= r.scheduledAt + p.minimumIntervalMs
  }

  ghost predicate Earliest(p: Policy, rows: seq<Row>, q: Request, at: int) {
    LateEnough(p, rows, q, at) && forall t :: LateEnough(p, rows, q, t) ==> at <= t
  }

  /** A message is scheduled for the first moment that is late enough. */
  lemma ScheduledEarliest(p: Policy, rows: seq<Row>, q: Request)
    ensures Earliest(p, rows, q, NewRow(p, rows, q).scheduledAt)
  {
    var at := NewRow(p, rows, q).scheduledAt;
    forall t | LateEnough(p, rows, q, t) ensures at <= t {
      var tail := Tail(IsActive(), rows);
      if tail.Some? {
        var r :| r in rows && IsActive()(r) && r.scheduledAt == tail.value;
      }
    }
  }

  /** It is refused for waiting too long exactly if that moment is beyond the horizon after every row. */
  lemma TooFarIff(p: Policy, rows: seq<Row>, q: Request, at: int)
    requires Earliest(p, rows, q, at)
    ensures TooFar(p, rows, q)
       <==> && (exists r :: r in rows && !r.status.Failed?)
            && forall r :: r in rows && !r.status.Failed? ==> at > r.scheduledAt + p.maxTailGapMs
  {
    ScheduledEarliest(p, rows, q);
    var tail := Tail(IsActive(), rows);
    if tail.Some? {
      var r :| r in rows && IsActive()(r) && r.scheduledAt == tail.value;
    }
    forall r | r in rows && !r.status.Failed? ensures IsActive()(r) {}
  }

  // ---------------------------------------------------------------- the answer to a message

  /** An old failed row, which the clean-up before an admission deletes. */
  predicate Expired(p: Policy, now: int, r: Row) {
    r.status.Failed? && r.requestedAt < now - p.retentionDays * 86_400_000
  }

  /** The answer to a message, given the rows that the clean-up keeps, and the rows there are in the end. */
  ghost predicate Answers(p: Policy, recent: Recent, was: seq<Row>, q: Request, kept: seq<Row>, a: Answer,
                          rows: seq<Row>)
  {
    && (forall r :: r in kept <==> r in was && !Expired(p, q.now, r))
    && match a
       case CapacityReached(_, _, _, _, _) => rows == kept && Explains(p, recent, kept, q, a)
       case WaitTooLong(seconds, tailAt, requestedAt) =>
         && rows == kept && Earliest(p, kept, q, requestedAt) && (forall s :: HasRoom(p, recent, kept, q, s))
         && (exists r :: r in kept && !r.status.Failed? && r.scheduledAt == tailAt)
         && (forall r :: r in kept && !r.status.Failed? ==> r.scheduledAt <= tailAt)
         && requestedAt > tailAt + p.maxTailGapMs && SecondsUntil(requestedAt, tailAt, seconds)
       case Accepted(row, position, seconds) =>
         && rows == kept + [row] && row == Row(q.id, q.recipient, q.reason, Pending, 0, q.now, row.scheduledAt, None)
         && (forall s :: HasRoom(p, recent, kept, q, s))
         && Earliest(p, kept, q, row.scheduledAt)
         && ((forall r :: r in kept ==> r.status.Failed?)
             || exists r :: r in kept && !r.status.Failed? && row.scheduledAt <= r.scheduledAt + p.maxTailGapMs)
         && position == Count(Waiting(), rows) && SecondsUntil(row.scheduledAt, q.now, seconds)
  }

  lemma KeptIff(p: Policy, now: int, was: seq<Row>)
    ensures forall r :: r in Filter(Retained(p, now), was) <==> r in was && !Expired(p, now, r)
  {
    FilterMembers(Retained(p, now), was);
  }

  lemma RefusalAnswers(p: Policy, recent: Recent, rows: seq<Row>, q: Request, a: Answer)
    requires exists k: nat :: FirstFull(p, recent, rows, q, k) && a == Refusal(p, recent, rows, q, SCOPES[k])
    ensures a.CapacityReached? && Explains(p, recent, rows, q, a)
  {
    var k: nat :| FirstFull(p, recent, rows, q, k) && a == Refusal(p, recent, rows, q, SCOPES[k]);
    RefusalExplains(p, recent, rows, q, k);
  }

  lemma RoomForAll(p: Policy, recent: Recent, rows: seq<Row>, q: Request)
    requires forall s :: !Full(p, recent, rows, q, s)
    ensures forall s :: HasRoom(p, recent, rows, q, s)
  {
    forall s ensures HasRoom(p, recent, rows, q, s) { FullIff(p, recent, rows, q, s); }
  }

  lemma ScheduleAnswers(p: Policy, rows: seq<Row>, q: Request)
    ensures var at, tail := Schedule(p, rows, q), Tail(IsActive(), rows);
            && Earliest(p, rows, q, at) && SecondsUntil(at, q.now, Max(1, CeilDiv(at - q.now, 1000)))
            && (tail.Some? ==>
                  && SecondsUntil(at, tail.value, Max(1, CeilDiv(at - tail.value, 1000)))
                  && (exists r :: r in rows && !r.status.Failed? && r.scheduledAt == tail.value)
                  && (forall r :: r in rows && !r.status.Failed? ==> r.scheduledAt <= tail.value))
            && (tail.None? ==> forall r :: r in rows ==> r.status.Failed?)
            && (TooFar(p, rows, q) <==> tail.Some? && at > tail.value + p.maxTailGapMs)
  {
    ScheduledEarliest(p, rows, q);
    var at, tail := Schedule(p, rows, q), Tail(IsActive(), rows);
    RoundedUp(at, q.now);
    forall r | r in rows ensures IsActive()(r) <==> !r.status.Failed? {}
    if tail.Some? {
      RoundedUp(at, tail.value);
      var r :| r in rows && IsActive()(r) && r.scheduledAt == tail.value;
    }
  }

  lemma AcceptedAnswers(p: Policy, recent: Recent, was: seq<Row>, kept: seq<Row>, q: Request, a: Answer)
    requires kept == Filter(Retained(p, q.now), was) && a.Accepted? && a.row == NewRow(p, kept, q)
    requires (forall s :: !Full(p, recent, kept, q, s)) && !TooFar(p, kept, q)
    requires a.position == Count(IsActive(), kept + [a.row])
    requires a.retryAfterSeconds == Max(1, CeilDiv(a.row.scheduledAt - q.now, 1000))
    ensures Answers(p, recent, was, q, kept, a, kept + [a.row])
  {
    KeptIff(p, q.now, was);
    RoomForAll(p, recent, kept, q);
    ScheduleAnswers(p, kept, q);
    WaitingCounts(kept + [a.row], q.recipient);
  }

  lemma TooFarAnswers(p: Policy, recent: Recent, was: seq<Row>, kept: seq<Row>, q: Request, a: Answer)
    requires kept == Filter(Retained(p, q.now), was) && a.WaitTooLong?
    requires (forall s :: !Full(p, recent, kept, q, s)) && TooFar(p, kept, q)
    requires a.tailAt == Tail(IsActive(), kept).value && a.requestedAt == Schedule(p, kept, q)
    requires a.retryAfterSeconds == Max(1, CeilDiv(a.requestedAt - a.tailAt, 1000))
    ensures Answers(p, recent, was, q, kept, a, kept)
  {
    KeptIff(p, q.now, was);
    RoomForAll(p, recent, kept, q);
    ScheduleAnswers(p, kept, q);
  }

  // ---------------------------------------------------------------- claims

  /** Open to workers: pending, or locked for more than 300 seconds. */
  predicate Open(r: Row, now: int) {
    r.status.Pending? || (r.status.Processing? && r.lockedAt.Some? && r.lockedAt.value < now - 300_000)
  }

  /** No open row that is due comes before this one, by schedule and then by the time of request. */
  ghost predicate FirstInLine(rows: seq<Row>, now: int, c: Row) {
    forall r :: r in rows && Open(r, now) && r.scheduledAt <= now ==>
      c.scheduledAt < r.scheduledAt || (c.scheduledAt == r.scheduledAt && c.requestedAt <= r.requestedAt)
  }

  /** What a claim does to the row at k: it frees stale locks, and locks the row with the claimed id. */
  predicate ClaimedAt(was: Row, now: int, claimed: Option<Row>, then': Row) {
    if claimed.Some? && was.id == claimed.value.id then
      then' == was.(status := Processing, lockedAt := Some(now), attempts := was.attempts + 1)
    else if was.status.Processing? && Open(was, now) then then' == was.(status := Pending, lockedAt := None)
    else then' == was
  }

  ghost predicate ClaimsFirst(was: seq<Row>, now: int, claimed: Option<Row>, rows: seq<Row>) {
    && |rows| == |was| && (forall k :: 0 <= k < |was| ==> ClaimedAt(was[k], now, claimed, rows[k]))
    && (claimed.None? ==> forall r :: r in was && Open(r, now) ==> r.scheduledAt > now)
    && (claimed.Some? ==>
          && claimed.value in rows && claimed.value.scheduledAt <= now && FirstInLine(was, now, claimed.value)
          && exists k :: 0 <= k < |was| && was[k].id == claimed.value.id && Open(was[k], now))
  }

  lemma SweptAt(was: seq<Row>, now: int, k: nat)
    requires k < |was|
    ensures var swept := UpdateWhere(Stale(now), Free(), was);
            && ClaimedAt(was[k], now, None, swept[k])
            && (Due(swept[k], now) <==> Open(was[k], now) && was[k].scheduledAt <= now)
  {
  }

  /** Undisturbed, a worker that finds nothing due gets nothing. */
  lemma NothingDue(was: seq<Row>, now: int)
    requires FirstDue(UpdateWhere(Stale(now), Free(), was), now).None?
    ensures ClaimsFirst(was, now, None, UpdateWhere(Stale(now), Free(), was))
  {
    var swept := UpdateWhere(Stale(now), Free(), was);
    forall k | 0 <= k < |was| ensures ClaimedAt(was[k], now, None, swept[k]) { SweptAt(was, now, k); }
    forall r | r in was && Open(r, now) ensures r.scheduledAt > now {
      var k :| 0 <= k < |was| && was[k] == r;
      SweptAt(was, now, k);
      assert swept[k] in swept;
    }
  }

  /** And otherwise the first in line. */
  lemma FirstClaimed(was: seq<Row>, now: int, c: Row)
    requires UniqueIds(was) && FirstDue(UpdateWhere(Stale(now), Free(), was), now) == Some(c)
    ensures ClaimsFirst(was, now, Some(Lock(now)(c)),
                        UpdateWhere(PendingWithId(c.id), Lock(now), UpdateWhere(Stale(now), Free(), was)))
  {
    var swept := UpdateWhere(Stale(now), Free(), was);
    var rows, claimed := UpdateWhere(PendingWithId(c.id), Lock(now), swept), Lock(now)(c);
    var j: nat :| j < |swept| && swept[j] == c;
    SweptAt(was, now, j);
    forall k | 0 <= k < |was| ensures ClaimedAt(was[k], now, Some(claimed), rows[k]) {
      SweptAt(was, now, k);
      assert k != j ==> was[k].id != was[j].id;
    }
    assert rows[j] == claimed && claimed in rows;
    forall r | r in was && Open(r, now) && r.scheduledAt <= now ensures !Earlier(r, c) {
      var k :| 0 <= k < |was| && was[k] == r;
      SweptAt(was, now, k);
      assert swept[k] in swept;
    }
    assert was[j].id == claimed.id && Open(was[j], now);
  }

  /** A row is claimed again only after a reschedule, or when its lock was more than 300 seconds old. */
  lemma LeaseOf300Seconds(states: seq<State>, statements: seq<Statement>, k: nat, i: nat, j: nat)
    requires Behaviour(states, statements) && k < |states| && i < j < |states[k].history|
    requires var h := states[k].history; h[i].Claimed? && h[j].Claimed? && h[i].id == h[j].id
    ensures var h := states[k].history;
            exists m :: i < m < j && (h[m] == Rescheduled(h[i].id) || (h[m].Swept? && h[m].at > h[i].at + 300_000))
  {
    ClaimProtocol(states, statements, k);
    var h := states[k].history;
    var m :| i < m < j && Releases(h[m], h[i].id, h[i].at);
  }

  /** The reset frees the rows locked for more than 300 seconds, and touches no other. */
  lemma ResetFrees(s: State, now: int, k: nat)
    requires k < |s.rows|
    ensures var r, r' := s.rows[k], Apply(s, ResetStale(now)).rows[k];
            r' == if r.status.Processing? && r.lockedAt.Some? && r.lockedAt.value + 300_000 < now
                  then r.(status := Pending, lockedAt := None) else r
  {
  }

  // ---------------------------------------------------------------- reschedules

  /** A row can be postponed to within the horizon of now, or of some pending row. */
  predicate WithinReach(rows: seq<Row>, now: int, at: int, maxTailGapMs: nat) {
    at <= now + maxTailGapMs || exists r :: r in rows && r.status.Pending? && at <= r.scheduledAt + maxTailGapMs
  }

  lemma FitsIff(rows: seq<Row>, now: int, seconds: int, maxTailGapMs: nat)
    ensures RescheduleFits(rows, now, seconds, maxTailGapMs)
       <==> WithinReach(rows, now, if seconds > 1 then now + 1000 * seconds else now + 1000, maxTailGapMs)
  {
    var f := (r: Row) => r.status.Pending?;
    var tail := Tail(f, rows);
    if tail.Some? {
      var r :| r in rows && f(r) && r.scheduledAt == tail.value;
    }
    forall r | r in rows && r.status.Pending? ensures f(r) {}
  }

  /** What becomes of each row: postponed, or failed if it cannot be. */
  predicate RescheduledAt(was: Row, id: string, reason: string, at: int, fits: bool, now: Row) {
    if was.id != id then now == was
    else if fits then now == was.(status := Pending, reason := reason, scheduledAt := at, lockedAt := None)
    else now == was.(status := Failed, reason := "outbound_queue_wait_too_long", lockedAt := None)
  }

  /** A reschedule: found by id, postponed if within reach, and failed otherwise. */
  ghost predicate Reschedules(was: seq<Row>, id: string, reason: string, seconds: int, now: int, maxTailGapMs: nat,
                              found: bool, rescheduled: bool, rows: seq<Row>)
  {
    var at := if seconds > 1 then now + 1000 * seconds else now + 1000;
    && (found <==> exists r :: r in was && r.id == id)
    && (rescheduled <==> found && WithinReach(was, now, at, maxTailGapMs))
    && |rows| == |was|
    && forall k :: 0 <= k < |rows| ==> RescheduledAt(was[k], id, reason, at, rescheduled, rows[k])
  }

  lemma UpdatedRows(was: seq<Row>, id: string, reason: string, at: int)
    ensures var rows := UpdateWhere(WithId(id), Postpone(reason, at), was);
            forall k :: 0 <= k < |was| ==> RescheduledAt(was[k], id, reason, at, true, rows[k])
    ensures var rows := UpdateWhere(WithId(id), Fail(Some("outbound_queue_wait_too_long")), was);
            forall k :: 0 <= k < |was| ==> RescheduledAt(was[k], id, reason, at, false, rows[k])
    ensures !HasId(was, id) ==> forall k :: 0 <= k < |was| ==> RescheduledAt(was[k], id, reason, at, false, was[k])
  {
  }

  lemma RescheduleMeans(was: seq<Row>, id: string, reason: string, seconds: int, now: int, maxTailGapMs: nat,
                        rows: seq<Row>)
    requires rows == if !HasId(was, id) then was
                     else if RescheduleFits(was, now, seconds, maxTailGapMs) then
                       UpdateWhere(WithId(id), Postpone(reason, Requested(now, seconds)), was)
                     else UpdateWhere(WithId(id), Fail(Some("outbound_queue_wait_too_long")), was)
    ensures var found := HasId(was, id);
            Reschedules(was, id, reason, seconds, now, maxTailGapMs, found,
                        found && RescheduleFits(was, now, seconds, maxTailGapMs), rows)
  {
    FitsIff(was, now, seconds, maxTailGapMs);
    UpdatedRows(was, id, reason, Requested(now, seconds));
  }

  // ---------------------------------------------------------------- over runs

  /** In runs without reschedules, waiting rows are a millisecond and the minimum interval apart. */
  lemma WaitingRowsApart(p: Policy, states: seq<State>, statements: seq<Statement>, k: nat, i: nat, j: nat)
    requires Behaviour(states, statements) && k < |states|
    requires forall m :: 0 <= m < |statements| ==>
               !statements[m].Reschedule? && (statements[m].Enqueue? ==> statements[m].p == p)
    requires i < |states[k].rows| && j < |states[k].rows| && i != j
    requires !states[k].rows[i].status.Failed? && !states[k].rows[j].status.Failed?
    requires states[k].rows[i].scheduledAt <= states[k].rows[j].scheduledAt
    ensures states[k].rows[j].scheduledAt >= states[k].rows[i].scheduledAt + 1
    ensures states[k].rows[j].scheduledAt >= states[k].rows[i].scheduledAt + p.minimumIntervalMs
  {
    ActiveSpaced(p, states, statements, k);
  }

  /** Waiting rows stay within the four limits, while reschedules leave failed rows alone. */
  lemma WaitingWithinLimits(p: Policy, states: seq<State>, statements: seq<Statement>, k: nat, recipient: string)
    requires Behaviour(states, statements) && k < |states|
    requires forall i :: 0 <= i < |statements| ==> Disciplined(p, states[i], statements[i])
    ensures Count(Waiting(), states[k].rows) <= p.instancePerMinute
    ensures Count(Waiting(), states[k].rows) <= p.instancePerDay
    ensures Count(WaitingFor(recipient), states[k].rows) <= p.recipientPerMinute
    ensures Count(WaitingFor(recipient), states[k].rows) <= p.recipientPerDay
  {
    ActiveWithinLimits(p, states, statements, k);
    WaitingCounts(states[k].rows, recipient);
  }
}
