/**
 The durable outbound queue of one instance: admission and scheduling, and the claim protocol
 of its workers, whose database statements may interleave in any order.
 */
module OutboundQueue {
  import opened Numbers
  import opened Strings
  import opened Sequences

  const LEASE := 300_000

  datatype Policy = Policy(
    instancePerMinute: nat,
    instancePerDay: nat,
    recipientPerMinute: nat,
    recipientPerDay: nat,
    minimumIntervalMs: nat,
    outreachEnabled: bool,
    outreachPerDay: nat,
    retentionDays: nat,
    maxTailGapMs: nat)

  datatype Status = Pending | Processing | Failed

  datatype Row = Row(
    id: string,
    recipient: string,
    reason: string,
    status: Status,
    attempts: nat,
    requestedAt: int,
    scheduledAt: int,
    lockedAt: Option<int>)

  // ---------------------------------------------------------------- active rows

  predicate Active(r: Row) {
    r.status.Pending? || r.status.Processing?
  }

  function IsActive(): Row -> bool {
    (r: Row) => Active(r)
  }

  function ActiveFor(recipient: string): Row -> bool {
    (r: Row) => Active(r) && r.recipient == recipient
  }

  /** The latest schedule among rows that satisfy f. */
  function Tail(f: Row -> bool, rows: seq<Row>): (t: Option<int>)
    ensures t.None? <==> forall r :: r in rows ==> !f(r)
    ensures t.Some? ==> exists r :: r in rows && f(r) && r.scheduledAt == t.value
    ensures t.Some? ==> forall r :: r in rows && f(r) ==> r.scheduledAt <= t.value
  {
    if rows == [] then None
    else
      var n := |rows| - 1;
      assert rows == rows[..n] + [rows[n]];
      var rest := Tail(f, rows[..n]);
      if !f(rows[n]) then rest
      else if rest.Some? && rest.value >= rows[n].scheduledAt then rest
      else Some(rows[n].scheduledAt)
  }

  function ScheduledBy(time: int): Row -> bool {
    (r: Row) => Active(r) && r.scheduledAt <= time
  }

  /** What the clean-up at the start of an enqueue keeps: all but old failed rows. */
  function Retained(p: Policy, now: int): Row -> bool {
    (r: Row) => !(r.status.Failed? && r.requestedAt < now - p.retentionDays * DAY)
  }

  // ---------------------------------------------------------------- admission

  /** The SENT audit rows and outreach reservations in each window, oldest first. */
  datatype Recent = Recent(
    instanceMinute: seq<int>,
    instanceDay: seq<int>,
    recipientMinute: seq<int>,
    recipientDay: seq<int>,
    outreachDay: seq<int>)

  datatype Scope = InstanceMinute | InstanceDay | RecipientMinute | RecipientDay | OutreachDay

  datatype Request = Request(id: string, recipient: string, reason: string, retryAfterSeconds: int, now: int)

  datatype Answer =
    | Accepted(row: Row, position: nat, retryAfterSeconds: int)
    | CapacityReached(scope: Scope, retryAfterSeconds: int, limit: nat, sent: nat, queued: nat)
    | WaitTooLong(retryAfterSeconds: int, tailAt: int, requestedAt: int)

  function Limit(p: Policy, s: Scope): nat {
    match s
    case InstanceMinute => p.instancePerMinute
    case InstanceDay => p.instancePerDay
    case RecipientMinute => p.recipientPerMinute
    case RecipientDay => p.recipientPerDay
    case OutreachDay => p.outreachPerDay
  }

  function SentIn(recent: Recent, s: Scope): seq<int> {
    match s
    case InstanceMinute => recent.instanceMinute
    case InstanceDay => recent.instanceDay
    case RecipientMinute => recent.recipientMinute
    case RecipientDay => recent.recipientDay
    case OutreachDay => recent.outreachDay
  }

  /** The recipients of active rows queued for the outreach quota, other than this one. */
  function OutreachRecipients(rows: seq<Row>, recipient: string): set<string> {
    set r | r in rows && Active(r) && r.reason == "outreach_recipient_limit" && r.recipient != recipient :: r.recipient
  }

  function QueuedIn(rows: seq<Row>, q: Request, s: Scope): nat {
    match s
    case InstanceMinute => Count(IsActive(), rows)
    case InstanceDay => Count(IsActive(), rows)
    case RecipientMinute => Count(ActiveFor(q.recipient), rows)
    case RecipientDay => Count(ActiveFor(q.recipient), rows)
    case OutreachDay => |OutreachRecipients(rows, q.recipient)|
  }

  predicate Applies(p: Policy, q: Request, s: Scope) {
    s.OutreachDay? ==> q.reason == "outreach_recipient_limit" && p.outreachEnabled
  }

  /** A scope whose sent and queued messages already reach its limit. */
  predicate Full(p: Policy, recent: Recent, rows: seq<Row>, q: Request, s: Scope) {
    Applies(p, q, s) && |SentIn(recent, s)| + QueuedIn(rows, q, s) >= Limit(p, s)
  }

  function Gap(p: Policy): int {
    Max(1, p.minimumIntervalMs)
  }

  function Requested(now: int, retryAfterSeconds: int): int {
    now + Max(1, retryAfterSeconds) * 1000
  }

  function Schedule(p: Policy, rows: seq<Row>, q: Request): int {
    var requested := Requested(q.now, q.retryAfterSeconds);
    match Tail(IsActive(), rows)
    case None => requested
    case Some(t) => Max(requested, t + Gap(p))
  }

  /** The new row would be scheduled too far behind the rows already waiting. */
  predicate TooFar(p: Policy, rows: seq<Row>, q: Request) {
    var tail := Tail(IsActive(), rows);
    tail.Some? && Schedule(p, rows, q) - tail.value > p.maxTailGapMs
  }

  function NewRow(p: Policy, rows: seq<Row>, q: Request): Row {
    Row(q.id, q.recipient, q.reason, Pending, 0, q.now, Schedule(p, rows, q), None)
  }

  function CapacityRetry(sent: seq<int>, s: Scope, now: int): int {
    var windowMs := if s.InstanceMinute? || s.RecipientMinute? then MINUTE else DAY;
    if sent == [] then CeilDiv(windowMs, 1000) else Max(1, CeilDiv(sent[0] + windowMs - now, 1000))
  }

  const SCOPES := [InstanceMinute, InstanceDay, RecipientMinute, RecipientDay, OutreachDay]

  /** Number k is the first full scope, in the order of the checks. */
  predicate FirstFull(p: Policy, recent: Recent, rows: seq<Row>, q: Request, k: nat) {
    && k < |SCOPES| && Full(p, recent, rows, q, SCOPES[k])
    && forall j :: 0 <= j < k ==> !Full(p, recent, rows, q, SCOPES[j])
  }

  function Refusal(p: Policy, recent: Recent, rows: seq<Row>, q: Request, s: Scope): Answer {
    CapacityReached(s, CapacityRetry(SentIn(recent, s), s, q.now), Limit(p, s), |SentIn(recent, s)|,
                    QueuedIn(rows, q, s))
  }

  // ---------------------------------------------------------------- limits and spacing of active rows

  ghost predicate WithinLimits(p: Policy, rows: seq<Row>) {
    && Count(IsActive(), rows) <= p.instancePerMinute && Count(IsActive(), rows) <= p.instancePerDay
    && forall recipient :: Count(ActiveFor(recipient), rows) <= p.recipientPerMinute
                           && Count(ActiveFor(recipient), rows) <= p.recipientPerDay
  }

  ghost predicate Spaced(p: Policy, rows: seq<Row>) {
    forall i, j :: 0 <= i < |rows| && 0 <= j < |rows| && i != j && Active(rows[i]) && Active(rows[j]) ==>
      rows[i].scheduledAt + Gap(p) <= rows[j].scheduledAt || rows[j].scheduledAt + Gap(p) <= rows[i].scheduledAt
  }

  /** Where an accepted message lands: after every active row, within the horizon of a non-empty queue. */
  lemma LandsAfterAll(p: Policy, rows: seq<Row>, q: Request)
    requires !TooFar(p, rows, q)
    ensures var at := Schedule(p, rows, q);
            && at >= Requested(q.now, q.retryAfterSeconds)
            && (forall r :: r in rows && Active(r) ==> r.scheduledAt + Gap(p) <= at)
            && (forall t :: Tail(IsActive(), rows) == Some(t) ==> at <= t + p.maxTailGapMs)
  {
  }

  /** The position returned, counted over schedules, is the number of active rows. */
  lemma PositionIsActiveCount(p: Policy, rows: seq<Row>, q: Request)
    ensures var rows' := rows + [NewRow(p, rows, q)];
            && Count(ScheduledBy(Schedule(p, rows, q)), rows') == Count(IsActive(), rows')
            && Count(IsActive(), rows') == Count(IsActive(), rows) + 1
  {
    var row := NewRow(p, rows, q);
    var rows' := rows + [row];
    CountAppend(IsActive(), rows, row);
    forall r | r in rows' && Active(r) ensures r.scheduledAt <= row.scheduledAt {}
    CountBound(IsActive(), ScheduledBy(row.scheduledAt), rows');
    CountBound(ScheduledBy(row.scheduledAt), IsActive(), rows');
  }

  lemma EnqueueCounts(p: Policy, rows: seq<Row>, q: Request, recipient: string)
    ensures Count(IsActive(), rows + [NewRow(p, rows, q)]) == Count(IsActive(), rows) + 1
    ensures Count(ActiveFor(recipient), rows + [NewRow(p, rows, q)])
         == Count(ActiveFor(recipient), rows) + if recipient == q.recipient then 1 else 0
  {
    CountAppend(IsActive(), rows, NewRow(p, rows, q));
    CountAppend(ActiveFor(recipient), rows, NewRow(p, rows, q));
  }

  /** Just after an accepted message, sent and queued messages still fit each of the four limits. */
  lemma EnqueueFits(p: Policy, recent: Recent, rows: seq<Row>, q: Request, s: Scope)
    requires !Full(p, recent, rows, q, s) && !s.OutreachDay?
    ensures |SentIn(recent, s)| + QueuedIn(rows + [NewRow(p, rows, q)], q, s) <= Limit(p, s)
  {
    EnqueueCounts(p, rows, q, q.recipient);
  }

  lemma EnqueueKeepsLimits(p: Policy, recent: Recent, rows: seq<Row>, q: Request)
    requires forall s :: !Full(p, recent, rows, q, s)
    requires WithinLimits(p, rows)
    ensures WithinLimits(p, rows + [NewRow(p, rows, q)])
  {
    EnqueueFits(p, recent, rows, q, InstanceMinute);
    EnqueueFits(p, recent, rows, q, InstanceDay);
    EnqueueFits(p, recent, rows, q, RecipientMinute);
    EnqueueFits(p, recent, rows, q, RecipientDay);
    forall recipient
      ensures Count(ActiveFor(recipient), rows + [NewRow(p, rows, q)]) <= p.recipientPerMinute
      ensures Count(ActiveFor(recipient), rows + [NewRow(p, rows, q)]) <= p.recipientPerDay
    {
      EnqueueCounts(p, rows, q, recipient);
    }
  }

  lemma EnqueueKeepsSpacing(p: Policy, rows: seq<Row>, q: Request)
    requires Spaced(p, rows)
    ensures Spaced(p, rows + [NewRow(p, rows, q)])
  {
    var at := Schedule(p, rows, q);
    forall i | 0 <= i < |rows| && Active(rows[i]) ensures rows[i].scheduledAt + Gap(p) <= at {
      assert rows[i] in rows && IsActive()(rows[i]);
    }
  }

  /**
   With an interval longer than the horizon, nothing is accepted behind another message; in
   general a message is accepted there exactly when its wait and the interval fit the horizon.
   */
  lemma NonEmptyQueueAcceptsIff(p: Policy, rows: seq<Row>, q: Request, tail: int)
    requires Tail(IsActive(), rows) == Some(tail)
    ensures !TooFar(p, rows, q)
       <==> Requested(q.now, q.retryAfterSeconds) - tail <= p.maxTailGapMs && Gap(p) <= p.maxTailGapMs
  {
  }

  // ---------------------------------------------------------------- claims: state and statements

  /** What a worker remembers between its select and its conditional update. */
  datatype Choice = Choice(id: string, now: int, since: nat)

  /** What has happened, in order of the database statements. */
  datatype Fact =
    | Enqueued(id: string)
    | Swept(freed: seq<Row>, at: int)
    | Claimed(id: string, at: int, scheduledAt: int, since: nat)
    | Rescheduled(id: string)
    | GivenUp(id: string)
    | Removed

  datatype State = State(rows: seq<Row>, choices: map<string, Choice>, history: seq<Fact>)

  const INITIAL := State([], map[], [])

  datatype Statement =
    | Enqueue(p: Policy, recent: Recent, q: Request)
    | ResetStale(now: int)
    | Select(worker: string, now: int)
    | Claim(worker: string)
    | Reschedule(id: string, reason: string, now: int, retryAfterSeconds: int, maxTailGapMs: nat)
    | GiveUp(id: string, newReason: Option<string>)
    | Delete(keep: Row -> bool)

  function Stale(now: int): Row -> bool {
    (r: Row) => r.status.Processing? && r.lockedAt.Some? && r.lockedAt.value < now - LEASE
  }

  function Free(): Row -> Row {
    (r: Row) => r.(status := Pending, lockedAt := None)
  }

  function PendingWithId(id: string): Row -> bool {
    (r: Row) => r.id == id && r.status.Pending?
  }

  function Lock(now: int): Row -> Row {
    (r: Row) => r.(status := Processing, lockedAt := Some(now), attempts := r.attempts + 1)
  }

  function WithId(id: string): Row -> bool {
    (r: Row) => r.id == id
  }

  function Postpone(reason: string, at: int): Row -> Row {
    (r: Row) => r.(status := Pending, reason := reason, scheduledAt := at, lockedAt := None)
  }

  function Fail(reason: Option<string>): Row -> Row {
    (r: Row) => r.(status := Failed, reason := if reason.Some? then reason.value else r.reason, lockedAt := None)
  }

  predicate Due(r: Row, now: int) {
    r.status.Pending? && r.scheduledAt <= now
  }

  predicate Earlier(a: Row, b: Row) {
    a.scheduledAt < b.scheduledAt || (a.scheduledAt == b.scheduledAt && a.requestedAt < b.requestedAt)
  }

  /** The candidate of `claimNext`: the earliest due row. */
  function FirstDue(rows: seq<Row>, now: int): (c: Option<Row>)
    ensures c.Some? ==> c.value in rows && Due(c.value, now)
    ensures c.Some? ==> forall r :: r in rows && Due(r, now) ==> !Earlier(r, c.value)
    ensures c.None? ==> forall r :: r in rows ==> !Due(r, now)
  {
    if rows == [] then None
    else
      var rest := FirstDue(rows[1..], now);
      assert rows == [rows[0]] + rows[1..];
      if Due(rows[0], now) && (rest.None? || !Earlier(rest.value, rows[0])) then Some(rows[0]) else rest
  }

  /** The anchor of a reschedule: the last pending row, or now. */
  function Anchor(rows: seq<Row>, now: int): int {
    match Tail((r: Row) => r.status.Pending?, rows)
    case None => now
    case Some(t) => Max(t, now)
  }

  predicate RescheduleFits(rows: seq<Row>, now: int, retryAfterSeconds: int, maxTailGapMs: nat) {
    Requested(now, retryAfterSeconds) - Anchor(rows, now) <= maxTailGapMs
  }

  predicate HasId(rows: seq<Row>, id: string) {
    exists r :: r in rows && r.id == id
  }

  function DoClaim(s: State, worker: string, c: Choice): State {
    var hits := Filter(PendingWithId(c.id), s.rows);
    if hits == [] then s.(choices := s.choices - {worker})
    else State(UpdateWhere(PendingWithId(c.id), Lock(c.now), s.rows), s.choices - {worker},
               s.history + [Claimed(c.id, c.now, hits[0].scheduledAt, c.since)])
  }

  function Apply(s: State, m: Statement): State {
    match m
    case Enqueue(p, recent, q) =>
      s.(rows := s.rows + [NewRow(p, s.rows, q)], history := s.history + [Enqueued(q.id)])
    case ResetStale(now) =>
      s.(rows := UpdateWhere(Stale(now), Free(), s.rows),
         history := s.history + [Swept(Filter(Stale(now), s.rows), now)])
    case Select(worker, now) =>
      (match FirstDue(s.rows, now)
       case None => s
       case Some(r) => s.(choices := s.choices[worker := Choice(r.id, now, |s.history|)]))
    case Claim(worker) => if worker in s.choices then DoClaim(s, worker, s.choices[worker]) else s
    case Reschedule(id, reason, now, retry, gap) =>
      if !HasId(s.rows, id) then s
      else if RescheduleFits(s.rows, now, retry, gap) then
        s.(rows := UpdateWhere(WithId(id), Postpone(reason, Requested(now, retry)), s.rows),
           history := s.history + [Rescheduled(id)])
      else
        s.(rows := UpdateWhere(WithId(id), Fail(Some("outbound_queue_wait_too_long")), s.rows),
           history := s.history + [GivenUp(id)])
    case GiveUp(id, reason) =>
      if !HasId(s.rows, id) then s
      else s.(rows := UpdateWhere(WithId(id), Fail(reason), s.rows), history := s.history + [GivenUp(id)])
    case Delete(keep) => s.(rows := Filter(keep, s.rows), history := s.history + [Removed])
  }

  /** Admission has accepted the request and its id is new. */
  ghost predicate Enabled(s: State, m: Statement) {
    m.Enqueue? ==>
      && (forall scope :: !Full(m.p, m.recent, s.rows, m.q, scope)) && !TooFar(m.p, s.rows, m.q)
      && forall f :: f in s.history ==> f != Enqueued(m.q.id)
  }

  ghost predicate Behaviour(states: seq<State>, statements: seq<Statement>) {
    && |states| == |statements| + 1 && states[0] == INITIAL
    && forall k :: 0 <= k < |statements| ==>
         Enabled(states[k], statements[k]) && states[k + 1] == Apply(states[k], statements[k])
  }

  // ---------------------------------------------------------------- claims: invariant

  /** A fact that makes a claimed row available again: a reschedule, or a lease that ran out. */
  ghost predicate Releases(f: Fact, id: string, stamp: int) {
    || f == Rescheduled(id)
    || (f.Swept? && stamp < f.at - LEASE && exists r :: r in f.freed && r.id == id && r.lockedAt == Some(stamp))
  }

  /** Between two claims of one row lies a release of the first claim's lock. */
  ghost predicate ClaimsSeparated(h: seq<Fact>) {
    forall i, j :: 0 <= i < j < |h| && h[i].Claimed? && h[j].Claimed? && h[i].id == h[j].id ==>
      exists k :: i < k < j && Releases(h[k], h[i].id, h[i].at)
  }

  /** A row that was given up is claimed only after a reschedule. */
  ghost predicate FailuresRespected(h: seq<Fact>) {
    forall i, j :: 0 <= i < j < |h| && h[i].GivenUp? && h[j].Claimed? && h[i].id == h[j].id ==>
      exists k :: i < k < j && h[k] == Rescheduled(h[i].id)
  }

  /** A claimed row was due for its worker, unless it was rescheduled after the worker selected it. */
  ghost predicate ClaimsDue(h: seq<Fact>) {
    forall j :: 0 <= j < |h| && h[j].Claimed? ==>
      && h[j].since <= j
      && (h[j].scheduledAt <= h[j].at || exists k :: h[j].since <= k < j && h[k] == Rescheduled(h[j].id))
  }

  ghost predicate UniqueIds(rows: seq<Row>) {
    forall i, j :: 0 <= i < j < |rows| ==> rows[i].id != rows[j].id
  }

  function ClaimCount(h: seq<Fact>, id: string): nat {
    if h == [] then 0
    else ClaimCount(h[..|h| - 1], id) + if h[|h| - 1].Claimed? && h[|h| - 1].id == id then 1 else 0
  }

  /** The claim at i has not been released since. */
  ghost predicate StillHeld(h: seq<Fact>, i: nat)
    requires i < |h| && h[i].Claimed?
  {
    forall k :: i < k < |h| ==> !Releases(h[k], h[i].id, h[i].at)
  }

  ghost predicate NotRescheduledSince(h: seq<Fact>, id: string, i: int) {
    forall k :: 0 <= k < |h| && i <= k ==> h[k] != Rescheduled(id)
  }

  ghost predicate RowInv(h: seq<Fact>, r: Row) {
    && (r.status.Processing? <==> r.lockedAt.Some?)
    && Enqueued(r.id) in h
    && r.attempts == ClaimCount(h, r.id)
    && (forall i :: 0 <= i < |h| && h[i].Claimed? && h[i].id == r.id && StillHeld(h, i) ==>
          !r.status.Pending? && (r.status.Processing? ==> r.lockedAt == Some(h[i].at)))
    && (forall i :: 0 <= i < |h| && h[i] == GivenUp(r.id) && NotRescheduledSince(h, r.id, i + 1) ==> r.status.Failed?)
  }

  ghost predicate ChoiceInv(h: seq<Fact>, rows: seq<Row>, c: Choice) {
    && c.since <= |h|
    && Enqueued(c.id) in h
    && forall r :: r in rows && r.id == c.id && NotRescheduledSince(h, c.id, c.since) ==> r.scheduledAt <= c.now
  }

  ghost predicate ClaimInv(s: State) {
    && UniqueIds(s.rows)
    && (forall r :: r in s.rows ==> RowInv(s.history, r))
    && (forall w :: w in s.choices ==> ChoiceInv(s.history, s.rows, s.choices[w]))
    && (forall f :: f in s.history && (f.Claimed? || f.GivenUp?) ==> Enqueued(f.id) in s.history)
  }

  ghost predicate HistoryOk(h: seq<Fact>) {
    ClaimsSeparated(h) && FailuresRespected(h) && ClaimsDue(h)
  }

  // ---------------------------------------------------------------- claims: one more fact

  lemma AppendFact(h: seq<Fact>, f: Fact)
    ensures forall i :: 0 <= i < |h| && h[i].Claimed? ==>
              (StillHeld(h + [f], i) <==> StillHeld(h, i) && !Releases(f, h[i].id, h[i].at))
    ensures forall id, i: int :: NotRescheduledSince(h + [f], id, i) ==> NotRescheduledSince(h, id, i)
    ensures forall id :: ClaimCount(h + [f], id) == ClaimCount(h, id) + if f.Claimed? && f.id == id then 1 else 0
    ensures forall g :: g in h ==> g in h + [f]
    ensures f in h + [f]
  {
    var h' := h + [f];
    assert h'[..|h|] == h;
    assert h'[|h|] == f;
    forall i | 0 <= i < |h| && h[i].Claimed?
      ensures StillHeld(h', i) <==> StillHeld(h, i) && !Releases(f, h[i].id, h[i].at)
    {
      if StillHeld(h', i) {
        forall k | i < k < |h| ensures !Releases(h[k], h[i].id, h[i].at) { assert h'[k] == h[k]; }
      }
    }
    forall id, i: int | NotRescheduledSince(h', id, i) ensures NotRescheduledSince(h, id, i) {
      forall k | 0 <= k < |h| && i <= k ensures h[k] != Rescheduled(id) { assert h'[k] == h[k]; }
    }
  }

  /** A row that a statement leaves alone. */
  lemma RowKept(h: seq<Fact>, f: Fact, r: Row)
    requires RowInv(h, r) && f != GivenUp(r.id) && !(f.Claimed? && f.id == r.id)
    ensures RowInv(h + [f], r)
  {
    AppendFact(h, f);
  }

  lemma RowFreed(h: seq<Fact>, f: Fact, r: Row)
    requires RowInv(h, r) && f.Swept? && Stale(f.at)(r) && r in f.freed
    ensures RowInv(h + [f], Free()(r))
  {
    AppendFact(h, f);
    forall i | 0 <= i < |h| && h[i].Claimed? && h[i].id == r.id && StillHeld(h, i)
      ensures Releases(f, h[i].id, h[i].at)
    {
      assert r.lockedAt == Some(h[i].at);
    }
    forall i | 0 <= i < |h| && h[i] == GivenUp(r.id) && NotRescheduledSince(h, r.id, i + 1) ensures r.status.Failed? {}
  }

  lemma RowLocked(h: seq<Fact>, r: Row, at: int, since: nat)
    requires RowInv(h, r) && r.status.Pending?
    ensures RowInv(h + [Claimed(r.id, at, r.scheduledAt, since)], Lock(at)(r))
  {
    AppendFact(h, Claimed(r.id, at, r.scheduledAt, since));
  }

  lemma RowPostponed(h: seq<Fact>, r: Row, reason: string, at: int)
    requires RowInv(h, r)
    ensures RowInv(h + [Rescheduled(r.id)], Postpone(reason, at)(r))
  {
    var h' := h + [Rescheduled(r.id)];
    AppendFact(h, Rescheduled(r.id));
    assert h'[|h|] == Rescheduled(r.id);
    forall i | 0 <= i < |h'| && h'[i] == GivenUp(r.id) ensures !NotRescheduledSince(h', r.id, i + 1) {}
  }

  lemma RowFailed(h: seq<Fact>, r: Row, reason: Option<string>)
    requires RowInv(h, r)
    ensures RowInv(h + [GivenUp(r.id)], Fail(reason)(r))
  {
    AppendFact(h, GivenUp(r.id));
  }

  lemma RowCreated(h: seq<Fact>, r: Row)
    requires r.status.Pending? && r.lockedAt.None? && r.attempts == 0
    requires forall f :: f in h && (f.Claimed? || f.GivenUp?) ==> Enqueued(f.id) in h
    requires Enqueued(r.id) !in h
    ensures RowInv(h + [Enqueued(r.id)], r)
  {
    AppendFact(h, Enqueued(r.id));
    NoClaims(h, r.id);
    var h' := h + [Enqueued(r.id)];
    forall i | 0 <= i < |h'| && (h'[i].Claimed? || h'[i].GivenUp?) ensures h'[i].id != r.id {
      assert h'[i] in h;
    }
  }

  lemma {:induction false} NoClaims(h: seq<Fact>, id: string)
    requires forall f :: f in h && f.Claimed? ==> f.id != id
    ensures ClaimCount(h, id) == 0
  {
    if h != [] {
      NoClaims(h[..|h| - 1], id);
      assert h[|h| - 1] in h;
    }
  }

  lemma ChoiceKept(h: seq<Fact>, f: Fact, rows: seq<Row>, rows': seq<Row>, c: Choice)
    requires ChoiceInv(h, rows, c)
    requires forall r' :: r' in rows' && r'.id == c.id && f != Rescheduled(c.id) ==>
               exists r :: r in rows && r.id == r'.id && r.scheduledAt == r'.scheduledAt
    ensures ChoiceInv(h + [f], rows', c)
  {
    AppendFact(h, f);
    if f == Rescheduled(c.id) {
      assert (h + [f])[|h|] == f;
    }
  }

  // ---------------------------------------------------------------- claims: the statements keep the invariant

  /** A statement that rewrites rows one by one, keeping ids, and records one fact. */
  ghost predicate Rewrites(s: State, f: Fact, rows': seq<Row>) {
    && |rows'| == |s.rows|
    && (forall i :: 0 <= i < |rows'| ==> rows'[i].id == s.rows[i].id)
    && (forall i :: 0 <= i < |rows'| ==> RowInv(s.history + [f], rows'[i]))
    && (forall i :: 0 <= i < |rows'| && f != Rescheduled(rows'[i].id) ==> rows'[i].scheduledAt == s.rows[i].scheduledAt)
    && (f.Claimed? || f.GivenUp? ==> Enqueued(f.id) in s.history)
  }

  lemma RewriteKeeps(s: State, f: Fact, rows': seq<Row>, choices': map<string, Choice>)
    requires ClaimInv(s) && Rewrites(s, f, rows')
    requires forall w :: w in choices' ==> w in s.choices && choices'[w] == s.choices[w]
    ensures ClaimInv(State(rows', choices', s.history + [f]))
  {
    AppendFact(s.history, f);
    forall w | w in choices' ensures ChoiceInv(s.history + [f], rows', choices'[w]) {
      forall r' | r' in rows' && r'.id == choices'[w].id && f != Rescheduled(choices'[w].id)
        ensures exists r :: r in s.rows && r.id == r'.id && r.scheduledAt == r'.scheduledAt
      {
        var i :| 0 <= i < |rows'| && rows'[i] == r';
        assert s.rows[i] in s.rows;
      }
      ChoiceKept(s.history, f, s.rows, rows', choices'[w]);
    }
  }

  lemma ResetStep(s: State, now: int)
    requires ClaimInv(s)
    ensures ClaimInv(Apply(s, ResetStale(now)))
  {
    var f := Swept(Filter(Stale(now), s.rows), now);
    var rows' := UpdateWhere(Stale(now), Free(), s.rows);
    FilterMembers(Stale(now), s.rows);
    forall i | 0 <= i < |rows'| ensures RowInv(s.history + [f], rows'[i]) {
      assert s.rows[i] in s.rows;
      if Stale(now)(s.rows[i]) { RowFreed(s.history, f, s.rows[i]); } else { RowKept(s.history, f, s.rows[i]); }
    }
    RewriteKeeps(s, f, rows', s.choices);
  }

  /** The one pending row a successful conditional update finds. */
  lemma ClaimHit(s: State, id: string)
    requires ClaimInv(s) && Filter(PendingWithId(id), s.rows) != []
    ensures var r := Filter(PendingWithId(id), s.rows)[0];
            r in s.rows && r.id == id && r.status.Pending? && RowInv(s.history, r)
            && forall q :: q in s.rows && q.id == id ==> q == r
  {
    FilterMembers(PendingWithId(id), s.rows);
    var r := Filter(PendingWithId(id), s.rows)[0];
    assert r in Filter(PendingWithId(id), s.rows);
    forall q | q in s.rows && q.id == id ensures q == r {
      var i :| 0 <= i < |s.rows| && s.rows[i] == q;
      var j :| 0 <= j < |s.rows| && s.rows[j] == r;
    }
  }

  lemma ClaimStep(s: State, worker: string)
    requires ClaimInv(s)
    ensures ClaimInv(Apply(s, Claim(worker)))
  {
    if worker in s.choices {
      var c := s.choices[worker];
      var hits := Filter(PendingWithId(c.id), s.rows);
      if hits != [] {
        ClaimHit(s, c.id);
        var r := hits[0];
        var f := Claimed(c.id, c.now, r.scheduledAt, c.since);
        var rows' := UpdateWhere(PendingWithId(c.id), Lock(c.now), s.rows);
        forall i | 0 <= i < |rows'| ensures RowInv(s.history + [f], rows'[i]) {
          assert s.rows[i] in s.rows;
          if s.rows[i].id == c.id { RowLocked(s.history, r, c.now, c.since); }
          else { RowKept(s.history, f, s.rows[i]); }
        }
        RewriteKeeps(s, f, rows', s.choices - {worker});
      }
    }
  }

  lemma GiveUpStep(s: State, id: string, reason: Option<string>)
    requires ClaimInv(s) && HasId(s.rows, id)
    ensures ClaimInv(s.(rows := UpdateWhere(WithId(id), Fail(reason), s.rows), history := s.history + [GivenUp(id)]))
  {
    var rows' := UpdateWhere(WithId(id), Fail(reason), s.rows);
    forall i | 0 <= i < |rows'| ensures RowInv(s.history + [GivenUp(id)], rows'[i]) {
      assert s.rows[i] in s.rows;
      if s.rows[i].id == id { RowFailed(s.history, s.rows[i], reason); }
      else { RowKept(s.history, GivenUp(id), s.rows[i]); }
    }
    var r :| r in s.rows && r.id == id;
    assert RowInv(s.history, r);
    RewriteKeeps(s, GivenUp(id), rows', s.choices);
  }

  lemma PostponeStep(s: State, id: string, reason: string, at: int)
    requires ClaimInv(s)
    ensures ClaimInv(s.(rows := UpdateWhere(WithId(id), Postpone(reason, at), s.rows),
                        history := s.history + [Rescheduled(id)]))
  {
    var rows' := UpdateWhere(WithId(id), Postpone(reason, at), s.rows);
    forall i | 0 <= i < |rows'| ensures RowInv(s.history + [Rescheduled(id)], rows'[i]) {
      assert s.rows[i] in s.rows;
      if s.rows[i].id == id { RowPostponed(s.history, s.rows[i], reason, at); }
      else { RowKept(s.history, Rescheduled(id), s.rows[i]); }
    }
    RewriteKeeps(s, Rescheduled(id), rows', s.choices);
  }

  lemma EnqueueStep(s: State, row: Row)
    requires ClaimInv(s) && Enqueued(row.id) !in s.history
    requires row.status.Pending? && row.lockedAt.None? && row.attempts == 0
    ensures ClaimInv(s.(rows := s.rows + [row], history := s.history + [Enqueued(row.id)]))
  {
    var h' := s.history + [Enqueued(row.id)];
    AppendFact(s.history, Enqueued(row.id));
    RowCreated(s.history, row);
    forall r | r in s.rows ensures RowInv(h', r) && r.id != row.id {
      RowKept(s.history, Enqueued(row.id), r);
    }
    forall w | w in s.choices ensures ChoiceInv(h', s.rows + [row], s.choices[w]) {
      ChoiceKept(s.history, Enqueued(row.id), s.rows, s.rows + [row], s.choices[w]);
    }
  }

  lemma {:induction false} FilterUniqueIds(keep: Row -> bool, rows: seq<Row>)
    requires UniqueIds(rows)
    ensures UniqueIds(Filter(keep, rows))
  {
    if rows != [] {
      var n := |rows| - 1;
      FilterUniqueIds(keep, rows[..n]);
      FilterMembers(keep, rows[..n]);
      var kept := Filter(keep, rows[..n]);
      forall i | 0 <= i < |kept| ensures kept[i].id != rows[n].id {
        assert kept[i] in rows[..n];
      }
    }
  }

  lemma DeleteStep(s: State, keep: Row -> bool)
    requires ClaimInv(s)
    ensures ClaimInv(Apply(s, Delete(keep)))
  {
    FilterUniqueIds(keep, s.rows);
    FilterMembers(keep, s.rows);
    AppendFact(s.history, Removed);
    forall r | r in s.rows ensures RowInv(s.history + [Removed], r) {
      RowKept(s.history, Removed, r);
    }
    forall w | w in s.choices ensures ChoiceInv(s.history + [Removed], Filter(keep, s.rows), s.choices[w]) {
      ChoiceKept(s.history, Removed, s.rows, Filter(keep, s.rows), s.choices[w]);
    }
  }

  lemma SelectStep(s: State, worker: string, now: int)
    requires ClaimInv(s)
    ensures ClaimInv(Apply(s, Select(worker, now)))
  {
    match FirstDue(s.rows, now)
    case None =>
    case Some(r) =>
      forall q | q in s.rows && q.id == r.id ensures q == r {
        var i :| 0 <= i < |s.rows| && s.rows[i] == q;
        var j :| 0 <= j < |s.rows| && s.rows[j] == r;
      }
      assert ChoiceInv(s.history, s.rows, Choice(r.id, now, |s.history|));
  }

  lemma ClaimInvStep(s: State, m: Statement)
    requires ClaimInv(s) && Enabled(s, m)
    ensures ClaimInv(Apply(s, m))
  {
    match m
    case Enqueue(p, recent, q) => EnqueueStep(s, NewRow(p, s.rows, q));
    case ResetStale(now) => ResetStep(s, now);
    case Select(worker, now) => SelectStep(s, worker, now);
    case Claim(worker) => ClaimStep(s, worker);
    case Reschedule(id, reason, now, retry, gap) =>
      if HasId(s.rows, id) {
        if RescheduleFits(s.rows, now, retry, gap) { PostponeStep(s, id, reason, Requested(now, retry)); }
        else { GiveUpStep(s, id, Some("outbound_queue_wait_too_long")); }
      }
    case GiveUp(id, reason) => if HasId(s.rows, id) { GiveUpStep(s, id, reason); }
    case Delete(keep) => DeleteStep(s, keep);
  }

  // ---------------------------------------------------------------- claims: theorems over runs

  lemma QuietFact(h: seq<Fact>, f: Fact)
    requires HistoryOk(h) && !f.Claimed?
    ensures HistoryOk(h + [f])
  {
    var h' := h + [f];
    assert forall i :: 0 <= i < |h| ==> h'[i] == h[i];
    forall i, j | 0 <= i < j < |h'| && h'[i].Claimed? && h'[j].Claimed? && h'[i].id == h'[j].id
      ensures exists k :: i < k < j && Releases(h'[k], h'[i].id, h'[i].at)
    {
      var k :| i < k < j && Releases(h[k], h[i].id, h[i].at);
      assert h'[k] == h[k];
    }
    forall i, j | 0 <= i < j < |h'| && h'[i].GivenUp? && h'[j].Claimed? && h'[i].id == h'[j].id
      ensures exists k :: i < k < j && h'[k] == Rescheduled(h'[i].id)
    {
      var k :| i < k < j && h[k] == Rescheduled(h[i].id);
      assert h'[k] == h[k];
    }
    forall j | 0 <= j < |h'| && h'[j].Claimed?
      ensures h'[j].since <= j && (h'[j].scheduledAt <= h'[j].at
                                   || exists k :: h'[j].since <= k < j && h'[k] == Rescheduled(h'[j].id))
    {
      if h[j].scheduledAt > h[j].at {
        var k :| h[j].since <= k < j && h[k] == Rescheduled(h[j].id);
        assert h'[k] == h[k];
      }
    }
  }

  /** A successful claim comes after the release of every earlier one, and of a due row. */
  lemma ClaimFact(s: State, c: Choice, r: Row)
    requires ClaimInv(s) && HistoryOk(s.history) && ChoiceInv(s.history, s.rows, c)
    requires r in s.rows && r.id == c.id && r.status.Pending?
    ensures HistoryOk(s.history + [Claimed(c.id, c.now, r.scheduledAt, c.since)])
  {
    var h, f := s.history, Claimed(c.id, c.now, r.scheduledAt, c.since);
    var h' := h + [f];
    assert RowInv(h, r);
    QuietFact(h, Removed);
    assert forall i :: 0 <= i < |h| ==> h'[i] == h[i] && (h + [Removed])[i] == h[i];
    forall i | 0 <= i < |h| && h[i].Claimed? && h[i].id == c.id
      ensures exists k :: i < k < |h| && Releases(h'[k], h'[i].id, h'[i].at)
    {
      assert !StillHeld(h, i);
      var k :| i < k < |h| && Releases(h[k], h[i].id, h[i].at);
      assert h'[k] == h[k];
    }
    forall i | 0 <= i < |h| && h[i].GivenUp? && h[i].id == c.id
      ensures exists k :: i < k < |h| && h'[k] == Rescheduled(h'[i].id)
    {
      assert !NotRescheduledSince(h, c.id, i + 1);
      var k :| 0 <= k < |h| && i + 1 <= k && h[k] == Rescheduled(c.id);
      assert h'[k] == h[k];
    }
    if r.scheduledAt > c.now {
      assert !NotRescheduledSince(h, c.id, c.since);
      var k :| 0 <= k < |h| && c.since <= k && h[k] == Rescheduled(c.id);
      assert h'[k] == h[k];
    }
    ClaimAppended(h, f);
  }

  lemma ClaimAppended(h: seq<Fact>, f: Fact)
    requires HistoryOk(h) && f.Claimed? && f.since <= |h|
    requires forall i :: 0 <= i < |h| && h[i].Claimed? && h[i].id == f.id ==>
               exists k :: i < k < |h| && Releases((h + [f])[k], (h + [f])[i].id, (h + [f])[i].at)
    requires forall i :: 0 <= i < |h| && h[i].GivenUp? && h[i].id == f.id ==>
               exists k :: i < k < |h| && (h + [f])[k] == Rescheduled((h + [f])[i].id)
    requires f.scheduledAt <= f.at || exists k :: f.since <= k < |h| && (h + [f])[k] == Rescheduled(f.id)
    ensures HistoryOk(h + [f])
  {
    var h' := h + [f];
    var q := h + [Removed];
    QuietFact(h, Removed);
    assert forall i :: 0 <= i < |h| ==> h'[i] == q[i];
    forall i, j | 0 <= i < j < |h'| && h'[i].Claimed? && h'[j].Claimed? && h'[i].id == h'[j].id
      ensures exists k :: i < k < j && Releases(h'[k], h'[i].id, h'[i].at)
    {
      if j < |h| {
        var k :| i < k < j && Releases(q[k], q[i].id, q[i].at);
        assert h'[k] == q[k];
      }
    }
    forall i, j | 0 <= i < j < |h'| && h'[i].GivenUp? && h'[j].Claimed? && h'[i].id == h'[j].id
      ensures exists k :: i < k < j && h'[k] == Rescheduled(h'[i].id)
    {
      if j < |h| {
        var k :| i < k < j && q[k] == Rescheduled(q[i].id);
        assert h'[k] == q[k];
      }
    }
    forall j | 0 <= j < |h'| && h'[j].Claimed?
      ensures h'[j].since <= j && (h'[j].scheduledAt <= h'[j].at
                                   || exists k :: h'[j].since <= k < j && h'[k] == Rescheduled(h'[j].id))
    {
      if j < |h| && q[j].scheduledAt > q[j].at {
        var k :| q[j].since <= k < j && q[k] == Rescheduled(q[j].id);
        assert h'[k] == q[k];
      }
    }
  }

  lemma HistoryStep(s: State, m: Statement)
    requires ClaimInv(s) && HistoryOk(s.history) && Enabled(s, m)
    ensures HistoryOk(Apply(s, m).history)
  {
    if m.Claim? {
      if m.worker in s.choices {
        var c := s.choices[m.worker];
        if Filter(PendingWithId(c.id), s.rows) != [] {
          ClaimHit(s, c.id);
          ClaimFact(s, c, Filter(PendingWithId(c.id), s.rows)[0]);
        }
      }
    } else if Apply(s, m).history != s.history {
      QuietFact(s.history, Apply(s, m).history[|s.history|]);
    }
  }

  lemma {:induction false} BehaviourClaims(states: seq<State>, statements: seq<Statement>, k: nat)
    requires Behaviour(states, statements) && k < |states|
    ensures ClaimInv(states[k]) && HistoryOk(states[k].history)
  {
    if k > 0 {
      BehaviourClaims(states, statements, k - 1);
      ClaimInvStep(states[k - 1], statements[k - 1]);
      HistoryStep(states[k - 1], statements[k - 1]);
    }
  }

  /**
   The claim protocol, over every interleaving of any workers' statements: a row is
   PROCESSING exactly when it is locked; `attempts` counts its successful claims; two claims
   of a row are separated by a reschedule or by a lock more than 300 s old; a row that failed
   is claimed again only after a reschedule; and a claimed row is due unless it was
   rescheduled behind its worker's back.
   */
  lemma ClaimProtocol(states: seq<State>, statements: seq<Statement>, k: nat)
    requires Behaviour(states, statements) && k < |states|
    ensures forall r :: r in states[k].rows ==>
              (r.status.Processing? <==> r.lockedAt.Some?) && r.attempts == ClaimCount(states[k].history, r.id)
    ensures ClaimsSeparated(states[k].history)
    ensures FailuresRespected(states[k].history)
    ensures ClaimsDue(states[k].history)
  {
    BehaviourClaims(states, statements, k);
    forall r | r in states[k].rows
      ensures (r.status.Processing? <==> r.lockedAt.Some?) && r.attempts == ClaimCount(states[k].history, r.id)
    {
      assert RowInv(states[k].history, r);
    }
  }

  lemma FilterOne(f: Row -> bool, r: Row)
    ensures Filter(f, [r]) == if f(r) then [r] else []
  {
    assert [r][..0] == [];
  }

  lemma UpdateOne(f: Row -> bool, g: Row -> Row, r: Row)
    ensures UpdateWhere(f, g, [r]) == [if f(r) then g(r) else r]
  {
  }

  lemma SelectOnly(s: State, worker: string, r: Row, now: int)
    requires s.rows == [r] && Due(r, now)
    ensures Apply(s, Select(worker, now)) == s.(choices := s.choices[worker := Choice(r.id, now, |s.history|)])
  {
    assert s.rows[1..] == [];
  }

  lemma ClaimOnly(s: State, worker: string, r: Row)
    requires s.rows == [r] && r.status.Pending? && worker in s.choices && s.choices[worker].id == r.id
    ensures var c := s.choices[worker];
            Apply(s, Claim(worker)) == State([Lock(c.now)(r)], s.choices - {worker},
                                             s.history + [Claimed(r.id, c.now, r.scheduledAt, c.since)])
  {
    FilterOne(PendingWithId(r.id), r);
    UpdateOne(PendingWithId(r.id), Lock(s.choices[worker].now), r);
  }

  lemma RescheduleOnly(s: State, r: Row, reason: string, now: int, retryAfterSeconds: int, gap: nat)
    requires s.rows == [r] && RescheduleFits([r], now, retryAfterSeconds, gap)
    ensures Apply(s, Reschedule(r.id, reason, now, retryAfterSeconds, gap))
         == s.(rows := [Postpone(reason, Requested(now, retryAfterSeconds))(r)],
                history := s.history + [Rescheduled(r.id)])
  {
    assert r in s.rows;
    UpdateOne(WithId(r.id), Postpone(reason, Requested(now, retryAfterSeconds)), r);
  }

  lemma EnqueueOnly(p: Policy, recent: Recent, q: Request)
    ensures var r, s := NewRow(p, [], q), Apply(INITIAL, Enqueue(p, recent, q));
            s == State([r], map[], [Enqueued(q.id)]) && r.status.Pending? && r.lockedAt.None? && r.id == q.id
            && r.scheduledAt == Requested(q.now, q.retryAfterSeconds)
  {
  }

  /** A worker that may claim after another has claimed the row and postponed it. */
  lemma Overtake(s: State, r: Row, now: int, retry: int, gap: nat)
    returns (states: seq<State>, statements: seq<Statement>)
    requires s.rows == [r] && Due(r, now) && RescheduleFits([Lock(now)(r)], now, retry, gap)
    ensures statements == [Select("a", now), Select("b", now), Claim("b"),
                           Reschedule(r.id, "minimum_interval", now, retry, gap), Claim("a")]
    ensures |states| == 6 && states[0] == s
    ensures forall k :: 0 <= k < 5 ==>
        Enabled(states[k], statements[k]) && states[k + 1] == Apply(states[k], statements[k])
    ensures states[5].history == states[4].history + [Claimed(r.id, now, Requested(now, retry), |s.history|)]
  {
    statements := [Select("a", now), Select("b", now), Claim("b"),
                   Reschedule(r.id, "minimum_interval", now, retry, gap), Claim("a")];
    var s1 := Apply(s, statements[0]);
    SelectOnly(s, "a", r, now);
    var s2 := Apply(s1, statements[1]);
    SelectOnly(s1, "b", r, now);
    var s3 := Apply(s2, statements[2]);
    ClaimOnly(s2, "b", r);
    var s4 := Apply(s3, statements[3]);
    RescheduleOnly(s3, Lock(now)(r), "minimum_interval", now, retry, gap);
    var s5 := Apply(s4, statements[4]);
    ClaimOnly(s4, "a", Postpone("minimum_interval", Requested(now, retry))(Lock(now)(r)));
    states := [s, s1, s2, s3, s4, s5];
  }

  /**
   The proviso of `ClaimsDue` is needed: the conditional update checks the status but not the
   schedule.  From the empty queue, with any message that is admitted and comes due, there is a
   run that ends with a worker claiming the row before the time to which another postponed it.
   */
  lemma PostponedRowIsClaimedEarly(p: Policy, recent: Recent, q: Request, now: int, retry: int, gap: nat)
    returns (states: seq<State>, statements: seq<Statement>)
    requires forall scope :: !Full(p, recent, [], q, scope)
    requires Requested(q.now, q.retryAfterSeconds) <= now && Max(1, retry) * 1000 <= gap
    ensures Behaviour(states, statements)
    ensures var h := states[|statements|].history;
            h != [] && h[|h| - 1].Claimed? && h[|h| - 1].id == q.id && h[|h| - 1].at == now
            && h[|h| - 1].scheduledAt == Requested(now, retry) > now
  {
    var r, s := NewRow(p, [], q), Apply(INITIAL, Enqueue(p, recent, q));
    EnqueueOnly(p, recent, q);
    var locked := Lock(now)(r);
    assert forall x :: x in [locked] ==> !x.status.Pending?;
    assert Anchor([locked], now) == now;
    var later, rest := Overtake(s, r, now, retry, gap);
    states, statements := [INITIAL] + later, [Enqueue(p, recent, q)] + rest;
    forall k | 0 <= k < |statements|
      ensures Enabled(states[k], statements[k]) && states[k + 1] == Apply(states[k], statements[k])
    {
      if k > 0 { assert states[k] == later[k - 1] && statements[k] == rest[k - 1] && states[k + 1] == later[k]; }
    }
  }

  // ---------------------------------------------------------------- limits and spacing over runs

  /** Rewriting rows in place keeps the limits if it makes no inactive row active. */
  lemma RewriteKeepsLimits(p: Policy, rows: seq<Row>, rows': seq<Row>)
    requires WithinLimits(p, rows) && |rows'| == |rows|
    requires forall i :: 0 <= i < |rows| ==>
               rows'[i].recipient == rows[i].recipient && (Active(rows'[i]) ==> Active(rows[i]))
    ensures WithinLimits(p, rows')
  {
    CountPointwise(IsActive(), rows', IsActive(), rows);
    forall recipient ensures Count(ActiveFor(recipient), rows') <= Count(ActiveFor(recipient), rows) {
      CountPointwise(ActiveFor(recipient), rows', ActiveFor(recipient), rows);
    }
  }

  lemma DeleteKeepsLimits(p: Policy, rows: seq<Row>, keep: Row -> bool)
    requires WithinLimits(p, rows)
    ensures WithinLimits(p, Filter(keep, rows))
  {
    CountFiltered(IsActive(), keep, rows);
    forall recipient ensures Count(ActiveFor(recipient), Filter(keep, rows)) <= Count(ActiveFor(recipient), rows) {
      CountFiltered(ActiveFor(recipient), keep, rows);
    }
  }

  /** One policy for all admissions, and reschedules only of rows that have not failed. */
  ghost predicate Disciplined(p: Policy, s: State, m: Statement) {
    && (m.Enqueue? ==> m.p == p)
    && (m.Reschedule? ==> forall r :: r in s.rows && r.id == m.id ==> Active(r))
  }

  lemma LimitsStep(p: Policy, s: State, m: Statement)
    requires WithinLimits(p, s.rows) && Enabled(s, m) && Disciplined(p, s, m)
    ensures WithinLimits(p, Apply(s, m).rows)
  {
    match m
    case Enqueue(_, recent, q) => EnqueueKeepsLimits(p, recent, s.rows, q);
    case Delete(keep) => DeleteKeepsLimits(p, s.rows, keep);
    case _ =>
      InPlace(p, s, m);
      RewriteKeepsLimits(p, s.rows, Apply(s, m).rows);
  }

  lemma UpdateStays(f: Row -> bool, g: Row -> Row, rows: seq<Row>)
    requires forall r :: r in rows && f(r) ==> g(r).recipient == r.recipient && (Active(g(r)) ==> Active(r))
    ensures var after := UpdateWhere(f, g, rows);
            forall i :: 0 <= i < |rows| ==>
                after[i].recipient == rows[i].recipient && (Active(after[i]) ==> Active(rows[i]))
  {
    forall i | 0 <= i < |rows| ensures rows[i] in rows {}
  }

  lemma InPlace(p: Policy, s: State, m: Statement)
    requires Disciplined(p, s, m) && !m.Enqueue? && !m.Delete?
    ensures |Apply(s, m).rows| == |s.rows|
    ensures forall i :: 0 <= i < |s.rows| ==>
              && Apply(s, m).rows[i].recipient == s.rows[i].recipient
              && (Active(Apply(s, m).rows[i]) ==> Active(s.rows[i]))
  {
    match m
    case ResetStale(now) => UpdateStays(Stale(now), Free(), s.rows);
    case Claim(worker) =>
      if worker in s.choices {
        var c := s.choices[worker];
        UpdateStays(PendingWithId(c.id), Lock(c.now), s.rows);
      }
    case Reschedule(id, reason, now, retry, gap) =>
      UpdateStays(WithId(id), Postpone(reason, Requested(now, retry)), s.rows);
      UpdateStays(WithId(id), Fail(Some("outbound_queue_wait_too_long")), s.rows);
    case GiveUp(id, reason) => UpdateStays(WithId(id), Fail(reason), s.rows);
    case _ =>
  }

  /** Active rows never exceed any of the four limits, while reschedules leave failed rows alone. */
  lemma {:induction false} ActiveWithinLimits(p: Policy, states: seq<State>, statements: seq<Statement>, k: nat)
    requires Behaviour(states, statements) && k < |states|
    requires forall i :: 0 <= i < |statements| ==> Disciplined(p, states[i], statements[i])
    ensures WithinLimits(p, states[k].rows)
  {
    if k > 0 {
      ActiveWithinLimits(p, states, statements, k - 1);
      LimitsStep(p, states[k - 1], statements[k - 1]);
    }
  }

  /**
   The proviso is exact: an accepted reschedule sets the row PENDING whatever its status, so
   it adds to the active rows exactly the failed rows it touches.
   */
  lemma {:induction false} RescheduleRevives(rows: seq<Row>, id: string, reason: string, at: int)
    ensures Count(IsActive(), UpdateWhere(WithId(id), Postpone(reason, at), rows))
         == Count(IsActive(), rows) + Count((r: Row) => r.id == id && r.status.Failed?, rows)
  {
    if rows != [] {
      var n := |rows| - 1;
      RescheduleRevives(rows[..n], id, reason, at);
      assert UpdateWhere(WithId(id), Postpone(reason, at), rows)[..n]
          == UpdateWhere(WithId(id), Postpone(reason, at), rows[..n]);
    }
  }

  lemma RewriteKeepsSpacing(p: Policy, rows: seq<Row>, rows': seq<Row>)
    requires Spaced(p, rows) && |rows'| == |rows|
    requires forall i :: 0 <= i < |rows| ==>
               rows'[i].scheduledAt == rows[i].scheduledAt && (Active(rows'[i]) ==> Active(rows[i]))
    ensures Spaced(p, rows')
  {
  }

  lemma {:induction false} FilterSpaced(p: Policy, keep: Row -> bool, rows: seq<Row>)
    requires Spaced(p, rows)
    ensures Spaced(p, Filter(keep, rows))
  {
    if rows != [] {
      var n := |rows| - 1;
      assert rows[..n] == rows[..|rows| - 1];
      FilterSpaced(p, keep, rows[..n]);
      FilterMembers(keep, rows[..n]);
      var kept := Filter(keep, rows[..n]);
      forall i | 0 <= i < |kept| && Active(kept[i]) && Active(rows[n])
        ensures kept[i].scheduledAt + Gap(p) <= rows[n].scheduledAt
                || rows[n].scheduledAt + Gap(p) <= kept[i].scheduledAt
      {
        assert kept[i] in rows[..n];
        var j :| 0 <= j < n && rows[j] == kept[i];
      }
    }
  }

  lemma SpacingStep(p: Policy, s: State, m: Statement)
    requires Spaced(p, s.rows) && Enabled(s, m) && (m.Enqueue? ==> m.p == p) && !m.Reschedule?
    ensures Spaced(p, Apply(s, m).rows)
  {
    match m
    case Enqueue(_, recent, q) => EnqueueKeepsSpacing(p, s.rows, q);
    case Delete(keep) => FilterSpaced(p, keep, s.rows);
    case _ => RewriteKeepsSpacing(p, s.rows, Apply(s, m).rows);
  }

  /** In runs without reschedules, active rows are pairwise at least the interval apart. */
  lemma {:induction false} ActiveSpaced(p: Policy, states: seq<State>, statements: seq<Statement>, k: nat)
    requires Behaviour(states, statements) && k < |states|
    requires forall i :: 0 <= i < |statements| ==>
               !statements[i].Reschedule? && (statements[i].Enqueue? ==> statements[i].p == p)
    ensures Spaced(p, states[k].rows)
  {
    if k > 0 {
      ActiveSpaced(p, states, statements, k - 1);
      SpacingStep(p, states[k - 1], statements[k - 1]);
    }
  }

  /** Ids being unique, a conditional update by id hits its candidate and nothing else. */
  lemma {:induction false} OnePending(rows: seq<Row>, r: Row)
    requires UniqueIds(rows) && r.status.Pending? && r in rows
    ensures Count(PendingWithId(r.id), rows) == 1
  {
    var n := |rows| - 1;
    assert rows == rows[..n] + [rows[n]];
    if rows[n] == r {
      CountNone(PendingWithId(r.id), rows[..n]);
    } else {
      OnePending(rows[..n], r);
      var k :| 0 <= k < |rows| && rows[k] == r;
    }
  }

  lemma ClaimLocks(swept: seq<Row>, c: Row, now: int)
    requires UniqueIds(swept) && c.status.Pending? && c in swept
    ensures var after := UpdateWhere(PendingWithId(c.id), Lock(now), swept);
            && UniqueIds(after) && (exists k :: 0 <= k < |after| && after[k].id == c.id)
            && forall k :: 0 <= k < |after| && after[k].id == c.id ==> after[k] == Lock(now)(c)
  {
    var after := UpdateWhere(PendingWithId(c.id), Lock(now), swept);
    var j :| 0 <= j < |swept| && swept[j] == c;
    assert after[j].id == c.id;
    forall k | 0 <= k < |after| && after[k].id == c.id ensures k == j {
      assert swept[k].id == swept[j].id;
    }
  }

  lemma SweepKeepsIds(rows: seq<Row>, now: int)
    requires UniqueIds(rows)
    ensures UniqueIds(UpdateWhere(Stale(now), Free(), rows))
  {
  }
}
