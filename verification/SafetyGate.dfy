/**
 The outbound safety gate of one instance as a state machine over the points at which its
 callers can interleave: the promise-chain lock around `begin`, the in-flight counter, and
 the sliding windows over the audit rows.
 */
module SafetyGate {
  import opened Numbers
  import opened Strings
  import opened Sequences

  datatype Limit = InstanceMinute | InstanceDay | RecipientMinute | RecipientDay

  datatype Policy = Policy(
    instancePerMinute: nat,
    instancePerDay: nat,
    recipientPerMinute: nat,
    recipientPerDay: nat,
    maxConcurrentSends: nat,
    retentionDays: nat)

  function Window(l: Limit): int {
    if l.InstanceMinute? || l.RecipientMinute? then MINUTE else DAY
  }

  function Maximum(p: Policy, l: Limit): nat {
    match l
    case InstanceMinute => p.instancePerMinute
    case InstanceDay => p.instancePerDay
    case RecipientMinute => p.recipientPerMinute
    case RecipientDay => p.recipientPerDay
  }

  const ALL_LIMITS := {InstanceMinute, InstanceDay, RecipientMinute, RecipientDay}

  // ---------------------------------------------------------------- state

  datatype Status = Pending | Sent | Failed

  /** Whether the caller of `begin` has been given the row, and has given it back. */
  datatype Stage = Inserted | Admitted | Released

  /** An audit row that is not BLOCKED; `purged` rows have been deleted from the table. */
  datatype Row = Row(recipient: string, requestedAt: int, status: Status, stage: Stage, purged: bool)

  /** Where a call of `begin` stands. */
  datatype Phase =
    | Waiting
    | Evaluating
    | Checking(active: nat, now: int, recipient: string, passed: set<Limit>)
    | Created(active: nat, row: nat)
    | Leaving
    | Finished

  /** A call of `begin`, with the lock promise it found in the map, if any. */
  datatype Task = Task(previous: Option<nat>, phase: Phase)

  datatype State = State(
    clock: int,
    tasks: seq<Task>,          // every call of begin, in order of arrival
    tail: Option<nat>,         // beginLocksByInstance
    counter: nat,              // inFlightByInstance
    lastCleanup: Option<int>,  // lastCleanupByInstance
    rows: seq<Row>)

  const INITIAL := State(0, [], None, 0, None, [])

  datatype Move =
    | Tick(time: int)
    | Arrive
    | Enter(i: nat)
    | Cleanup(i: nat)
    | ReadCounter(i: nat, recipient: string)
    | Pass(i: nat, limit: Limit)
    | Create(i: nat)
    | Write(i: nat)
    | Abandon(i: nat)
    | Leave(i: nat)
    | Settle(r: nat, ok: bool)
    | Release(r: nat)

  // ---------------------------------------------------------------- counting rows

  predicate Countable(s: Status) {
    s.Pending? || s.Sent?
  }

  predicate Concerns(l: Limit, recipient: string, r: Row) {
    (l.RecipientMinute? || l.RecipientDay?) ==> r.recipient == recipient
  }

  /** Rows of every time, deleted ones included, inside a closed window. */
  function InWindow(l: Limit, recipient: string, lo: int, hi: int): Row -> bool {
    (r: Row) => Countable(r.status) && Concerns(l, recipient, r) && lo <= r.requestedAt <= hi
  }

  /** Rows that the count query of the service finds. */
  function Queried(l: Limit, recipient: string, from: int): Row -> bool {
    (r: Row) => !r.purged && Countable(r.status) && Concerns(l, recipient, r) && from <= r.requestedAt
  }

  function Outstanding(): Row -> bool {
    (r: Row) => r.stage.Admitted?
  }

  /** The admitted sends that have not been released. */
  function Unfinished(s: State): nat {
    Count(Outstanding(), s.rows)
  }

  // ---------------------------------------------------------------- the lock

  /** The promise stored for call i: it and everything it was chained to have been unlocked. */
  predicate Resolved(tasks: seq<Task>, i: nat)
    decreases i
  {
    && i < |tasks| && tasks[i].phase.Finished?
    && (tasks[i].previous.None? || (tasks[i].previous.value < i && Resolved(tasks, tasks[i].previous.value)))
  }

  predicate MayEnter(tasks: seq<Task>, i: nat) {
    && i < |tasks| && tasks[i].phase.Waiting?
    && (tasks[i].previous.None? || Resolved(tasks, tasks[i].previous.value))
  }

  // ---------------------------------------------------------------- moves

  predicate In(s: State, i: nat) {
    i < |s.tasks|
  }

  predicate Enabled(p: Policy, s: State, m: Move) {
    match m
    case Tick(t) => s.clock <= t
    case Arrive => true
    case Enter(i) => MayEnter(s.tasks, i)
    case Cleanup(i) => In(s, i) && s.tasks[i].phase.Evaluating?
                       && (s.lastCleanup.None? || s.clock - s.lastCleanup.value >= HOUR)
    case ReadCounter(i, _) => In(s, i) && s.tasks[i].phase.Evaluating? && s.counter < p.maxConcurrentSends
    case Pass(i, l) => In(s, i) && s.tasks[i].phase.Checking?
                       && Count(Queried(l, s.tasks[i].phase.recipient, s.tasks[i].phase.now - Window(l)), s.rows)
                          < Maximum(p, l)
    case Create(i) => In(s, i) && s.tasks[i].phase.Checking? && s.tasks[i].phase.passed == ALL_LIMITS
    case Write(i) => In(s, i) && s.tasks[i].phase.Created? && s.tasks[i].phase.row < |s.rows|
    case Abandon(i) => In(s, i) && !s.tasks[i].phase.Waiting? && !s.tasks[i].phase.Finished?
    case Leave(i) => In(s, i) && s.tasks[i].phase.Leaving?
    case Settle(r, _) => r < |s.rows| && s.rows[r].stage.Admitted? && s.rows[r].status.Pending?
    case Release(r) => r < |s.rows| && s.rows[r].stage.Admitted?
  }

  function WithPhase(s: State, i: nat, phase: Phase): State
    requires In(s, i)
  {
    s.(tasks := s.tasks[i := s.tasks[i].(phase := phase)])
  }

  function Sweep(rows: seq<Row>, before: int): (r: seq<Row>)
    ensures |r| == |rows|
  {
    seq(|rows|, i requires 0 <= i < |rows| => rows[i].(purged := rows[i].purged || rows[i].requestedAt < before))
  }

  function Apply(p: Policy, s: State, m: Move): State
    requires Enabled(p, s, m)
  {
    match m
    case Tick(t) => s.(clock := t)
    case Arrive => s.(tasks := s.tasks + [Task(s.tail, Waiting)], tail := Some(|s.tasks|))
    case Enter(i) => WithPhase(s, i, Evaluating)
    case Cleanup(i) => s.(lastCleanup := Some(s.clock), rows := Sweep(s.rows, s.clock - p.retentionDays * DAY))
    case ReadCounter(i, recipient) => WithPhase(s, i, Checking(s.counter, s.clock, recipient, {}))
    case Pass(i, l) => WithPhase(s, i, s.tasks[i].phase.(passed := s.tasks[i].phase.passed + {l}))
    case Create(i) =>
      var c := s.tasks[i].phase;
      WithPhase(s, i, Created(c.active, |s.rows|))
        .(rows := s.rows + [Row(c.recipient, s.clock, Pending, Inserted, false)])
    case Write(i) =>
      var c := s.tasks[i].phase;
      WithPhase(s, i, Leaving).(counter := c.active + 1, rows := s.rows[c.row := s.rows[c.row].(stage := Admitted)])
    case Abandon(i) => WithPhase(s, i, Leaving)
    case Leave(i) => WithPhase(s, i, Finished).(tail := if s.tail == Some(i) then None else s.tail)
    case Settle(r, ok) => s.(rows := s.rows[r := s.rows[r].(status := if ok then Sent else Failed)])
    case Release(r) =>
      s.(rows := s.rows[r := s.rows[r].(stage := Released)], counter := if s.counter <= 1 then 0 else s.counter - 1)
  }

  ghost predicate Behaviour(p: Policy, states: seq<State>, moves: seq<Move>) {
    && |states| == |moves| + 1 && states[0] == INITIAL
    && forall k :: 0 <= k < |moves| ==>
         Enabled(p, states[k], moves[k]) && states[k + 1] == Apply(p, states[k], moves[k])
  }

  // ---------------------------------------------------------------- lock invariant

  predicate Busy(t: Task) {
    !t.phase.Waiting? && !t.phase.Finished?
  }

  ghost predicate FinishedBefore(tasks: seq<Task>, i: nat) {
    forall k :: 0 <= k < i && k < |tasks| ==> tasks[k].phase.Finished?
  }

  /** Calls form one chain; whoever is past waiting has only finished calls before it. */
  ghost predicate LockInv(tasks: seq<Task>, tail: Option<nat>) {
    && (forall i :: 0 <= i < |tasks| ==>
          match tasks[i].previous
          case None => FinishedBefore(tasks, i)
          case Some(j) => j + 1 == i)
    && (forall i :: 0 <= i < |tasks| && !tasks[i].phase.Waiting? ==> FinishedBefore(tasks, i))
    && match tail
       case None => FinishedBefore(tasks, |tasks|)
       case Some(t) => t + 1 == |tasks|
  }

  lemma {:induction false} ResolvedMeansDone(tasks: seq<Task>, tail: Option<nat>, i: nat)
    requires LockInv(tasks, tail) && Resolved(tasks, i)
    ensures FinishedBefore(tasks, i + 1)
  {
    if tasks[i].previous.Some? { ResolvedMeansDone(tasks, tail, tasks[i].previous.value); }
  }

  lemma {:induction false} DoneMeansResolved(tasks: seq<Task>, tail: Option<nat>, i: nat)
    requires LockInv(tasks, tail) && i < |tasks| && FinishedBefore(tasks, i + 1)
    ensures Resolved(tasks, i)
  {
    if tasks[i].previous.Some? { DoneMeansResolved(tasks, tail, tasks[i].previous.value); }
  }

  /** A phase change of a call that is first among the unfinished keeps the chain. */
  lemma PhaseKeepsLock(tasks: seq<Task>, tail: Option<nat>, i: nat, phase: Phase)
    requires LockInv(tasks, tail) && i < |tasks| && FinishedBefore(tasks, i) && !phase.Waiting?
    requires phase.Finished? || !tasks[i].phase.Finished?
    ensures LockInv(tasks[i := tasks[i].(phase := phase)], tail)
  {
    var after := tasks[i := tasks[i].(phase := phase)];
    forall k | 0 <= k <= |tasks| && FinishedBefore(tasks, k) ensures FinishedBefore(after, k) {
      assert i < k ==> tasks[i].phase.Finished?;
    }
  }

  lemma LockStep(p: Policy, s: State, m: Move)
    requires LockInv(s.tasks, s.tail) && Enabled(p, s, m)
    ensures LockInv(Apply(p, s, m).tasks, Apply(p, s, m).tail)
  {
    match m
    case Arrive =>
      var after := Apply(p, s, m).tasks;
      forall k | 0 <= k <= |s.tasks| && FinishedBefore(s.tasks, k) ensures FinishedBefore(after, k) {}
    case Enter(i) =>
      if s.tasks[i].previous.Some? { ResolvedMeansDone(s.tasks, s.tail, s.tasks[i].previous.value); }
      PhaseKeepsLock(s.tasks, s.tail, i, Evaluating);
    case ReadCounter(i, recipient) =>
      PhaseKeepsLock(s.tasks, s.tail, i, Checking(s.counter, s.clock, recipient, {}));
    case Pass(i, l) =>
      PhaseKeepsLock(s.tasks, s.tail, i, s.tasks[i].phase.(passed := s.tasks[i].phase.passed + {l}));
    case Create(i) => PhaseKeepsLock(s.tasks, s.tail, i, Created(s.tasks[i].phase.active, |s.rows|));
    case Write(i) => PhaseKeepsLock(s.tasks, s.tail, i, Leaving);
    case Abandon(i) => PhaseKeepsLock(s.tasks, s.tail, i, Leaving);
    case Leave(i) => PhaseKeepsLock(s.tasks, s.tail, i, Finished);
    case _ =>
  }

  // ---------------------------------------------------------------- counter invariant

  /** What the counter means, and what the call between reading and writing it may rely on. */
  ghost predicate CounterInv(p: Policy, s: State) {
    && Unfinished(s) <= s.counter <= p.maxConcurrentSends
    && s.counter <= Unfinished(s) + (if p.maxConcurrentSends == 0 then 0 else p.maxConcurrentSends - 1)
    && (forall i :: 0 <= i < |s.tasks| && (s.tasks[i].phase.Checking? || s.tasks[i].phase.Created?) ==>
          Unfinished(s) <= s.tasks[i].phase.active < p.maxConcurrentSends)
    && (forall i :: 0 <= i < |s.tasks| && s.tasks[i].phase.Created? ==>
          s.tasks[i].phase.row < |s.rows| && s.rows[s.tasks[i].phase.row].stage.Inserted?)
  }

  lemma SweepCounts(f: Row -> bool, rows: seq<Row>, before: int)
    requires forall i :: 0 <= i < |rows| ==> (f(Sweep(rows, before)[i]) <==> f(rows[i]))
    ensures Count(f, Sweep(rows, before)) == Count(f, rows)
  {
    CountPointwise(f, rows, f, Sweep(rows, before));
    CountPointwise(f, Sweep(rows, before), f, rows);
  }

  /** A row update that keeps every stage but the k-th keeps what calls rely on. */
  lemma RowsStep(p: Policy, s: State, k: nat, r: Row)
    requires CounterInv(p, s) && k < |s.rows| && r.stage == s.rows[k].stage
    ensures CounterInv(p, s.(rows := s.rows[k := r]))
  {
    CountUpdate(Outstanding(), s.rows, k, r);
  }

  /** A release decrements the counter, and only while a send is outstanding. */
  lemma ReleaseStep(p: Policy, s: State, r: nat)
    requires CounterInv(p, s) && Enabled(p, s, Release(r))
    ensures CounterInv(p, Apply(p, s, Release(r)))
  {
    CountUpdate(Outstanding(), s.rows, r, s.rows[r].(stage := Released));
  }

  /** The write may overwrite decrements made since the read; it only errs upwards. */
  lemma WriteStep(p: Policy, s: State, i: nat)
    requires LockInv(s.tasks, s.tail) && CounterInv(p, s) && Enabled(p, s, Write(i))
    ensures CounterInv(p, Apply(p, s, Write(i)))
  {
    var k := s.tasks[i].phase.row;
    CountUpdate(Outstanding(), s.rows, k, s.rows[k].(stage := Admitted));
    OnlyOneBusy(s, i);
  }

  /**
   The overestimate a write leaves behind is the value read before minus the sends in progress
   now: what it was at the read, plus the releases that fell in between.
   */
  lemma OverestimateAfterWrite(p: Policy, s: State, i: nat)
    requires CounterInv(p, s) && Enabled(p, s, Write(i))
    ensures var s' := Apply(p, s, Write(i));
            s'.counter - Unfinished(s') == s.tasks[i].phase.active - Unfinished(s)
  {
    var k := s.tasks[i].phase.row;
    CountUpdate(Outstanding(), s.rows, k, s.rows[k].(stage := Admitted));
  }

  /** Moves that touch neither rows nor counter; a call that reads the counter is below the limit. */
  lemma CounterUntouched(p: Policy, s: State, m: Move)
    requires CounterInv(p, s) && Enabled(p, s, m)
    requires !m.Cleanup? && !m.Create? && !m.Write? && !m.Settle? && !m.Release?
    ensures CounterInv(p, Apply(p, s, m))
  {
    var s' := Apply(p, s, m);
    assert Unfinished(s') == Unfinished(s);
  }

  lemma CleanupKeepsStages(p: Policy, s: State, i: nat)
    requires CounterInv(p, s) && Enabled(p, s, Cleanup(i))
    ensures CounterInv(p, Apply(p, s, Cleanup(i)))
  {
    SweepCounts(Outstanding(), s.rows, s.clock - p.retentionDays * DAY);
  }

  lemma CreateKeepsCounter(p: Policy, s: State, i: nat)
    requires LockInv(s.tasks, s.tail) && CounterInv(p, s) && Enabled(p, s, Create(i))
    ensures CounterInv(p, Apply(p, s, Create(i)))
  {
    CountAppend(Outstanding(), s.rows, Row(s.tasks[i].phase.recipient, s.clock, Pending, Inserted, false));
  }

  lemma CounterStep(p: Policy, s: State, m: Move)
    requires LockInv(s.tasks, s.tail) && CounterInv(p, s) && Enabled(p, s, m)
    ensures CounterInv(p, Apply(p, s, m))
  {
    match m
    case Cleanup(i) => CleanupKeepsStages(p, s, i);
    case Create(i) => CreateKeepsCounter(p, s, i);
    case Write(i) => WriteStep(p, s, i);
    case Settle(r, ok) => RowsStep(p, s, r, s.rows[r].(status := if ok then Sent else Failed));
    case Release(r) => ReleaseStep(p, s, r);
    case _ => CounterUntouched(p, s, m);
  }

  /** Evaluation is mutually exclusive. */
  lemma OnlyOneBusy(s: State, i: nat)
    requires LockInv(s.tasks, s.tail) && i < |s.tasks| && Busy(s.tasks[i])
    ensures forall j :: 0 <= j < |s.tasks| && j != i ==> !Busy(s.tasks[j])
  {
    forall j | 0 <= j < |s.tasks| && j != i ensures !Busy(s.tasks[j]) {
      assert FinishedBefore(s.tasks, i);
      assert s.tasks[j].phase.Waiting? || FinishedBefore(s.tasks, j);
    }
  }

  // ---------------------------------------------------------------- window invariant

  ghost predicate WindowsHold(p: Policy, rows: seq<Row>) {
    forall l, recipient, lo, hi :: hi - lo <= Window(l) ==>
      Count(InWindow(l, recipient, lo, hi), rows) <= Maximum(p, l)
  }

  ghost predicate OldRowsOnlyPurged(rows: seq<Row>, now: int) {
    forall r :: r in rows && r.purged ==> r.requestedAt < now - DAY
  }

  /** The rows since the start of the call's window, deleted ones included, are below the limit. */
  ghost predicate PassedHolds(p: Policy, s: State, c: Phase)
    requires c.Checking?
  {
    && c.now <= s.clock && OldRowsOnlyPurged(s.rows, c.now)
    && forall l :: l in c.passed ==> Count(Queried(l, c.recipient, c.now - Window(l)), s.rows) < Maximum(p, l)
  }

  ghost predicate WindowInv(p: Policy, s: State) {
    && WindowsHold(p, s.rows)
    && OldRowsOnlyPurged(s.rows, s.clock)
    && forall i :: 0 <= i < |s.tasks| && s.tasks[i].phase.Checking? ==> PassedHolds(p, s, s.tasks[i].phase)
  }

  /** The row a call creates fits into every window, because its counts were taken earlier. */
  lemma CreateFits(p: Policy, s: State, c: Phase, l: Limit, recipient: string, lo: int, hi: int)
    requires c.Checking? && PassedHolds(p, s, c) && l in c.passed && hi - lo <= Window(l)
    requires Count(InWindow(l, recipient, lo, hi), s.rows) <= Maximum(p, l)
    ensures Count(InWindow(l, recipient, lo, hi), s.rows + [Row(c.recipient, s.clock, Pending, Inserted, false)])
         <= Maximum(p, l)
  {
    var row := Row(c.recipient, s.clock, Pending, Inserted, false);
    var f, g := InWindow(l, recipient, lo, hi), Queried(l, c.recipient, c.now - Window(l));
    CountAppend(f, s.rows, row);
    if f(row) {
      CountBound(f, g, s.rows);
    }
  }

  lemma CreateStep(p: Policy, s: State, i: nat)
    requires WindowInv(p, s) && Enabled(p, s, Create(i))
    ensures WindowsHold(p, Apply(p, s, Create(i)).rows)
  {
    var c := s.tasks[i].phase;
    forall l, recipient, lo, hi | hi - lo <= Window(l)
      ensures Count(InWindow(l, recipient, lo, hi), Apply(p, s, Create(i)).rows) <= Maximum(p, l)
    {
      assert l in ALL_LIMITS;
      CreateFits(p, s, c, l, recipient, lo, hi);
    }
  }

  /** A row change that makes nothing countable keeps every count at most where it was. */
  lemma UpdateStep(p: Policy, s: State, k: nat, r: Row)
    requires WindowInv(p, s) && k < |s.rows|
    requires r.recipient == s.rows[k].recipient && r.requestedAt == s.rows[k].requestedAt
    requires r.purged == s.rows[k].purged && (Countable(r.status) ==> Countable(s.rows[k].status))
    ensures WindowInv(p, s.(rows := s.rows[k := r]))
  {
    var s' := s.(rows := s.rows[k := r]);
    forall l, recipient, lo, hi | hi - lo <= Window(l)
      ensures Count(InWindow(l, recipient, lo, hi), s'.rows) <= Maximum(p, l)
    {
      CountUpdate(InWindow(l, recipient, lo, hi), s.rows, k, r);
    }
    forall q | q in s'.rows && q.purged ensures exists o :: o in s.rows && o.purged && o.requestedAt == q.requestedAt {
      var j :| 0 <= j < |s'.rows| && s'.rows[j] == q;
      assert s.rows[j] in s.rows;
    }
    forall i | 0 <= i < |s.tasks| && s.tasks[i].phase.Checking? ensures PassedHolds(p, s', s.tasks[i].phase) {
      var c := s.tasks[i].phase;
      assert PassedHolds(p, s, c);
      forall l | l in c.passed ensures Count(Queried(l, c.recipient, c.now - Window(l)), s'.rows) < Maximum(p, l) {
        CountUpdate(Queried(l, c.recipient, c.now - Window(l)), s.rows, k, r);
      }
    }
  }

  /** The hourly deletion changes no count over a window that starts at most a day back. */
  lemma CleanupIsNeutral(p: Policy, s: State, i: nat, l: Limit, recipient: string, from: int)
    requires p.retentionDays >= 1 && Enabled(p, s, Cleanup(i)) && from >= s.clock - Window(l)
    ensures Count(Queried(l, recipient, from), Apply(p, s, Cleanup(i)).rows)
        == Count(Queried(l, recipient, from), s.rows)
  {
    SweepCounts(Queried(l, recipient, from), s.rows, s.clock - p.retentionDays * DAY);
  }

  lemma CleanupStep(p: Policy, s: State, i: nat)
    requires p.retentionDays >= 1 && LockInv(s.tasks, s.tail) && WindowInv(p, s) && Enabled(p, s, Cleanup(i))
    ensures WindowInv(p, Apply(p, s, Cleanup(i)))
  {
    var before := s.clock - p.retentionDays * DAY;
    var s' := Apply(p, s, Cleanup(i));
    forall l, recipient, lo, hi | hi - lo <= Window(l)
      ensures Count(InWindow(l, recipient, lo, hi), s'.rows) <= Maximum(p, l)
    {
      SweepCounts(InWindow(l, recipient, lo, hi), s.rows, before);
    }
    forall q | q in s'.rows && q.purged ensures q.requestedAt < s.clock - DAY {
      var j :| 0 <= j < |s'.rows| && s'.rows[j] == q;
      assert s.rows[j] in s.rows;
    }
    OnlyOneBusy(s, i);
  }

  lemma CreateKeepsWindows(p: Policy, s: State, i: nat)
    requires LockInv(s.tasks, s.tail) && WindowInv(p, s) && Enabled(p, s, Create(i))
    ensures WindowInv(p, Apply(p, s, Create(i)))
  {
    CreateStep(p, s, i);
    OnlyOneBusy(s, i);
  }

  lemma WriteKeepsWindows(p: Policy, s: State, i: nat)
    requires LockInv(s.tasks, s.tail) && WindowInv(p, s) && Enabled(p, s, Write(i))
    ensures WindowInv(p, Apply(p, s, Write(i)))
  {
    var k := s.tasks[i].phase.row;
    UpdateStep(p, s, k, s.rows[k].(stage := Admitted));
    OnlyOneBusy(s, i);
  }

  /** What a call relies on is a matter of rows and clock, and lasts as the clock advances. */
  lemma LaterHolds(p: Policy, s: State, s': State, c: Phase)
    requires c.Checking? && PassedHolds(p, s, c) && s'.rows == s.rows && s.clock <= s'.clock
    ensures PassedHolds(p, s', c)
  {
  }

  lemma LaterWindows(p: Policy, s: State, s': State)
    requires WindowInv(p, s) && s'.rows == s.rows && s.clock <= s'.clock
    requires forall j :: 0 <= j < |s'.tasks| && s'.tasks[j].phase.Checking? ==> PassedHolds(p, s', s'.tasks[j].phase)
    ensures WindowInv(p, s')
  {
  }

  lemma TickKeepsWindows(p: Policy, s: State, t: int)
    requires WindowInv(p, s) && s.clock <= t
    ensures WindowInv(p, s.(clock := t))
  {
    forall j | 0 <= j < |s.tasks| && s.tasks[j].phase.Checking?
      ensures PassedHolds(p, s.(clock := t), s.tasks[j].phase)
    {
      LaterHolds(p, s, s.(clock := t), s.tasks[j].phase);
    }
    LaterWindows(p, s, s.(clock := t));
  }

  lemma TasksKeepWindows(p: Policy, s: State, s': State, i: nat)
    requires WindowInv(p, s) && s'.rows == s.rows && s'.clock == s.clock && |s'.tasks| >= |s.tasks|
    requires forall j :: 0 <= j < |s'.tasks| && j != i && s'.tasks[j].phase.Checking? ==>
               j < |s.tasks| && s'.tasks[j] == s.tasks[j]
    requires i < |s'.tasks| && s'.tasks[i].phase.Checking? ==> PassedHolds(p, s, s'.tasks[i].phase)
    ensures WindowInv(p, s')
  {
    forall j | 0 <= j < |s'.tasks| && s'.tasks[j].phase.Checking? ensures PassedHolds(p, s', s'.tasks[j].phase) {
      if j != i { assert PassedHolds(p, s, s.tasks[j].phase); }
      LaterHolds(p, s, s', s'.tasks[j].phase);
    }
    LaterWindows(p, s, s');
  }

  lemma PassKeepsHolds(p: Policy, s: State, i: nat, l: Limit)
    requires WindowInv(p, s) && Enabled(p, s, Pass(i, l))
    ensures PassedHolds(p, s, s.tasks[i].phase.(passed := s.tasks[i].phase.passed + {l}))
  {
    assert PassedHolds(p, s, s.tasks[i].phase);
  }

  lemma TasksOnly(p: Policy, s: State, m: Move)
    requires WindowInv(p, s) && Enabled(p, s, m)
    requires !m.Cleanup? && !m.Create? && !m.Write? && !m.Settle? && !m.Release?
    ensures WindowInv(p, Apply(p, s, m))
  {
    match m
    case Tick(t) => TickKeepsWindows(p, s, t);
    case Arrive => TasksKeepWindows(p, s, Apply(p, s, m), |s.tasks|);
    case Enter(i) => TasksKeepWindows(p, s, Apply(p, s, m), i);
    case ReadCounter(i, _) => TasksKeepWindows(p, s, Apply(p, s, m), i);
    case Pass(i, l) =>
      PassKeepsHolds(p, s, i, l);
      TasksKeepWindows(p, s, Apply(p, s, m), i);
    case Abandon(i) => TasksKeepWindows(p, s, Apply(p, s, m), i);
    case Leave(i) => TasksKeepWindows(p, s, Apply(p, s, m), i);
  }

  lemma RowsOnly(p: Policy, s: State, m: Move)
    requires WindowInv(p, s) && Enabled(p, s, m) && (m.Settle? || m.Release?)
    ensures WindowInv(p, Apply(p, s, m))
  {
    var q :=
      if m.Settle? then s.rows[m.r].(status := if m.ok then Sent else Failed)
      else s.rows[m.r].(stage := Released);
    UpdateStep(p, s, m.r, q);
    CounterIsNoWindow(p, s.(rows := s.rows[m.r := q]), Apply(p, s, m));
  }

  lemma CounterIsNoWindow(p: Policy, s: State, s': State)
    requires WindowInv(p, s) && s' == s.(counter := s'.counter)
    ensures WindowInv(p, s')
  {
    TasksKeepWindows(p, s, s', |s.tasks|);
  }

  lemma WindowStep(p: Policy, s: State, m: Move)
    requires p.retentionDays >= 1
    requires LockInv(s.tasks, s.tail) && WindowInv(p, s) && Enabled(p, s, m)
    ensures WindowInv(p, Apply(p, s, m))
  {
    match m
    case Cleanup(i) => CleanupStep(p, s, i);
    case Create(i) => CreateKeepsWindows(p, s, i);
    case Write(i) => WriteKeepsWindows(p, s, i);
    case Settle(_, _) => RowsOnly(p, s, m);
    case Release(_) => RowsOnly(p, s, m);
    case _ => TasksOnly(p, s, m);
  }

  // ---------------------------------------------------------------- theorems over runs

  ghost predicate Inv(p: Policy, s: State) {
    LockInv(s.tasks, s.tail) && CounterInv(p, s) && WindowInv(p, s)
  }

  lemma StepKeepsInv(p: Policy, s: State, m: Move)
    requires p.retentionDays >= 1 && Inv(p, s) && Enabled(p, s, m)
    ensures Inv(p, Apply(p, s, m))
  {
    LockStep(p, s, m);
    CounterStep(p, s, m);
    WindowStep(p, s, m);
  }

  lemma InitialInv(p: Policy)
    ensures Inv(p, INITIAL)
  {
  }

  lemma {:induction false} BehaviourInv(p: Policy, states: seq<State>, moves: seq<Move>, k: nat)
    requires p.retentionDays >= 1 && Behaviour(p, states, moves) && k < |states|
    ensures Inv(p, states[k])
  {
    if k == 0 {
      InitialInv(p);
    } else {
      BehaviourInv(p, states, moves, k - 1);
      StepKeepsInv(p, states[k - 1], moves[k - 1]);
    }
  }

  /** Lock and counter need nothing of the retention period. */
  lemma {:induction false} BehaviourLockCounter(p: Policy, states: seq<State>, moves: seq<Move>, k: nat)
    requires Behaviour(p, states, moves) && k < |states|
    ensures LockInv(states[k].tasks, states[k].tail) && CounterInv(p, states[k])
  {
    if k > 0 {
      BehaviourLockCounter(p, states, moves, k - 1);
      LockStep(p, states[k - 1], moves[k - 1]);
      CounterStep(p, states[k - 1], moves[k - 1]);
    }
  }

  /** At every moment at most one call of `begin` is evaluating, and calls enter in order of arrival. */
  lemma MutualExclusion(p: Policy, states: seq<State>, moves: seq<Move>, k: nat)
    requires Behaviour(p, states, moves) && k < |states|
    ensures var tasks := states[k].tasks;
            forall i, j :: 0 <= i < j < |tasks| && !tasks[j].phase.Waiting? ==> tasks[i].phase.Finished?
  {
    BehaviourLockCounter(p, states, moves, k);
    var tasks := states[k].tasks;
    forall i, j | 0 <= i < j < |tasks| && !tasks[j].phase.Waiting? ensures tasks[i].phase.Finished? {
      assert FinishedBefore(tasks, j);
    }
  }

  /** The lock is never lost: while a call is unfinished, some call is evaluating or may enter. */
  lemma LockIsLive(p: Policy, states: seq<State>, moves: seq<Move>, k: nat, i: nat)
    requires Behaviour(p, states, moves) && k < |states|
    requires i < |states[k].tasks| && !states[k].tasks[i].phase.Finished?
    ensures exists j :: 0 <= j <= i && (Busy(states[k].tasks[j]) || MayEnter(states[k].tasks, j))
  {
    BehaviourLockCounter(p, states, moves, k);
    FirstUnfinished(states[k].tasks, states[k].tail, i);
  }

  lemma {:induction false} FirstUnfinished(tasks: seq<Task>, tail: Option<nat>, i: nat)
    requires LockInv(tasks, tail) && i < |tasks| && !tasks[i].phase.Finished?
    ensures exists j :: 0 <= j <= i && (Busy(tasks[j]) || MayEnter(tasks, j))
  {
    if k :| 0 <= k < i && !tasks[k].phase.Finished? {
      FirstUnfinished(tasks, tail, k);
    } else {
      if tasks[i].previous.Some? { DoneMeansResolved(tasks, tail, tasks[i].previous.value); }
      assert Busy(tasks[i]) || MayEnter(tasks, i);
    }
  }

  /**
   The counter never underestimates the sends in progress and never exceeds the limit, even
   when releases fall between its read and its write.  It can overestimate, by at most
   maxConcurrentSends - 1: once nothing is in progress a new call gets past it.
   */
  lemma CounterBounds(p: Policy, states: seq<State>, moves: seq<Move>, k: nat)
    requires Behaviour(p, states, moves) && k < |states|
    ensures Unfinished(states[k]) <= states[k].counter <= p.maxConcurrentSends
    ensures p.maxConcurrentSends >= 1 && Unfinished(states[k]) == 0 ==> states[k].counter < p.maxConcurrentSends
  {
    BehaviourLockCounter(p, states, moves, k);
  }

  /** Every closed window of the whole run, rows deleted since included, respects all four limits. */
  lemma SlidingWindows(p: Policy, states: seq<State>, moves: seq<Move>, k: nat,
                       l: Limit, recipient: string, lo: int, hi: int)
    requires p.retentionDays >= 1 && Behaviour(p, states, moves) && k < |states|
    requires hi - lo <= Window(l)
    ensures Count(InWindow(l, recipient, lo, hi), states[k].rows) <= Maximum(p, l)
  {
    BehaviourInv(p, states, moves, k);
  }

  // ---------------------------------------------------------------- what a check counts

  /** Rows still stored that were requested since `from` and have not failed. */
  function Since(from: int): Row -> bool {
    (r: Row) => !r.purged && !r.status.Failed? && from <= r.requestedAt
  }

  function SinceTo(recipient: string, from: int): Row -> bool {
    (r: Row) => !r.purged && !r.status.Failed? && from <= r.requestedAt && r.recipient == recipient
  }

  /** One of the four checks at a given time, for the rows there are then. */
  predicate HasRoom(p: Policy, l: Limit, recipient: string, now: int, rows: seq<Row>) {
    match l
    case InstanceMinute => Count(Since(now - 60_000), rows) < p.instancePerMinute
    case InstanceDay => Count(Since(now - 86_400_000), rows) < p.instancePerDay
    case RecipientMinute => Count(SinceTo(recipient, now - 60_000), rows) < p.recipientPerMinute
    case RecipientDay => Count(SinceTo(recipient, now - 86_400_000), rows) < p.recipientPerDay
  }

  lemma SameCount(f: Row -> bool, g: Row -> bool, rows: seq<Row>)
    requires forall r :: f(r) <==> g(r)
    ensures Count(f, rows) == Count(g, rows)
  {
    CountBound(f, g, rows);
    CountBound(g, f, rows);
  }

  lemma CheckCounts(p: Policy, l: Limit, recipient: string, now: int, rows: seq<Row>)
    ensures Count(Queried(l, recipient, now - Window(l)), rows) < Maximum(p, l) <==> HasRoom(p, l, recipient, now, rows)
  {
    SameCount(Queried(l, recipient, now - Window(l)),
              if l.InstanceMinute? || l.InstanceDay? then Since(now - Window(l))
              else SinceTo(recipient, now - Window(l)), rows);
  }

  // ---------------------------------------------------------------- retry hints

  /** `retryAfterWindow`, in seconds, for the oldest row that was counted. */
  function RetryAfterWindow(oldest: Option<int>, windowMs: int, now: int): int {
    match oldest
    case None => CeilDiv(windowMs, 1000)
    case Some(t) => var s := CeilDiv(t + windowMs - now, 1000); if s > 1 then s else 1
  }

  /**
   The hint is the least whole number of seconds, at least 1, after which the oldest row is a
   full window old.  The count still includes a row exactly a window old, so the row has left
   it by then exactly when the remaining time is not a whole number of seconds.
   */
  lemma RetryHintIsLeast(oldest: int, windowMs: int, now: int, wait: int)
    requires now - windowMs <= oldest
    ensures var whole := RetryAfterWindow(None, windowMs, now); 1000 * (whole - 1) < windowMs <= 1000 * whole
    ensures var hint := RetryAfterWindow(Some(oldest), windowMs, now);
            && hint >= 1 && (wait >= 1 ==> (oldest + windowMs <= now + wait * 1000 <==> wait >= hint))
            && (oldest < now + hint * 1000 - windowMs
                <==> oldest + windowMs == now || (oldest + windowMs - now) % 1000 != 0)
  {
    var rest := oldest + windowMs - now;
    assert rest >= 0;
    assert -rest == 1000 * ((-rest) / 1000) + (-rest) % 1000;
  }

  // ---------------------------------------------------------------- the service

  /** The module-level maps and the audit table, keyed by instance. */
  class OutboundSafetyService {
    const policy: Policy
    var clock: int
    var calls: map<string, seq<Task>>
    var beginLocks: map<string, nat>
    var inFlight: map<string, nat>
    var lastCleanup: map<string, int>
    var audit: map<string, seq<Row>>

    function View(id: string): State
      reads this
    {
      State(clock,
            if id in calls then calls[id] else [],
            if id in beginLocks then Some(beginLocks[id]) else None,
            if id in inFlight then inFlight[id] else 0,
            if id in lastCleanup then Some(lastCleanup[id]) else None,
            if id in audit then audit[id] else [])
    }

    constructor (policy: Policy)
      ensures this.policy == policy && forall id :: View(id) == INITIAL
    {
      this.policy := policy;
      clock, calls, beginLocks, inFlight, lastCleanup, audit := 0, map[], map[], map[], map[], map[];
    }

    /** The synchronous start of `begin`: remember the previous promise, store one's own. */
    method Begin(id: string) returns (call: nat)
      modifies this
      ensures call == |old(View(id)).tasks|
      ensures View(id) == Apply(policy, old(View(id)), Arrive)
      ensures forall other :: other != id ==> View(other) == old(View(other))
    {
      var tasks := View(id).tasks;
      var previous := View(id).tail;
      call := |tasks|;
      calls := calls[id := tasks + [Task(previous, Waiting)]];
      beginLocks := beginLocks[id := call];
    }

    method SetPhase(id: string, call: nat, phase: Phase)
      requires call < |View(id).tasks|
      modifies this`calls
      ensures View(id) == WithPhase(old(View(id)), call, phase)
      ensures forall other :: other != id ==> View(other) == old(View(other))
    {
      calls := calls[id := calls[id][call := calls[id][call].(phase := phase)]];
    }

    /** `await previous` returns. */
    method Resume(id: string, call: nat)
      requires Enabled(policy, View(id), Enter(call))
      modifies this
      ensures View(id) == Apply(policy, old(View(id)), Enter(call))
      ensures forall other :: other != id ==> View(other) == old(View(other))
    {
      SetPhase(id, call, Evaluating);
    }

    /** `cleanup`: at most hourly, drop the rows past the retention period. */
    method CleanupAudit(id: string, call: nat)
      requires call < |View(id).tasks| && View(id).tasks[call].phase.Evaluating?
      modifies this
      ensures View(id) == if Enabled(policy, old(View(id)), Cleanup(call))
                          then Apply(policy, old(View(id)), Cleanup(call)) else old(View(id))
      ensures forall other :: other != id ==> View(other) == old(View(other))
    {
      if id in lastCleanup && clock - lastCleanup[id] < HOUR { return; }
      lastCleanup := lastCleanup[id := clock];
      if id in audit {
        audit := audit[id := Sweep(audit[id], clock - policy.retentionDays * DAY)];
      }
    }

    /** The concurrency check; `now` is taken in the same synchronous stretch. */
    method CheckConcurrency(id: string, call: nat, recipient: string) returns (ok: bool)
      requires call < |View(id).tasks| && View(id).tasks[call].phase.Evaluating?
      modifies this
      ensures ok == (old(View(id)).counter < policy.maxConcurrentSends)
      ensures View(id) == Apply(policy, old(View(id)), if ok then ReadCounter(call, recipient) else Abandon(call))
      ensures forall other :: other != id ==> View(other) == old(View(other))
    {
      var active := if id in inFlight then inFlight[id] else 0;
      ok := active < policy.maxConcurrentSends;
      SetPhase(id, call, if ok then Checking(active, clock, recipient, {}) else Leaving);
    }

    /** One of the four count queries, and the comparison with its limit. */
    method CheckLimit(id: string, call: nat, l: Limit) returns (ok: bool)
      requires call < |View(id).tasks| && View(id).tasks[call].phase.Checking?
      modifies this
      ensures ok == Enabled(policy, old(View(id)), Pass(call, l))
      ensures var c := old(View(id)).tasks[call].phase;
              ok <==> HasRoom(policy, l, c.recipient, c.now, old(View(id)).rows)
      ensures View(id) == Apply(policy, old(View(id)), if ok then Pass(call, l) else Abandon(call))
      ensures forall other :: other != id ==> View(other) == old(View(other))
    {
      var c := View(id).tasks[call].phase;
      CheckCounts(policy, l, c.recipient, c.now, View(id).rows);
      ok := Count(Queried(l, c.recipient, c.now - Window(l)), View(id).rows) < Maximum(policy, l);
      SetPhase(id, call, if ok then c.(passed := c.passed + {l}) else Leaving);
    }

    /** The audit row is created, then the counter is set from the value read before. */
    method CreateRow(id: string, call: nat)
      requires Enabled(policy, View(id), Create(call))
      modifies this
      ensures View(id) == Apply(policy, old(View(id)), Create(call))
      ensures forall other :: other != id ==> View(other) == old(View(other))
    {
      var c, rows := View(id).tasks[call].phase, View(id).rows;
      SetPhase(id, call, Created(c.active, |rows|));
      audit := audit[id := rows + [Row(c.recipient, clock, Pending, Inserted, false)]];
    }

    method WriteCounter(id: string, call: nat)
      requires Enabled(policy, View(id), Write(call))
      modifies this
      ensures View(id) == Apply(policy, old(View(id)), Write(call))
      ensures forall other :: other != id ==> View(other) == old(View(other))
    {
      var c := View(id).tasks[call].phase;
      SetPhase(id, call, Leaving);
      audit := audit[id := audit[id][c.row := audit[id][c.row].(stage := Admitted)]];
      inFlight := inFlight[id := c.active + 1];
    }

    /** The `finally` of `begin`: unlock, and drop the promise if it is still the last one. */
    method Unlock(id: string, call: nat)
      requires Enabled(policy, View(id), Leave(call))
      modifies this
      ensures View(id) == Apply(policy, old(View(id)), Leave(call))
      ensures forall other :: other != id ==> View(other) == old(View(other))
    {
      SetPhase(id, call, Finished);
      if id in beginLocks && beginLocks[id] == call {
        beginLocks := beginLocks - {id};
      }
    }

    /** The audit update of `sent` and `failed`. */
    method RecordOutcome(id: string, r: nat, ok: bool)
      requires Enabled(policy, View(id), Settle(r, ok))
      modifies this
      ensures View(id) == Apply(policy, old(View(id)), Settle(r, ok))
      ensures forall other :: other != id ==> View(other) == old(View(other))
    {
      audit := audit[id := audit[id][r := audit[id][r].(status := if ok then Sent else Failed)]];
    }

    /** `release`, in the `finally` of `sent` and `failed`. */
    method ReleaseSlot(id: string, r: nat)
      requires Enabled(policy, View(id), Release(r))
      modifies this
      ensures View(id) == Apply(policy, old(View(id)), Release(r))
      ensures forall other :: other != id ==> View(other) == old(View(other))
    {
      var active := if id in inFlight then inFlight[id] else 0;
      audit := audit[id := audit[id][r := audit[id][r].(stage := Released)]];
      if active <= 1 {
        inFlight := inFlight - {id};
      } else {
        inFlight := inFlight[id := active - 1];
      }
    }
  }
}
