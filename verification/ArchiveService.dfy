/** The archive service: its rows, its capture and purge transactions, and `verify`. */
module ArchiveService {
  import opened Strings
  import opened Sequences
  import opened JsonText
  import opened JsonValues
  import opened ArchiveChain
  import opened ArchivePurge
  import opened ArchiveDerived
  import opened CaptureRules
  import opened PurgeCriteria
  import Policies = ArchivePolicy

  // ---------------------------------------------------------------- whole-archive runs

  datatype State = State(store: Store, tables: Tables)

  datatype Action =
    | CaptureAction(o: Observation, eventId: string, newId: string, retain: bool)
    | PurgeAction(selected: Event -> bool, id: string, jobId: string, criteriaHash: string, media: nat)

  /** What a purge reports it removed from each table. */
  function PurgeCounts(before: Tables, after: Tables, media: nat): Counts
    requires |after.messages| <= |before.messages| && |after.revisions| <= |before.revisions|
    requires |after.receipts| <= |before.receipts| && |after.reactions| <= |before.reactions|
    requires |after.entities| <= |before.entities| && |after.memberships| <= |before.memberships|
    requires |after.calls| <= |before.calls| && |after.syncGaps| <= |before.syncGaps|
  {
    Counts(media,
           |before.messages| - |after.messages|,
           |before.revisions| - |after.revisions|,
           |before.receipts| - |after.receipts|,
           |before.reactions| - |after.reactions|,
           |before.entities| - |after.entities|,
           |before.memberships| - |after.memberships|,
           |before.calls| - |after.calls|,
           |before.syncGaps| - |after.syncGaps|)
  }

  lemma PurgeShrinks(t: Tables, gone: set<string>)
    ensures var r := PurgeDerived(t, gone);
            && |r.messages| <= |t.messages| && |r.revisions| <= |t.revisions|
            && |r.receipts| <= |t.receipts| && |r.reactions| <= |t.reactions|
            && |r.entities| <= |t.entities| && |r.memberships| <= |t.memberships|
            && |r.calls| <= |t.calls| && |r.syncGaps| <= |t.syncGaps|
  {
    var orphans := Orphans(t, gone);
    FilterSizes((m: Message) => m.id !in orphans, t.messages);
    FilterSizes((r: Revision) => r.eventId !in gone, t.revisions);
    var f := (r: Row) => r.eventId !in gone;
    FilterSizes(f, t.receipts);
    FilterSizes(f, t.reactions);
    FilterSizes(f, t.entities);
    FilterSizes(f, t.memberships);
    FilterSizes(f, t.calls);
    FilterSizes(f, t.syncGaps);
  }

  function AfterCapture(env: Env, s: State, o: Observation, eventId: string, newId: string, retain: bool): State {
    State(Capture(env, s.store, o, eventId, retain),
          if retain then CaptureDerived(s.tables, o, eventId, newId) else s.tables)
  }

  function AfterPurge(env: Env, s: State, selected: Event -> bool, id: string, jobId: string,
                      criteriaHash: string, media: nat): State
  {
    var gone := IdsOf(Filter(selected, s.store.events));
    PurgeShrinks(s.tables, gone);
    var tables := PurgeDerived(s.tables, gone);
    State(Purge(env, s.store, selected, id, jobId, criteriaHash, PurgeCounts(s.tables, tables, media)), tables)
  }

  function Next(env: Env, s: State, a: Action): State {
    match a
    case CaptureAction(o, eventId, newId, retain) => AfterCapture(env, s, o, eventId, newId, retain)
    case PurgeAction(f, id, jobId, hash, media) => AfterPurge(env, s, f, id, jobId, hash, media)
  }

  /** The generated ids are new. */
  ghost predicate Fresh(s: State, a: Action) {
    a.CaptureAction? ==>
      && (forall e :: e in s.store.events ==> e.id != a.eventId)
      && (forall m :: m in s.tables.messages ==> m.id != a.newId)
  }

  ghost predicate Consistent(env: Env, s: State, log: seq<Event>) {
    && Inv(env, s.store, log)
    && DistinctIds(s.store.events)
    && Sound(s.tables, RetainedIds(s.store.events))
  }

  lemma AddedIds(events: seq<Event>, e: Event)
    requires DistinctIds(events) && forall f :: f in events ==> f.id != e.id
    ensures DistinctIds(events + [e])
    ensures RetainedIds(events + [e]) == RetainedIds(events) + if e.excluded then {} else {e.id}
  {
  }

  lemma CaptureConsistent(env: Env, s: State, log: seq<Event>, o: Observation, eventId: string,
                          newId: string, retain: bool)
    requires Consistent(env, s, log) && Fresh(s, CaptureAction(o, eventId, newId, retain))
    ensures Consistent(env, AfterCapture(env, s, o, eventId, newId, retain),
                       log + [NextEvent(env, s.store, o, eventId, retain)])
  {
    CaptureKeepsInv(env, s.store, log, o, eventId, retain);
    AddedIds(s.store.events, NextEvent(env, s.store, o, eventId, retain));
    if retain {
      CaptureKeepsSound(s.tables, RetainedIds(s.store.events), o, eventId, newId);
    }
  }

  lemma PurgeConsistent(env: Env, s: State, log: seq<Event>, selected: Event -> bool, id: string,
                        jobId: string, criteriaHash: string, media: nat)
    requires Faithful(env) && Consistent(env, s, log)
    ensures Consistent(env, AfterPurge(env, s, selected, id, jobId, criteriaHash, media), log)
  {
    var gone := IdsOf(Filter(selected, s.store.events));
    PurgeShrinks(s.tables, gone);
    PurgeKeepsInv(env, s.store, log, selected, id, jobId, criteriaHash,
                  PurgeCounts(s.tables, PurgeDerived(s.tables, gone), media));
    FilterDistinctIds(e => !selected(e), s.store.events);
    PurgedIds(s.store.events, selected);
    PurgeKeepsSound(s.tables, RetainedIds(s.store.events), gone);
  }

  /** What the tombstone of a purge says: its job, its criteria, and how many rows each table lost. */
  lemma TombstoneReports(env: Env, s: State, log: seq<Event>, selected: Event -> bool, id: string, jobId: string,
                         criteriaHash: string, media: nat)
    requires Faithful(env) && Chained(env, log) && forall e :: e in s.store.events ==> Logged(log, e)
    ensures var s' := AfterPurge(env, s, selected, id, jobId, criteriaHash, media);
            |s'.store.tombstones| == |s.store.tombstones| + 1
            && Tells(s'.store.tombstones[|s.store.tombstones|], s, s', id, jobId, criteriaHash, media)
  {
    var gone := IdsOf(Filter(selected, s.store.events));
    var tables := PurgeDerived(s.tables, gone);
    PurgeShrinks(s.tables, gone);
    var counts := PurgeCounts(s.tables, tables, media);
    PurgeReports(env, s.store, log, selected, id, jobId, criteriaHash, counts);
    var store := Purge(env, s.store, selected, id, jobId, criteriaHash, counts);
    CountsTell(Denote(store.tombstones[|s.store.tombstones|].deletedSummary), s.tables, tables, media,
               |s.store.events| - |store.events|);
  }

  /** How many rows each table has lost, under the names of the summary. */
  predicate Lost(v: Value, a: Tables, b: Tables, media: nat, events: int) {
    && Reports(v, "events", events) && Reports(v, "media", media)
    && Reports(v, "messages", |a.messages| - |b.messages|)
    && Reports(v, "messageRevisions", |a.revisions| - |b.revisions|)
    && Reports(v, "receipts", |a.receipts| - |b.receipts|) && Reports(v, "reactions", |a.reactions| - |b.reactions|)
    && Reports(v, "entityRevisions", |a.entities| - |b.entities|)
    && Reports(v, "memberships", |a.memberships| - |b.memberships|)
    && Reports(v, "calls", |a.calls| - |b.calls|) && Reports(v, "syncGaps", |a.syncGaps| - |b.syncGaps|)
  }

  lemma CountsTell(v: Value, a: Tables, b: Tables, media: nat, events: int)
    requires |b.messages| <= |a.messages| && |b.revisions| <= |a.revisions|
    requires |b.receipts| <= |a.receipts| && |b.reactions| <= |a.reactions|
    requires |b.entities| <= |a.entities| && |b.memberships| <= |a.memberships|
    requires |b.calls| <= |a.calls| && |b.syncGaps| <= |a.syncGaps|
    requires ReportsAll(v, PurgeCounts(a, b, media), events)
    ensures Lost(v, a, b, media, events)
  {
  }

  ghost predicate Tells(t: Tombstone, s: State, s': State, id: string, jobId: string, criteriaHash: string, media: nat)
  {
    && t.id == id && t.purgeJobId == jobId && t.criteriaHash == criteriaHash
    && t.previousHash == (if s.store.tombstones == [] then None
                          else Some(s.store.tombstones[|s.store.tombstones| - 1].tombstoneHash))
    && Lost(Denote(t.deletedSummary), s.tables, s'.tables, media, |s.store.events| - |s'.store.events|)
  }

  /** The states after 0, 1, 2, ... actions. */
  ghost predicate Behaviour(env: Env, states: seq<State>, actions: seq<Action>) {
    && |states| == |actions| + 1
    && states[0] == State(Store(0, None, [], []), NO_ROWS)
    && forall i :: 0 <= i < |actions| ==>
         Fresh(states[i], actions[i]) && states[i + 1] == Next(env, states[i], actions[i])
  }

  lemma {:induction false} BehaviourConsistent(env: Env, states: seq<State>, actions: seq<Action>, i: nat)
    returns (log: seq<Event>)
    requires Faithful(env) && Behaviour(env, states, actions) && i < |states|
    ensures Consistent(env, states[i], log)
  {
    if i == 0 {
      log := [];
      EmptyInv(env);
    } else {
      log := BehaviourConsistent(env, states, actions, i - 1);
      var s := states[i - 1];
      match actions[i - 1]
      case CaptureAction(o, eventId, newId, retain) =>
        CaptureConsistent(env, s, log, o, eventId, newId, retain);
        log := log + [NextEvent(env, s.store, o, eventId, retain)];
      case PurgeAction(f, id, jobId, hash, media) =>
        PurgeConsistent(env, s, log, f, id, jobId, hash, media);
    }
  }

  /**
   At every moment of every run: `verify` accepts, and each history row refers to a retained
   event; message rows exist exactly while they have revisions, whose numbers are unique and
   bounded by the latest revision.
   */
  lemma ArchiveSafety(env: Env, states: seq<State>, actions: seq<Action>, i: nat)
    requires Faithful(env) && Behaviour(env, states, actions) && i < |states|
    ensures Accepts(env, states[i].store)
    ensures Sound(states[i].tables, RetainedIds(states[i].store.events))
  {
    var log := BehaviourConsistent(env, states, actions, i);
    InvAccepted(env, states[i].store, log);
  }

  // ---------------------------------------------------------------- the service

  datatype Preview = Preview(criteria: Criteria, document: Json, confirmationHash: string, expiresAt: int)

  datatype PurgeOutcome =
    | PreviewNotFound
    | PreviewExpired
    | InvalidToken
    | AlreadyConsumed
    | ObjectDeletionFailed
    | Completed(tombstone: Tombstone)

  /** Why a confirmation is refused: the first check that fails. */
  function Refusal(previews: map<string, Preview>, consumed: set<string>, previewId: string, tokenHash: string,
                   now: int)
    : Option<PurgeOutcome>
  {
    if previewId !in previews then Some(PreviewNotFound)
    else if previews[previewId].expiresAt <= now then Some(PreviewExpired)
    else if previews[previewId].confirmationHash != tokenHash then Some(InvalidToken)
    else if previewId in consumed then Some(AlreadyConsumed)
    else None
  }

  /** Each refusal has its one reason: unknown, then out of time, then the wrong token, then used before. */
  lemma RefusalIff(previews: map<string, Preview>, consumed: set<string>, id: string, tokenHash: string, now: int)
    ensures var r := Refusal(previews, consumed, id, tokenHash, now);
            && (r == Some(PreviewNotFound) <==> id !in previews)
            && (r == Some(PreviewExpired) <==> id in previews && now >= previews[id].expiresAt)
            && (r == Some(InvalidToken)
                <==> id in previews && now < previews[id].expiresAt && previews[id].confirmationHash != tokenHash)
            && (r == Some(AlreadyConsumed)
                <==> id in previews && now < previews[id].expiresAt && previews[id].confirmationHash == tokenHash
                     && id in consumed)
            && (r == None
                <==> id in previews && now < previews[id].expiresAt && previews[id].confirmationHash == tokenHash
                     && id !in consumed)
  {
  }

  datatype Verdict =
    | Verified(checkedEvents: nat, checkedTombstones: nat, head: Option<string>, tombstoneHead: Option<string>)
    | FailedTombstone(id: string)
    | FailedEvent(sequence: int)
    | UncoveredGap(sequence: int)
    | HeadMismatch(sequence: int)
    | Threw

  /** A deleted range as the service builds it, with its ends printed. */
  datatype RangeText = RangeText(start: string, end: string, previousHash: Option<string>, lastHash: string)

  function TextOf(s: Segment): RangeText {
    RangeText(Signed(s.start), Signed(s.end), s.previousHash, s.lastHash)
  }

  function TextsOf(ranges: seq<Segment>): seq<RangeText> {
    seq(|ranges|, i requires 0 <= i < |ranges| => TextOf(ranges[i]))
  }

  lemma TextsAdd(ranges: seq<Segment>, e: Event)
    ensures var n := |ranges|;
            TextsOf(AddToRanges(ranges, e)) ==
              if n > 0 && ranges[n - 1].end + 1 == e.sequence then
                TextsOf(ranges)[n - 1 := TextOf(ranges[n - 1]).(end := Signed(e.sequence), lastHash := e.recordHash)]
              else TextsOf(ranges) + [TextOf(RetainedSegment(e))]
  {
  }

  lemma RangesStep(events: seq<Event>, i: nat)
    requires i < |events|
    ensures Ranges(events[..i + 1]) == AddToRanges(Ranges(events[..i]), events[i])
  {
    assert events[..i + 1][..i] == events[..i];
  }

  /** The printed end of the last range reads back as its number. */
  lemma LastEnd(ranges: seq<Segment>)
    requires ranges != []
    ensures var end := TextsOf(ranges)[|ranges| - 1].end;
            IsNumeral(end) && BigIntOf(end) == ranges[|ranges| - 1].end
  {
    SignedRoundTrip(ranges[|ranges| - 1].end);
  }

  method DeletedRanges(events: seq<Event>) returns (ranges: seq<RangeText>)
    ensures ranges == TextsOf(Ranges(events))
  {
    ranges := [];
    for i := 0 to |events|
      invariant ranges == TextsOf(Ranges(events[..i]))
    {
      ghost var segments := Ranges(events[..i]);
      var event, n := events[i], |ranges|;
      RangesStep(events, i);
      TextsAdd(segments, event);
      if n > 0 { LastEnd(segments); }
      if n > 0 && BigIntOf(ranges[n - 1].end) + 1 == event.sequence {
        ranges := ranges[n - 1 := ranges[n - 1].(end := Signed(event.sequence), lastHash := event.recordHash)];
      } else {
        ranges := ranges + [RangeText(Signed(event.sequence), Signed(event.sequence),
                                      event.previousHash, event.recordHash)];
      }
    }
    assert events[..|events|] == events;
  }

  lemma ShorterAuthentic(env: Env, ts: seq<Tombstone>, i: nat)
    requires i <= |ts| && TombstonesAuthentic(env, ts)
    ensures TombstonesAuthentic(env, ts[..i])
  {
    var q := ts[..i];
    forall j | 0 <= j < |q| ensures AuthenticAt(env, q, j) {
      assert q[..j] == ts[..j] && AuthenticAt(env, ts, j);
    }
  }

  lemma AuthenticPrefix(env: Env, ts: seq<Tombstone>, i: nat)
    requires i < |ts|
    ensures TombstonesAuthentic(env, ts[..i + 1]) <==> TombstonesAuthentic(env, ts[..i]) && AuthenticAt(env, ts, i)
    ensures TombstonesAuthentic(env, ts) ==> AuthenticAt(env, ts, i)
  {
    var q, r := ts[..i], ts[..i + 1];
    assert r[..i] == q && r == q + [ts[i]];
    if TombstonesAuthentic(env, r) {
      ShorterAuthentic(env, r, i);
      assert AuthenticAt(env, r, i);
    }
    if TombstonesAuthentic(env, q) && AuthenticAt(env, ts, i) { AppendAuthentic(env, q, ts[i]); }
  }

  lemma DeletedStep(ts: seq<Tombstone>, i: nat)
    requires i < |ts|
    ensures DeletedSegments(ts[..i + 1]) == DeletedSegments(ts[..i]) + TombstoneSegments(ts[i])
    ensures TombstoneHead(ts[..i + 1]) == Some(ts[i].tombstoneHash)
  {
    assert ts[..i + 1][..i] == ts[..i];
  }

  lemma ParseStep(vs: seq<Value>, j: nat, s: Segment)
    requires j < |vs| && ParseRange(vs[j]) == Some(s)
    ensures ParseRanges(vs[..j + 1]) == ParseRanges(vs[..j]) + [s]
  {
    assert vs[..j + 1] == vs[..j] + [vs[j]];
    ParseAppend(vs[..j], vs[j], s);
  }

  lemma AcceptsIff(env: Env, s: Store)
    ensures Accepts(env, s)
       <==> && TombstonesAuthentic(env, s.tombstones) && EventsAuthentic(env, s.events)
            && WalkChain(SortByStart(Segments(s)), 1, None) == Reached(s.lastSequence + 1, s.headHash)
  {
    SegmentsProper(s);
    ChainCheckIff(Segments(s), s.lastSequence, s.headHash);
  }

  ghost predicate FirstBadEvent(env: Env, events: seq<Event>, i: int) {
    && 0 <= i < |events| && events[i].recordHash != env.digest(RecordText(env, events[i]))
    && EventsAuthentic(env, events[..i])
  }

  ghost predicate FirstBadTombstone(env: Env, ts: seq<Tombstone>, i: int) {
    && 0 <= i < |ts| && !AuthenticAt(env, ts, i)
    && TombstonesAuthentic(env, ts[..i])
  }

  /** A verdict names the first thing that is wrong: tombstones first, then events, then the chain. */
  ghost predicate Explains(env: Env, s: Store, v: Verdict) {
    match v
    case Verified(_, _, _, _) => Accepts(env, s)
    case FailedTombstone(id) => exists i :: FirstBadTombstone(env, s.tombstones, i) && id == s.tombstones[i].id
    case Threw => exists i :: FirstBadTombstone(env, s.tombstones, i)
    case FailedEvent(sequence) =>
      && TombstonesAuthentic(env, s.tombstones)
      && exists i :: FirstBadEvent(env, s.events, i) && sequence == s.events[i].sequence
    case UncoveredGap(sequence) =>
      && TombstonesAuthentic(env, s.tombstones) && EventsAuthentic(env, s.events)
      && WalkChain(SortByStart(Segments(s)), 1, None) == Stuck(sequence)
    case HeadMismatch(sequence) =>
      && TombstonesAuthentic(env, s.tombstones) && EventsAuthentic(env, s.events)
      && var walk := WalkChain(SortByStart(Segments(s)), 1, None);
         walk.Reached? && walk.next == sequence && walk != Reached(s.lastSequence + 1, s.headHash)
  }

  /** One more event at the end, with the fields of the observation, chained to the head; it is the new head. */
  predicate Continues(s: State, s': State, o: Observation, id: string, excluded: bool) {
    var was, now := s.store, s'.store;
    var n := |was.events|;
    && |now.events| == n + 1 && now.events[..n] == was.events
    && now.events[n] == Event(id, was.lastSequence + 1, o.eventType, o.entityJid, o.occurredAt, o.payloadHash,
                              was.headHash, now.events[n].recordHash, excluded)
    && now.lastSequence == was.lastSequence + 1 && now.headHash == Some(now.events[n].recordHash)
    && now.tombstones == was.tombstones && (excluded ==> s'.tables == s.tables)
  }

  lemma CaptureContinues(env: Env, s: State, o: Observation, eventId: string, newId: string, retain: bool)
    ensures Continues(s, AfterCapture(env, s, o, eventId, newId, retain), o, eventId, !retain)
  {
  }

  class ArchiveService {
    const env: Env
    const defaultPolicy: Policies.Tree
    var lastSequence: int
    var headHash: Option<string>
    var events: seq<Event>
    var tombstones: seq<Tombstone>
    var tables: Tables
    var previews: map<string, Preview>
    var consumed: set<string>  // previews that have a purge job
    ghost var log: seq<Event>  // every event ever captured

    ghost function Rows(): State
      reads `lastSequence, `headHash, `events, `tombstones, `tables
    {
      State(Store(lastSequence, headHash, events, tombstones), tables)
    }

    ghost predicate Valid()
      reads `lastSequence, `headHash, `events, `tombstones, `tables, `log
    {
      Faithful(env) && defaultPolicy.Node? && Consistent(env, Rows(), log)
    }

    constructor (env: Env, defaultPolicy: Policies.Tree)
      requires Faithful(env) && defaultPolicy.Node?
      ensures Valid() && this.env == env && log == [] && consumed == {}
      ensures Rows() == State(Store(0, None, [], []), NO_ROWS)
    {
      this.env := env;
      this.defaultPolicy := defaultPolicy;
      lastSequence, headHash, events, tombstones := 0, None, [], [];
      tables, previews, consumed, log := NO_ROWS, map[], {}, [];
      new;
      EmptyInv(env);
    }

    /** `capture`: decide by policy, then append under the advisory lock. */
    method Capture(o: Observation, direction: string, instanceName: string, inForce: seq<Policies.Policy>,
                   eventId: string, newId: string)
      requires Valid() && forall p :: p in inForce ==> p.document.Node?
      requires Fresh(Rows(), CaptureAction(o, eventId, newId,
                                           Keeps(defaultPolicy, inForce, TargetOf(env.accountId, instanceName, o),
                                                 o, direction)))
      modifies this
      ensures Valid()
      ensures var retain := Keeps(defaultPolicy, inForce, TargetOf(env.accountId, instanceName, o), o, direction);
              && Rows() == AfterCapture(env, old(Rows()), o, eventId, newId, retain)
              && log == old(log) + [NextEvent(env, old(Rows()).store, o, eventId, retain)]
              && Continues(old(Rows()), Rows(), o, eventId, !retain)
      ensures previews == old(previews) && consumed == old(consumed)
    {
      var retain := Keeps(defaultPolicy, inForce, TargetOf(env.accountId, instanceName, o), o, direction);
      CaptureContinues(env, Rows(), o, eventId, newId, retain);
      CaptureEvent(o, eventId, newId, retain);
    }

    /** The transaction of `capture`. */
    method CaptureEvent(o: Observation, eventId: string, newId: string, retain: bool)
      requires Valid() && Fresh(Rows(), CaptureAction(o, eventId, newId, retain))
      modifies this`events, this`lastSequence, this`headHash, this`tables, this`log
      ensures Valid()
      ensures Rows() == AfterCapture(env, old(Rows()), o, eventId, newId, retain)
      ensures log == old(log) + [NextEvent(env, old(Rows()).store, o, eventId, retain)]
    {
      CaptureConsistent(env, Rows(), log, o, eventId, newId, retain);
      ghost var after, log' := AfterCapture(env, Rows(), o, eventId, newId, retain),
                               log + [NextEvent(env, Rows().store, o, eventId, retain)];
      WriteCapture(o, eventId, newId, retain);
      log := log';
      assert Consistent(env, after, log);
    }

    /** The statements of the capture transaction. */
    method WriteCapture(o: Observation, eventId: string, newId: string, retain: bool)
      modifies this`events, this`lastSequence, this`headHash, this`tables
      ensures Rows() == AfterCapture(env, old(Rows()), o, eventId, newId, retain)
    {
      var event := NextEvent(env, Store(lastSequence, headHash, events, tombstones), o, eventId, retain);
      events := events + [event];
      lastSequence, headHash := event.sequence, Some(event.recordHash);
      if retain {
        tables := CaptureDerived(tables, o, eventId, newId);
      }
    }

    /** `previewPurge`: stores permitted criteria under a new id, and tells how many events they select now. */
    method PreviewPurge(criteria: Criteria, document: Json, previewId: string, tokenHash: string, now: int,
                        ttlSeconds: nat)
      returns (count: Option<nat>)
      requires Valid() && previewId !in previews && previewId !in consumed
      modifies this`previews
      ensures Valid()
      ensures count.Some? <==> NamesSomething(criteria)
      ensures count.Some? ==>
                && previews ==
                     old(previews)[previewId := Preview(criteria, document, tokenHash, now + ttlSeconds * 1000)]
                && count.value == Count(Selector(criteria), events)
                && Refusal(previews, consumed, previewId, tokenHash, now)
                    == if ttlSeconds > 0 then None else Some(PreviewExpired)
      ensures count.None? ==> previews == old(previews)
    {
      PermittedIff(criteria);
      if !Permitted(criteria) { return None; }
      previews := previews[previewId := Preview(criteria, document, tokenHash, now + ttlSeconds * 1000)];
      return Some(Count(Selector(criteria), events));
    }

    /** `confirmPurge`: one preview is carried out at most once, before it expires. */
    method ConfirmPurge(previewId: string, tokenHash: string, now: int, jobId: string, tombstoneId: string,
                        media: nat, objectsDeleted: bool) returns (outcome: PurgeOutcome)
      requires Valid()
      modifies this
      ensures Valid() && log == old(log) && previews == old(previews)
      ensures var refusal := Refusal(previews, old(consumed), previewId, tokenHash, now);
              && (outcome.Completed? <==> refusal.None? && objectsDeleted)
              && (refusal.Some? ==> outcome == refusal.value)
              && (refusal.None? && !objectsDeleted ==> outcome == ObjectDeletionFailed)
      ensures outcome.Completed? ==>
                var p := previews[previewId];
                && consumed == old(consumed) + {previewId}
                && Rows() == AfterPurge(env, old(Rows()), Selector(p.criteria), tombstoneId, jobId,
                                        env.digest(CanonicalJson(p.document)), media)
                && tombstones == old(tombstones) + [outcome.tombstone]
      ensures outcome.Completed? ==>
                Tells(outcome.tombstone, old(Rows()), Rows(), tombstoneId, jobId,
                      env.digest(CanonicalJson(previews[previewId].document)), media)
      ensures outcome.Completed? <==>
                && previewId in previews && now < previews[previewId].expiresAt && previewId !in old(consumed)
                && previews[previewId].confirmationHash == tokenHash && objectsDeleted
      ensures outcome.Completed? ==> GoesBy(previews[previewId].criteria, old(events), events)
      ensures !outcome.Completed? ==> Rows() == old(Rows()) && consumed == old(consumed)
    {
      if previewId !in previews { return PreviewNotFound; }
      var preview := previews[previewId];
      if preview.expiresAt <= now { return PreviewExpired; }
      if preview.confirmationHash != tokenHash { return InvalidToken; }
      if previewId in consumed { return AlreadyConsumed; }
      if !objectsDeleted { return ObjectDeletionFailed; }
      TombstoneReports(env, Rows(), log, Selector(preview.criteria), tombstoneId, jobId,
                       env.digest(CanonicalJson(preview.document)), media);
      var tombstone := ApplyPurge(previewId, jobId, tombstoneId, media);
      SelectedGo(preview.criteria, Selector(preview.criteria), old(events), events);
      return Completed(tombstone);
    }

    /** The transaction of `confirmPurge`. */
    method ApplyPurge(previewId: string, jobId: string, tombstoneId: string, media: nat) returns (tombstone: Tombstone)
      requires Valid() && previewId in previews
      modifies this`events, this`tombstones, this`tables, this`consumed
      ensures Valid() && consumed == old(consumed) + {previewId}
      ensures var p := previews[previewId];
              Rows() == AfterPurge(env, old(Rows()), Selector(p.criteria), tombstoneId, jobId,
                                   env.digest(CanonicalJson(p.document)), media)
      ensures tombstones == old(tombstones) + [tombstone]
    {
      var selected := Selector(previews[previewId].criteria);
      var criteriaHash := env.digest(CanonicalJson(previews[previewId].document));
      PurgeConsistent(env, Rows(), log, selected, tombstoneId, jobId, criteriaHash, media);
      ghost var after := AfterPurge(env, Rows(), selected, tombstoneId, jobId, criteriaHash, media);
      tombstone := WritePurge(previewId, selected, criteriaHash, jobId, tombstoneId, media);
      assert Consistent(env, after, log);
    }

    /** The statements of the purge transaction. */
    method WritePurge(previewId: string, selected: Event -> bool, criteriaHash: string, jobId: string,
                      tombstoneId: string, media: nat)
      returns (tombstone: Tombstone)
      modifies this`events, this`tombstones, this`tables, this`consumed
      ensures consumed == old(consumed) + {previewId}
      ensures Rows() == AfterPurge(env, old(Rows()), selected, tombstoneId, jobId, criteriaHash, media)
      ensures tombstones == old(tombstones) + [tombstone]
    {
      consumed := consumed + {previewId};
      var targets := Filter(selected, events);
      var gone := IdsOf(targets);
      PurgeShrinks(tables, gone);
      var remaining := PurgeDerived(tables, gone);
      var summary := Summary(PurgeCounts(tables, remaining, media), |targets|, Ranges(targets));
      tombstone := NewTombstone(env, Store(lastSequence, headHash, events, tombstones), tombstoneId, jobId,
                                criteriaHash, summary);
      events := Filter(e => !selected(e), events);
      tombstones := tombstones + [tombstone];
      tables := remaining;
    }

    /** The second part of `verify`: every retained event has the hash of its fields. */
    method CheckEvents() returns (segments: seq<Segment>, failed: Option<int>)
      ensures failed.None? <==> EventsAuthentic(env, events)
      ensures failed.None? ==> segments == RetainedSegments(events)
      ensures failed.Some? ==> exists i :: FirstBadEvent(env, events, i) && failed.value == events[i].sequence
    {
      segments, failed := [], None;
      for i := 0 to |events|
        invariant forall j :: 0 <= j < i ==> events[j].recordHash == env.digest(RecordText(env, events[j]))
        invariant segments == RetainedSegments(events[..i])
      {
        var event := events[i];
        if event.recordHash != env.digest(RecordText(env, event)) {
          failed := Some(event.sequence);
          assert FirstBadEvent(env, events, i);
          return;
        }
        segments := segments + [RetainedSegment(event)];
      }
      assert events[..|events|] == events;
    }

    /** The first part of `verify`: signatures, links, ranges and counts of the tombstones. */
    method CheckTombstones() returns (segments: seq<Segment>, failed: Option<Verdict>)
      ensures failed.None? <==> TombstonesAuthentic(env, tombstones)
      ensures failed.None? ==> segments == DeletedSegments(tombstones)
      ensures failed.Some? ==>
                exists i :: FirstBadTombstone(env, tombstones, i)
                            && (failed.value == FailedTombstone(tombstones[i].id) || failed.value == Threw)
    {
      segments, failed := [], None;
      var previous: Option<string> := None;
      for i := 0 to |tombstones|
        invariant TombstonesAuthentic(env, tombstones[..i])
        invariant previous == TombstoneHead(tombstones[..i])
        invariant segments == DeletedSegments(tombstones[..i])
      {
        AuthenticPrefix(env, tombstones, i);
        var found, bad := CheckTombstone(tombstones[i], previous);
        if bad.Some? {
          failed := bad;
          assert FirstBadTombstone(env, tombstones, i);
          return;
        }
        DeletedStep(tombstones, i);
        segments := segments + found;
        previous := Some(tombstones[i].tombstoneHash);
      }
      assert tombstones[..|tombstones|] == tombstones;
    }

    method CheckTombstone(t: Tombstone, previous: Option<string>)
      returns (segments: seq<Segment>, failed: Option<Verdict>)
      ensures failed.None? <==> Authentic(env, t, previous)
      ensures failed.None? ==> segments == TombstoneSegments(t)
      ensures failed.Some? ==> failed.value == FailedTombstone(t.id) || failed.value == Threw
    {
      if t.previousHash != previous || t.tombstoneHash != env.sign(TombstoneText(env, t, previous)) {
        return [], Some(FailedTombstone(t.id));
      }
      segments, failed := CheckRanges(t);
    }

    method CheckRanges(t: Tombstone) returns (segments: seq<Segment>, failed: Option<Verdict>)
      ensures failed.None? <==> RangesOk(Denote(t.deletedSummary))
      ensures failed.None? ==> segments == TombstoneSegments(t)
      ensures failed.Some? ==> failed.value == FailedTombstone(t.id) || failed.value == Threw
    {
      segments, failed := [], None;
      var summary := Denote(t.deletedSummary);
      if summary.VNull? {
        failed := Some(Threw);
        return;
      }
      var ranges := RangeValues(summary);
      var parsed, bad := CollectRanges(ranges);
      if bad.Some? {
        failed := Some(if ranges[bad.value].VNull? then Threw else FailedTombstone(t.id));
        return;
      }
      var count := EventCount(summary);
      if count.None? {
        failed := Some(Threw);
      } else if TotalLength(parsed) != count.value {
        failed := Some(FailedTombstone(t.id));
      }
      segments := parsed;
    }

    /** The inner loop over the ranges of one tombstone; `bad` is the first malformed one. */
    method CollectRanges(ranges: seq<Value>) returns (segments: seq<Segment>, bad: Option<nat>)
      ensures bad.None? <==> forall r :: r in ranges ==> ParseRange(r).Some?
      ensures bad.None? ==> segments == ParseRanges(ranges)
      ensures bad.Some? ==> bad.value < |ranges| && ParseRange(ranges[bad.value]).None?
    {
      segments, bad := [], None;
      for j := 0 to |ranges|
        invariant forall k :: 0 <= k < j ==> ParseRange(ranges[k]).Some?
        invariant segments == ParseRanges(ranges[..j])
      {
        var range := ParseRange(ranges[j]);
        if range.None? {
          assert ranges[j] in ranges;
          bad := Some(j);
          return;
        }
        ParseStep(ranges, j, range.value);
        segments := segments + [range.value];
      }
      assert ranges[..|ranges|] == ranges;
    }

    lemma ValidAccepts()
      ensures Valid() ==> Accepts(env, Rows().store)
    {
      if Valid() { InvAccepted(env, Rows().store, log); }
    }

    /**
     `verify` accepts exactly the rows whose tombstones and events are authentic, tile
     1..lastSequence once, and link up to the checkpoint's head.  It accepts every archive
     that captures and purges have produced.
     */
    method Verify() returns (verdict: Verdict)
      ensures verdict.Verified? <==> Accepts(env, Rows().store)
      ensures Explains(env, Rows().store, verdict)
      ensures verdict.Verified? ==>
                verdict == Verified(|events|, |tombstones|, headHash, TombstoneHead(tombstones))
      ensures Valid() ==> verdict.Verified?
    {
      ValidAccepts();
      var deleted, badTombstone := CheckTombstones();
      if badTombstone.Some? { return badTombstone.value; }
      var retained, badEvent := CheckEvents();
      if badEvent.Some? { return FailedEvent(badEvent.value); }
      AcceptsIff(env, Rows().store);
      var walk := CheckChain(SortByStart(deleted + retained));
      if walk.Stuck? { return UncoveredGap(walk.at); }
      if walk.next != lastSequence + 1 || walk.hash != headHash { return HeadMismatch(walk.next); }
      var tombstoneHead := if |tombstones| > 0 then Some(tombstones[|tombstones| - 1].tombstoneHash) else None;
      return Verified(|events|, |tombstones|, walk.hash, tombstoneHead);
    }

    /** The last part of `verify`: the sorted segments follow one another from sequence 1. */
    method CheckChain(chain: seq<Segment>) returns (walk: Walk)
      ensures walk == WalkChain(chain, 1, None)
    {
      var expectedSequence: int, expectedPrevious: Option<string> := 1, None;
      for i := 0 to |chain|
        invariant WalkChain(chain, 1, None) == WalkChain(chain[i..], expectedSequence, expectedPrevious)
      {
        var segment := chain[i];
        if segment.start != expectedSequence || segment.previousHash != expectedPrevious {
          return Stuck(expectedSequence);
        }
        assert chain[i..][1..] == chain[i + 1..];
        expectedSequence, expectedPrevious := segment.end + 1, Some(segment.lastHash);
      }
      return Reached(expectedSequence, expectedPrevious);
    }
  }
}
