/**
 Capturing and purging: how the rows of the archive change, why every reachable archive
 verifies, and what stays linked to retained events.
 */
module ArchivePurge {
  import opened Strings
  import opened Sequences
  import opened JsonText
  import opened JsonValues
  import opened ArchiveChain

  // ---------------------------------------------------------------- compressing deleted events

  /** The runs of consecutive sequence numbers among deleted events, in order. */
  function Ranges(events: seq<Event>): seq<Segment> {
    if events == [] then []
    else AddToRanges(Ranges(events[..|events| - 1]), events[|events| - 1])
  }

  function AddToRanges(ranges: seq<Segment>, e: Event): seq<Segment> {
    var n := |ranges|;
    if n > 0 && ranges[n - 1].end + 1 == e.sequence then
      ranges[..n - 1] + [ranges[n - 1].(end := e.sequence, lastHash := e.recordHash)]
    else ranges + [RetainedSegment(e)]
  }

  predicate Ascending(events: seq<Event>) {
    forall i, j :: 0 <= i < j < |events| ==> events[i].sequence < events[j].sequence
  }

  lemma {:induction false} TotalAppend(a: seq<Segment>, s: Segment)
    ensures TotalLength(a + [s]) == TotalLength(a) + (s.end - s.start + 1)
  {
    assert (a + [s])[..|a|] == a;
  }

  lemma CoverOne(s: Segment, k: int)
    ensures CoverCount([s], k) == if Covers(s, k) then 1 else 0
  {
    assert [s][1..] == [];
  }

  lemma AppendCovers(a: seq<Segment>, s: Segment, k: int)
    ensures CoverCount(a + [s], k) == CoverCount(a, k) + if Covers(s, k) then 1 else 0
    ensures TotalLength(a + [s]) == TotalLength(a) + (s.end - s.start + 1)
    ensures Proper(a + [s]) <==> Proper(a) && s.start <= s.end
  {
    CoverConcat(a, [s], k);
    CoverOne(s, k);
    TotalAppend(a, s);
    assert forall t :: t in a ==> t in a + [s];
    assert s in a + [s];
  }

  /** Adding the next event to the ranges covers its sequence number and no other. */
  lemma AddCovers(ranges: seq<Segment>, e: Event, k: int)
    requires Proper(ranges)
    ensures CoverCount(AddToRanges(ranges, e), k) == CoverCount(ranges, k) + if k == e.sequence then 1 else 0
    ensures TotalLength(AddToRanges(ranges, e)) == TotalLength(ranges) + 1
    ensures Proper(AddToRanges(ranges, e))
  {
    var n := |ranges|;
    if n > 0 && ranges[n - 1].end + 1 == e.sequence {
      var init, last := ranges[..n - 1], ranges[n - 1];
      assert ranges == init + [last];
      AppendCovers(init, last, k);
      AppendCovers(init, last.(end := e.sequence, lastHash := e.recordHash), k);
    } else {
      AppendCovers(ranges, RetainedSegment(e), k);
    }
  }

  /** The ranges cover exactly the deleted sequence numbers, and total their count. */
  lemma {:induction false} RangesCover(events: seq<Event>, k: int)
    ensures Proper(Ranges(events))
    ensures CoverCount(Ranges(events), k) == CoverCount(RetainedSegments(events), k)
    ensures TotalLength(Ranges(events)) == |events|
  {
    if events != [] {
      var init, last := events[..|events| - 1], events[|events| - 1];
      assert events == init + [last];
      RangesCover(init, k);
      AddCovers(Ranges(init), last, k);
      RetainedConcat(init, [last], k);
      assert RetainedSegments([last]) == [RetainedSegment(last)];
      CoverOne(RetainedSegment(last), k);
    }
  }

  /** The ranges are as few as possible: no two of them touch. */
  lemma {:induction false} RangesMaximal(events: seq<Event>)
    requires Ascending(events)
    ensures events != [] ==>
        Ranges(events) != [] && Ranges(events)[|Ranges(events)| - 1].end == events[|events| - 1].sequence
    ensures forall i :: 0 <= i < |Ranges(events)| - 1 ==> Ranges(events)[i].end + 1 < Ranges(events)[i + 1].start
  {
    if events != [] {
      RangesMaximal(events[..|events| - 1]);
    }
  }

  // ---------------------------------------------------------------- the log behind the rows

  /** The hash of the chain after the first k events ever captured. */
  function HashAt(log: seq<Event>, k: nat): Option<string>
    requires k <= |log|
  {
    if k == 0 then None else Some(log[k - 1].recordHash)
  }

  /** All events ever captured, deleted or not, as they were written. */
  ghost predicate Chained(env: Env, log: seq<Event>) {
    forall i :: 0 <= i < |log| ==>
      && log[i].sequence == i + 1
      && log[i].previousHash == HashAt(log, i)
      && log[i].recordHash == env.digest(RecordText(env, log[i]))
  }

  predicate Logged(log: seq<Event>, e: Event) {
    1 <= e.sequence <= |log| && log[e.sequence - 1] == e
  }

  /** A segment with the boundary hashes the log has at its ends. */
  predicate LogSegment(log: seq<Event>, s: Segment) {
    && 1 <= s.start <= s.end <= |log|
    && s.previousHash == HashAt(log, s.start - 1)
    && Some(s.lastHash) == HashAt(log, s.end)
  }

  lemma EventFromLog(env: Env, log: seq<Event>, e: Event)
    requires Chained(env, log) && Logged(log, e)
    ensures LogSegment(log, RetainedSegment(e))
  {
    assert log[e.sequence - 1].previousHash == HashAt(log, e.sequence - 1);
  }

  lemma AddFromLog(log: seq<Event>, ranges: seq<Segment>, e: Event)
    requires Logged(log, e) && LogSegment(log, RetainedSegment(e))
    requires forall s :: s in ranges ==> LogSegment(log, s)
    ensures forall s :: s in AddToRanges(ranges, e) ==> LogSegment(log, s)
  {
    var n := |ranges|;
    if n > 0 && ranges[n - 1].end + 1 == e.sequence {
      ExtendSegment(log, ranges[n - 1], e);
      assert forall s :: s in ranges[..n - 1] ==> s in ranges;
    }
  }

  lemma ExtendSegment(log: seq<Event>, s: Segment, e: Event)
    requires LogSegment(log, s) && Logged(log, e) && s.end + 1 == e.sequence
    ensures LogSegment(log, s.(end := e.sequence, lastHash := e.recordHash))
  {
  }

  lemma {:induction false} RangesFromLog(env: Env, log: seq<Event>, events: seq<Event>)
    requires Chained(env, log) && forall e :: e in events ==> Logged(log, e)
    ensures forall s :: s in Ranges(events) ==> LogSegment(log, s)
  {
    if events != [] {
      var init := events[..|events| - 1];
      assert forall e :: e in init ==> e in events;
      RangesFromLog(env, log, init);
      EventFromLog(env, log, events[|events| - 1]);
      AddFromLog(log, Ranges(init), events[|events| - 1]);
    }
  }

  /** What every reachable archive satisfies. */
  ghost predicate Inv(env: Env, s: Store, log: seq<Event>) {
    && Chained(env, log)
    && s.lastSequence == |log| && s.headHash == HashAt(log, |log|)
    && (forall e :: e in s.events ==> Logged(log, e))
    && Ascending(s.events)
    && TombstonesAuthentic(env, s.tombstones)
    && (forall d :: d in DeletedSegments(s.tombstones) ==> LogSegment(log, d))
    && Tile(Segments(s), 1, |log|)
  }

  lemma LogLinked(log: seq<Event>, segments: seq<Segment>)
    requires forall g :: g in segments ==> LogSegment(log, g)
    ensures Linked(segments, 1, None, |log|, HashAt(log, |log|))
  {
  }

  lemma RetainedFromLog(env: Env, log: seq<Event>, events: seq<Event>)
    requires Chained(env, log) && forall e :: e in events ==> Logged(log, e)
    ensures EventsAuthentic(env, events)
    ensures forall g :: g in RetainedSegments(events) ==> LogSegment(log, g)
  {
    forall e | e in events
      ensures e.recordHash == env.digest(RecordText(env, e)) && LogSegment(log, RetainedSegment(e))
    {
      assert Logged(log, e);
    }
  }

  /** Completeness of `verify`: an archive that is its log minus its purges is accepted. */
  lemma InvAccepted(env: Env, s: Store, log: seq<Event>)
    requires Inv(env, s, log)
    ensures Accepts(env, s)
  {
    RetainedFromLog(env, log, s.events);
    LogLinked(log, Segments(s));
  }

  // ---------------------------------------------------------------- capture

  /** What one incoming event says, after extraction. */
  datatype Observation = Observation(
    eventType: string,
    entityJid: Option<string>,
    messageId: Option<string>,
    occurredAt: int,
    payloadHash: string,
    participants: seq<Option<string>>,
    incompleteSync: bool)

  function NextEvent(env: Env, s: Store, o: Observation, id: string, retain: bool): Event {
    var draft := Event(id, s.lastSequence + 1, o.eventType, o.entityJid, o.occurredAt, o.payloadHash,
                       s.headHash, "", !retain);
    draft.(recordHash := env.digest(RecordText(env, draft)))
  }

  function Capture(env: Env, s: Store, o: Observation, id: string, retain: bool): Store {
    var e := NextEvent(env, s, o, id, retain);
    s.(lastSequence := e.sequence, headHash := Some(e.recordHash), events := s.events + [e])
  }

  lemma CaptureTiles(s: Store, s': Store, e: Event)
    requires Tile(Segments(s), 1, e.sequence - 1) && e.sequence >= 1
    requires s'.tombstones == s.tombstones && s'.events == s.events + [e]
    ensures Tile(Segments(s'), 1, e.sequence)
  {
    var d := DeletedSegments(s.tombstones);
    forall k ensures CoverCount(Segments(s'), k) == CoverCount(Segments(s), k) + if k == e.sequence then 1 else 0 {
      CoverConcat(d, RetainedSegments(s.events), k);
      CoverConcat(d, RetainedSegments(s'.events), k);
      RetainedConcat(s.events, [e], k);
      assert RetainedSegments([e]) == [RetainedSegment(e)];
      CoverOne(RetainedSegment(e), k);
    }
  }

  lemma CaptureChains(env: Env, s: Store, log: seq<Event>, e: Event)
    requires Chained(env, log) && e.sequence == |log| + 1 && e.previousHash == HashAt(log, |log|)
    requires e.recordHash == env.digest(RecordText(env, e))
    ensures Chained(env, log + [e])
    ensures forall f :: Logged(log, f) ==> Logged(log + [e], f)
    ensures forall g :: LogSegment(log, g) ==> LogSegment(log + [e], g)
  {
    var log' := log + [e];
    forall k: nat | k <= |log| ensures HashAt(log', k) == HashAt(log, k) {}
  }

  lemma CaptureKeepsInv(env: Env, s: Store, log: seq<Event>, o: Observation, id: string, retain: bool)
    requires Inv(env, s, log)
    ensures Inv(env, Capture(env, s, o, id, retain), log + [NextEvent(env, s, o, id, retain)])
  {
    var e := NextEvent(env, s, o, id, retain);
    assert RecordText(env, e) == RecordText(env, e.(recordHash := ""));
    CaptureChains(env, s, log, e);
    CaptureTiles(s, Capture(env, s, o, id, retain), e);
    forall f | f in s.events ensures f.sequence < e.sequence { assert Logged(log, f); }
  }

  // ---------------------------------------------------------------- purge

  /** The counts a purge reports beside its events. */
  datatype Counts = Counts(
    media: nat, messages: nat, revisions: nat, receipts: nat, reactions: nat,
    entities: nat, memberships: nat, calls: nat, syncGaps: nat)

  function RangeJson(s: Segment): Json {
    Obj([Entry("start", Str(Signed(s.start))),
         Entry("end", Str(Signed(s.end))),
         Entry("previousHash", match s.previousHash case Some(h) => Str(h) case None => Null),
         Entry("lastHash", Str(s.lastHash))])
  }

  function RangesJson(ranges: seq<Segment>): (r: seq<Json>)
    ensures |r| == |ranges|
  {
    if ranges == [] then [] else RangesJson(ranges[..|ranges| - 1]) + [RangeJson(ranges[|ranges| - 1])]
  }

  const SUMMARY_KEYS: seq<string> :=
    ["events", "media", "messages", "messageRevisions", "receipts", "reactions",
     "entityRevisions", "memberships", "calls", "syncGaps", "deletedRanges"]

  function SummaryValues(c: Counts, events: nat, ranges: seq<Segment>): (r: seq<Json>)
    ensures |r| == 11
  {
    [Num(Decimal(events)), Num(Decimal(c.media)), Num(Decimal(c.messages)), Num(Decimal(c.revisions)),
     Num(Decimal(c.receipts)), Num(Decimal(c.reactions)), Num(Decimal(c.entities)),
     Num(Decimal(c.memberships)), Num(Decimal(c.calls)), Num(Decimal(c.syncGaps)),
     Arr(RangesJson(ranges))]
  }

  function Zip(keys: seq<string>, values: seq<Json>): (r: seq<Entry>)
    requires |keys| == |values|
    ensures |r| == |keys| && forall i :: 0 <= i < |r| ==> r[i] == Entry(keys[i], values[i])
  {
    seq(|keys|, i requires 0 <= i < |keys| => Entry(keys[i], values[i]))
  }

  function Summary(c: Counts, events: nat, ranges: seq<Segment>): Json {
    Obj(Zip(SUMMARY_KEYS, SummaryValues(c, events, ranges)))
  }

  /** The tombstone a purge appends, signed before its summary is stored. */
  function NewTombstone(env: Env, s: Store, id: string, jobId: string, criteriaHash: string, summary: Json): Tombstone {
    var previous := TombstoneHead(s.tombstones);
    var draft := Tombstone(id, jobId, criteriaHash, summary, previous, "");
    draft.(tombstoneHash := env.sign(TombstoneText(env, draft, previous)), deletedSummary := env.jsonb(summary))
  }

  function Purge(env: Env, s: Store, selected: Event -> bool, id: string, jobId: string,
                 criteriaHash: string, c: Counts): Store
  {
    var targets := Filter(selected, s.events);
    var t := NewTombstone(env, s, id, jobId, criteriaHash, Summary(c, |targets|, Ranges(targets)));
    s.(events := Filter(e => !selected(e), s.events), tombstones := s.tombstones + [t])
  }

  lemma {:induction false} EntriesFromDistinct(entries: seq<Entry>)
    requires forall i, j :: 0 <= i < j < |entries| ==> entries[i].key != entries[j].key
    requires forall i :: 0 <= i < |entries| ==> WellFormed(entries[i].value)
    ensures EntriesWellFormed(entries)
  {
    if entries != [] { EntriesFromDistinct(entries[1..]); }
  }

  lemma SummaryKeysDistinct(i: nat, j: nat)
    requires i < j < |SUMMARY_KEYS|
    ensures SUMMARY_KEYS[i] != SUMMARY_KEYS[j]
  {
    var size := [6, 5, 8, 16, 8, 9, 15, 11, 5, 8, 13];
    var first := "emmmrremcsd";
    assert |SUMMARY_KEYS[i]| == size[i] && |SUMMARY_KEYS[j]| == size[j];
    assert SUMMARY_KEYS[i][0] == first[i] && SUMMARY_KEYS[j][0] == first[j];
  }

  lemma CountWellFormed(n: nat)
    ensures WellFormed(Num(Decimal(n)))
  {
    DecimalRoundTrip(n);
  }

  lemma SummaryWellFormed(c: Counts, events: nat, ranges: seq<Segment>)
    requires AllWellFormed(RangesJson(ranges))
    ensures WellFormed(Summary(c, events, ranges))
  {
    var values := SummaryValues(c, events, ranges);
    var entries := Zip(SUMMARY_KEYS, values);
    forall n: nat ensures WellFormed(Num(Decimal(n))) { CountWellFormed(n); }
    forall i | 0 <= i < 11 ensures WellFormed(values[i]) {}
    forall i, j | 0 <= i < j < 11 ensures entries[i].key != entries[j].key { SummaryKeysDistinct(i, j); }
    EntriesFromDistinct(entries);
  }

  /** Reading the i-th key of a well-formed object literal. */
  lemma ReadsEntry(entries: seq<Entry>, i: nat)
    requires EntriesWellFormed(entries) && i < |entries|
    ensures Field(Denote(Obj(entries)), entries[i].key) == Some(Denote(entries[i].value))
  {
    FieldsLookup(entries, i);
  }

  lemma RangeWellFormed(s: Segment)
    ensures EntriesWellFormed(RangeJson(s).entries)
  {
    var entries := RangeJson(s).entries;
    assert |entries[0].key| == 5 && |entries[1].key| == 3 && |entries[2].key| == 12 && |entries[3].key| == 8;
    EntriesFromDistinct(entries);
  }

  lemma ParseFields(v: Value, s: Segment)
    requires 1 <= s.start <= s.end
    requires Field(v, "start") == Some(VStr(Signed(s.start))) && Field(v, "end") == Some(VStr(Signed(s.end)))
    requires Field(v, "previousHash") == Some(if s.previousHash.Some? then VStr(s.previousHash.value) else VNull)
    requires Field(v, "lastHash") == Some(VStr(s.lastHash))
    ensures ParseRange(v) == Some(s)
  {
    DecimalRoundTrip(s.start);
    DecimalRoundTrip(s.end);
  }

  /** A stored range reads back as the segment it was written for. */
  lemma RangeReads(s: Segment)
    requires 1 <= s.start <= s.end
    ensures WellFormed(RangeJson(s)) && ParseRange(Denote(RangeJson(s))) == Some(s)
  {
    var entries, v := RangeJson(s).entries, Denote(RangeJson(s));
    RangeWellFormed(s);
    ReadsEntry(entries, 0);
    ReadsEntry(entries, 1);
    ReadsEntry(entries, 2);
    ReadsEntry(entries, 3);
    ParseFields(v, s);
  }

  lemma {:induction false} DenoteAppend(a: seq<Json>, j: Json)
    ensures DenoteItems(a + [j]) == DenoteItems(a) + [Denote(j)]
    ensures AllWellFormed(a + [j]) <==> AllWellFormed(a) && WellFormed(j)
  {
    if a == [] {
      assert a + [j] == [j] && [j][1..] == [];
    } else {
      assert (a + [j])[1..] == a[1..] + [j];
      DenoteAppend(a[1..], j);
    }
  }

  lemma ParseAppend(vs: seq<Value>, v: Value, s: Segment)
    requires ParseRange(v) == Some(s)
    ensures ParseRanges(vs + [v]) == ParseRanges(vs) + [s]
  {
    assert (vs + [v])[..|vs|] == vs;
  }

  lemma {:induction false} RangesRead(ranges: seq<Segment>)
    requires forall s :: s in ranges ==> 1 <= s.start <= s.end
    ensures AllWellFormed(RangesJson(ranges))
    ensures ParseRanges(DenoteItems(RangesJson(ranges))) == ranges
    ensures forall v :: v in DenoteItems(RangesJson(ranges)) ==> ParseRange(v).Some?
  {
    if ranges != [] {
      var init, last := ranges[..|ranges| - 1], ranges[|ranges| - 1];
      assert ranges == init + [last];
      RangesRead(init);
      RangeReads(last);
      DenoteAppend(RangesJson(init), RangeJson(last));
      ParseAppend(DenoteItems(RangesJson(init)), Denote(RangeJson(last)), last);
    }
  }

  lemma SummaryFields(c: Counts, events: nat, ranges: seq<Segment>)
    requires WellFormed(Summary(c, events, ranges))
    ensures Field(Denote(Summary(c, events, ranges)), "events") == Some(VNum(Decimal(events)))
    ensures RangeValues(Denote(Summary(c, events, ranges))) == DenoteItems(RangesJson(ranges))
  {
    var entries := Zip(SUMMARY_KEYS, SummaryValues(c, events, ranges));
    ReadsEntry(entries, 0);
    ReadsEntry(entries, 10);
    assert entries[0] == Entry("events", Num(Decimal(events)));
    assert entries[10] == Entry("deletedRanges", Arr(RangesJson(ranges)));
  }

  /** The number a summary has under a key. */
  predicate Reports(summary: Value, key: string, n: int) {
    Field(summary, key) == Some(VNum(Signed(n)))
  }

  /** All counts at once. */
  predicate ReportsAll(v: Value, c: Counts, events: int) {
    && Reports(v, "events", events) && Reports(v, "media", c.media) && Reports(v, "messages", c.messages)
    && Reports(v, "messageRevisions", c.revisions) && Reports(v, "receipts", c.receipts)
    && Reports(v, "reactions", c.reactions) && Reports(v, "entityRevisions", c.entities)
    && Reports(v, "memberships", c.memberships) && Reports(v, "calls", c.calls) && Reports(v, "syncGaps", c.syncGaps)
  }

  /** Each count of a purge stands under its own key. */
  lemma SummaryReports(c: Counts, events: nat, ranges: seq<Segment>)
    requires WellFormed(Summary(c, events, ranges))
    ensures ReportsAll(Denote(Summary(c, events, ranges)), c, events)
  {
    var entries := Zip(SUMMARY_KEYS, SummaryValues(c, events, ranges));
    forall i: nat | i < 10 ensures Field(Denote(Obj(entries)), entries[i].key) == Some(Denote(entries[i].value)) {
      ReadsEntry(entries, i);
    }
    assert entries[0].key == "events" && entries[1].key == "media" && entries[2].key == "messages";
    assert entries[3].key == "messageRevisions" && entries[4].key == "receipts" && entries[5].key == "reactions";
    assert entries[6].key == "entityRevisions" && entries[7].key == "memberships" && entries[8].key == "calls";
    assert entries[9].key == "syncGaps";
  }

  /** `verify` reads from a stored summary exactly the ranges and the count that were signed. */
  lemma SummaryReads(c: Counts, events: nat, ranges: seq<Segment>)
    requires forall s :: s in ranges ==> 1 <= s.start <= s.end
    requires TotalLength(ranges) == events
    ensures WellFormed(Summary(c, events, ranges))
    ensures ParseRanges(RangeValues(Denote(Summary(c, events, ranges)))) == ranges
    ensures RangesOk(Denote(Summary(c, events, ranges)))
  {
    RangesRead(ranges);
    SummaryWellFormed(c, events, ranges);
    SummaryFields(c, events, ranges);
    ReadsOk(Denote(Summary(c, events, ranges)), events, DenoteItems(RangesJson(ranges)));
  }

  lemma ReadsOk(v: Value, n: nat, vs: seq<Value>)
    requires Field(v, "events") == Some(VNum(Decimal(n))) && RangeValues(v) == vs
    requires TotalLength(ParseRanges(vs)) == n && forall r :: r in vs ==> ParseRange(r).Some?
    ensures RangesOk(v)
  {
    DecimalRoundTrip(n);
  }

  /** A signature made before storage is reproduced from the stored summary. */
  lemma NewTombstoneAuthentic(env: Env, s: Store, id: string, jobId: string, criteriaHash: string, summary: Json)
    requires Faithful(env) && WellFormed(summary) && RangesOk(Denote(summary))
    ensures var t := NewTombstone(env, s, id, jobId, criteriaHash, summary);
            && Authentic(env, t, TombstoneHead(s.tombstones))
            && TombstoneSegments(t) == ParseRanges(RangeValues(Denote(summary)))
  {
    CanonicalJsonIff(summary, env.jsonb(summary));
  }

  lemma {:induction false} FilterAscending(f: Event -> bool, events: seq<Event>)
    requires Ascending(events)
    ensures Ascending(Filter(f, events))
  {
    if events != [] {
      var init := events[..|events| - 1];
      FilterAscending(f, init);
      FilterMembers(f, init);
      forall i | 0 <= i < |Filter(f, init)|
        ensures Filter(f, init)[i].sequence < events[|events| - 1].sequence
      {
        assert Filter(f, init)[i] in init;
      }
    }
  }

  /** What a purge removes and what it keeps cover together what was there. */
  lemma {:induction false} FilterCover(f: Event -> bool, events: seq<Event>, k: int)
    ensures CoverCount(RetainedSegments(events), k)
         == CoverCount(RetainedSegments(Filter(f, events)), k)
          + CoverCount(RetainedSegments(Filter(e => !f(e), events)), k)
  {
    if events != [] {
      var init, last := events[..|events| - 1], [events[|events| - 1]];
      assert events == init + last;
      FilterCover(f, init, k);
      RetainedConcat(init, last, k);
      RetainedConcat(Filter(f, init), last, k);
      RetainedConcat(Filter(e => !f(e), init), last, k);
    }
  }

  lemma AppendAuthentic(env: Env, ts: seq<Tombstone>, t: Tombstone)
    requires TombstonesAuthentic(env, ts) && Authentic(env, t, TombstoneHead(ts))
    ensures TombstonesAuthentic(env, ts + [t])
    ensures DeletedSegments(ts + [t]) == DeletedSegments(ts) + TombstoneSegments(t)
  {
    var r := ts + [t];
    assert r[..|ts|] == ts;
    forall i | 0 <= i < |r| ensures AuthenticAt(env, r, i) {
      if i < |ts| { assert r[..i] == ts[..i] && AuthenticAt(env, ts, i); }
    }
  }

  lemma PurgeKeepsInv(env: Env, s: Store, log: seq<Event>, selected: Event -> bool, id: string,
                      jobId: string, criteriaHash: string, c: Counts)
    requires Faithful(env) && Inv(env, s, log)
    ensures Inv(env, Purge(env, s, selected, id, jobId, criteriaHash, c), log)
  {
    var s' := Purge(env, s, selected, id, jobId, criteriaHash, c);
    var targets := Filter(selected, s.events);
    var ranges := Ranges(targets);
    var summary := Summary(c, |targets|, ranges);
    FilterMembers(selected, s.events);
    FilterMembers(e => !selected(e), s.events);
    FilterAscending(e => !selected(e), s.events);
    RangesFromLog(env, log, targets);
    RangesCover(targets, 0);
    SummaryReads(c, |targets|, ranges);
    NewTombstoneAuthentic(env, s, id, jobId, criteriaHash, summary);
    AppendAuthentic(env, s.tombstones, s'.tombstones[|s.tombstones|]);
    PurgeTiles(s, s', selected, ranges, |log|);
  }

  lemma StoredSummaryReports(env: Env, log: seq<Event>, targets: seq<Event>, c: Counts)
    requires Faithful(env) && Chained(env, log) && forall e :: e in targets ==> Logged(log, e)
    ensures ReportsAll(Denote(env.jsonb(Summary(c, |targets|, Ranges(targets)))), c, |targets|)
  {
    RangesFromLog(env, log, targets);
    RangesCover(targets, 0);
    SummaryReads(c, |targets|, Ranges(targets));
    SummaryReports(c, |targets|, Ranges(targets));
  }

  lemma {:induction false} EventSizes(f: Event -> bool, events: seq<Event>)
    ensures |Filter(f, events)| + |Filter(e => !f(e), events)| == |events|
  {
    if events != [] { EventSizes(f, events[..|events| - 1]); }
  }

  /** The stored tombstone of a purge: its identity, and as many events as the archive has lost. */
  lemma PurgeReports(env: Env, s: Store, log: seq<Event>, selected: Event -> bool, id: string, jobId: string,
                     criteriaHash: string, c: Counts)
    requires Faithful(env) && Chained(env, log) && forall e :: e in s.events ==> Logged(log, e)
    ensures var s' := Purge(env, s, selected, id, jobId, criteriaHash, c);
            var t := s'.tombstones[|s.tombstones|];
            && |s'.tombstones| == |s.tombstones| + 1 && t.id == id && t.purgeJobId == jobId
            && t.criteriaHash == criteriaHash && t.previousHash == TombstoneHead(s.tombstones)
            && ReportsAll(Denote(t.deletedSummary), c, |s.events| - |s'.events|)
  {
    FilterMembers(selected, s.events);
    EventSizes(selected, s.events);
    StoredSummaryReports(env, log, Filter(selected, s.events), c);
  }

  lemma PurgeTiles(s: Store, s': Store, selected: Event -> bool, ranges: seq<Segment>, n: int)
    requires Tile(Segments(s), 1, n)
    requires s'.events == Filter(e => !selected(e), s.events) && ranges == Ranges(Filter(selected, s.events))
    requires DeletedSegments(s'.tombstones) == DeletedSegments(s.tombstones) + ranges
    ensures Tile(Segments(s'), 1, n)
  {
    var d := DeletedSegments(s.tombstones);
    forall k ensures CoverCount(Segments(s'), k) == CoverCount(Segments(s), k) {
      CoverConcat(d + ranges, RetainedSegments(s'.events), k);
      CoverConcat(d, ranges, k);
      CoverConcat(d, RetainedSegments(s.events), k);
      RangesCover(Filter(selected, s.events), k);
      FilterCover(selected, s.events, k);
    }
  }

  // ---------------------------------------------------------------- a capture within a purge

  datatype Arrival = Arrival(o: Observation, id: string, retain: bool)

  /** The archive after captures that commit one after the other. */
  function CaptureAll(env: Env, s: Store, arrivals: seq<Arrival>): Store {
    if arrivals == [] then s
    else
      var a := arrivals[|arrivals| - 1];
      Capture(env, CaptureAll(env, s, arrivals[..|arrivals| - 1]), a.o, a.id, a.retain)
  }

  lemma {:induction false} CaptureAllKeepsInv(env: Env, s: Store, log: seq<Event>, arrivals: seq<Arrival>)
    returns (log': seq<Event>)
    requires Inv(env, s, log)
    ensures var s' := CaptureAll(env, s, arrivals);
            Inv(env, s', log') && s'.tombstones == s.tombstones && s.events <= s'.events
  {
    log' := log;
    if arrivals != [] {
      var init, a := arrivals[..|arrivals| - 1], arrivals[|arrivals| - 1];
      log' := CaptureAllKeepsInv(env, s, log, init);
      CaptureKeepsInv(env, CaptureAll(env, s, init), log', a.o, a.id, a.retain);
      log' := log' + [NextEvent(env, CaptureAll(env, s, init), a.o, a.id, a.retain)];
    }
  }

  /**
   The two statements of a purge: the first reads the targets in s, the second deletes by
   the same filter in s'.  The tombstone has the ranges of the first and the count of the second.
   */
  function SplitPurge(env: Env, s: Store, s': Store, selected: Event -> bool, id: string, jobId: string,
                      criteriaHash: string, c: Counts): Store
  {
    var targets, deleted := Filter(selected, s.events), Filter(selected, s'.events);
    var t := NewTombstone(env, s', id, jobId, criteriaHash, Summary(c, |deleted|, Ranges(targets)));
    s'.(events := Filter(e => !selected(e), s'.events), tombstones := s'.tombstones + [t])
  }

  lemma {:induction false} FilterPrefix(f: Event -> bool, a: seq<Event>, b: seq<Event>)
    requires a <= b
    ensures Filter(f, a) <= Filter(f, b)
    ensures Filter(f, a) == Filter(f, b) <==> forall e :: e in b[|a|..] ==> !f(e)
    ensures |Filter(f, a)| == |Filter(f, b)| ==> Filter(f, a) == Filter(f, b)
    decreases |b|
  {
    if a == b {
      assert b[|a|..] == [];
    } else {
      var init, last := b[..|b| - 1], b[|b| - 1];
      FilterPrefix(f, a, init);
      assert b[|a|..] == init[|a|..] + [last];
    }
  }

  /** A summary whose count is not that of its ranges is refused. */
  lemma WrongCountRefused(c: Counts, events: nat, ranges: seq<Segment>)
    requires (forall g :: g in ranges ==> 1 <= g.start <= g.end) && TotalLength(ranges) != events
    ensures WellFormed(Summary(c, events, ranges)) && !RangesOk(Denote(Summary(c, events, ranges)))
  {
    RangesRead(ranges);
    SummaryWellFormed(c, events, ranges);
    SummaryFields(c, events, ranges);
    DecimalRoundTrip(events);
  }

  /** What `verify` reads from the tombstone of a split purge. */
  lemma SplitTombstoneReads(env: Env, s: Store, log: seq<Event>, s': Store, selected: Event -> bool, id: string,
                            jobId: string, criteriaHash: string, c: Counts)
    requires Faithful(env) && Inv(env, s, log)
    requires |Filter(selected, s.events)| != |Filter(selected, s'.events)|
    ensures var r := SplitPurge(env, s, s', selected, id, jobId, criteriaHash, c);
            !RangesOk(Denote(r.tombstones[|r.tombstones| - 1].deletedSummary))
  {
    var targets := Filter(selected, s.events);
    FilterMembers(selected, s.events);
    RangesFromLog(env, log, targets);
    RangesCover(targets, 0);
    WrongCountRefused(c, |Filter(selected, s'.events)|, Ranges(targets));
  }

  /**
   A purge that captures may interrupt leaves the archive accepted exactly when none of them
   falls under its criteria: such an event is deleted, counted and in no range.
   */
  lemma InterruptedPurgeIff(env: Env, s: Store, log: seq<Event>, arrivals: seq<Arrival>, selected: Event -> bool,
                            id: string, jobId: string, criteriaHash: string, c: Counts)
    requires Faithful(env) && Inv(env, s, log)
    ensures var s' := CaptureAll(env, s, arrivals);
            s.events <= s'.events
            && (Accepts(env, SplitPurge(env, s, s', selected, id, jobId, criteriaHash, c))
                <==> forall e :: e in s'.events[|s.events|..] ==> !selected(e))
  {
    var s' := CaptureAll(env, s, arrivals);
    var log' := CaptureAllKeepsInv(env, s, log, arrivals);
    FilterPrefix(selected, s.events, s'.events);
    var r := SplitPurge(env, s, s', selected, id, jobId, criteriaHash, c);
    if Filter(selected, s.events) == Filter(selected, s'.events) {
      PurgeKeepsInv(env, s', log', selected, id, jobId, criteriaHash, c);
      InvAccepted(env, r, log');
    } else {
      SplitTombstoneReads(env, s, log, s', selected, id, jobId, criteriaHash, c);
      LastNotAuthentic(env, r);
    }
  }

  lemma LastNotAuthentic(env: Env, s: Store)
    requires s.tombstones != [] && !RangesOk(Denote(s.tombstones[|s.tombstones| - 1].deletedSummary))
    ensures !Accepts(env, s)
  {
    assert !AuthenticAt(env, s.tombstones, |s.tombstones| - 1);
  }

  // ---------------------------------------------------------------- runs

  datatype Op =
    | CaptureOp(o: Observation, eventId: string, retain: bool)
    | PurgeOp(selected: Event -> bool, id: string, jobId: string, criteriaHash: string, counts: Counts)

  function Step(env: Env, s: Store, op: Op): Store {
    match op
    case CaptureOp(o, id, retain) => Capture(env, s, o, id, retain)
    case PurgeOp(selected, id, jobId, hash, c) => Purge(env, s, selected, id, jobId, hash, c)
  }

  function Run(env: Env, ops: seq<Op>): Store {
    if ops == [] then Store(0, None, [], []) else Step(env, Run(env, ops[..|ops| - 1]), ops[|ops| - 1])
  }

  /** Every event a run captures, in order; purges remove none. */
  function LogOf(env: Env, ops: seq<Op>): seq<Event> {
    if ops == [] then []
    else LogStep(env, Run(env, ops[..|ops| - 1]), LogOf(env, ops[..|ops| - 1]), ops[|ops| - 1])
  }

  function LogStep(env: Env, s: Store, log: seq<Event>, op: Op): seq<Event> {
    match op
    case CaptureOp(o, id, retain) => log + [NextEvent(env, s, o, id, retain)]
    case PurgeOp(_, _, _, _, _) => log
  }

  lemma StepKeepsInv(env: Env, s: Store, log: seq<Event>, op: Op)
    requires Faithful(env) && Inv(env, s, log)
    ensures Inv(env, Step(env, s, op), LogStep(env, s, log, op))
  {
    match op
    case CaptureOp(o, id, retain) => CaptureKeepsInv(env, s, log, o, id, retain);
    case PurgeOp(f, id, job, hash, c) => PurgeKeepsInv(env, s, log, f, id, job, hash, c);
  }

  lemma {:induction false} RunInv(env: Env, ops: seq<Op>)
    requires Faithful(env)
    ensures Inv(env, Run(env, ops), LogOf(env, ops))
  {
    if ops != [] {
      var init := ops[..|ops| - 1];
      RunInv(env, init);
      StepKeepsInv(env, Run(env, init), LogOf(env, init), ops[|ops| - 1]);
    } else {
      EmptyInv(env);
    }
  }

  lemma EmptyInv(env: Env)
    ensures Inv(env, Store(0, None, [], []), [])
  {
    var s := Store(0, None, [], []);
    assert DeletedSegments(s.tombstones) == [] && RetainedSegments(s.events) == [];
    forall k ensures CoverCount(Segments(s), k) == 0 {}
  }

  /**
   After any captures and any purges of any subsets, in any order, the archive verifies;
   its checkpoint is the number of events ever captured, whatever was purged.
   */
  lemma EveryRunVerifies(env: Env, ops: seq<Op>)
    requires Faithful(env)
    ensures Accepts(env, Run(env, ops))
    ensures Run(env, ops).lastSequence == |LogOf(env, ops)|
    ensures forall e :: e in Run(env, ops).events ==> Logged(LogOf(env, ops), e)
  {
    RunInv(env, ops);
    InvAccepted(env, Run(env, ops), LogOf(env, ops));
  }

  /** Digests of 64 hexadecimal digits and identifiers of 36 characters, as the service computes them. */
  predicate WellShaped(op: Op) {
    match op
    case CaptureOp(o, _, _) => '|' !in o.payloadHash && |o.payloadHash| == 64
    case PurgeOp(_, _, jobId, hash, _) => '|' !in jobId && |jobId| == 36 && '|' !in hash && |hash| == 64
  }

  lemma PurgeSummaryWellFormed(env: Env, s: Store, log: seq<Event>, selected: Event -> bool, c: Counts)
    requires Faithful(env) && Inv(env, s, log)
    ensures var targets := Filter(selected, s.events);
            WellFormed(env.jsonb(Summary(c, |targets|, Ranges(targets))))
  {
    var targets := Filter(selected, s.events);
    FilterMembers(selected, s.events);
    RangesFromLog(env, log, targets);
    RangesCover(targets, 0);
    SummaryReads(c, |targets|, Ranges(targets));
  }

  lemma CaptureIntact(env: Env, s: Store, o: Observation, id: string, retain: bool)
    requires Intact(s) && '|' !in o.payloadHash && |o.payloadHash| == 64
    ensures Intact(Capture(env, s, o, id, retain))
  {
  }

  lemma PurgeIntact(env: Env, s: Store, log: seq<Event>, selected: Event -> bool, id: string, jobId: string,
                    criteriaHash: string, c: Counts)
    requires Faithful(env) && Inv(env, s, log) && Intact(s)
    requires '|' !in jobId && |jobId| == 36 && '|' !in criteriaHash && |criteriaHash| == 64
    ensures Intact(Purge(env, s, selected, id, jobId, criteriaHash, c))
  {
    FilterMembers(e => !selected(e), s.events);
    PurgeSummaryWellFormed(env, s, log, selected, c);
    var t := Purge(env, s, selected, id, jobId, criteriaHash, c).tombstones[|s.tombstones|];
    OneMoreIntact(s.tombstones, t);
  }

  lemma OneMoreIntact(ts: seq<Tombstone>, t: Tombstone)
    requires IntactTombstones(ts) && IntactTombstones([t])
    ensures IntactTombstones(ts + [t])
  {
  }

  /** Operations of the right shape fill the columns as the schema says. */
  lemma {:induction false} RunIntact(env: Env, ops: seq<Op>)
    requires Faithful(env) && forall op :: op in ops ==> WellShaped(op)
    ensures Intact(Run(env, ops))
  {
    if ops != [] {
      var init, op := ops[..|ops| - 1], ops[|ops| - 1];
      assert op in ops && forall o :: o in init ==> o in ops;
      RunIntact(env, init);
      match op
      case CaptureOp(o, id, retain) => CaptureIntact(env, Run(env, init), o, id, retain);
      case PurgeOp(f, id, jobId, hash, c) =>
        RunInv(env, init);
        PurgeIntact(env, Run(env, init), LogOf(env, init), f, id, jobId, hash, c);
    }
  }

  /** No rewriting of an honest archive goes unnoticed once its heads are known. */
  lemma HonestRunIsTamperEvident(env: Env, ops: seq<Op>, forged: Store)
    requires Ideal(env) && Faithful(env) && forall op :: op in ops ==> WellShaped(op)
    requires FitsSchema(forged) && Accepts(env, forged)
    requires forged.lastSequence == Run(env, ops).lastSequence && forged.headHash == Run(env, ops).headHash
    requires TombstoneHead(forged.tombstones) == TombstoneHead(Run(env, ops).tombstones)
    ensures forall f :: f in forged.events ==>
              && 1 <= f.sequence <= |LogOf(env, ops)|
              && SameHashedFields(LogOf(env, ops)[f.sequence - 1], f)
  {
    RunIntact(env, ops);
    EveryRunVerifies(env, ops);
    VerifiedHeadsCommit(env, Run(env, ops), forged);
    MatchLog(LogOf(env, ops), Run(env, ops).events, forged.events);
  }

  lemma MatchLog(log: seq<Event>, honest: seq<Event>, forged: seq<Event>)
    requires forall e :: e in honest ==> Logged(log, e)
    requires forall f :: f in forged ==> exists e :: e in honest && e.sequence == f.sequence
    requires forall e, f :: e in honest && f in forged && e.sequence == f.sequence ==> SameHashedFields(e, f)
    ensures forall f :: f in forged ==> 1 <= f.sequence <= |log| && SameHashedFields(log[f.sequence - 1], f)
  {
    forall f | f in forged ensures 1 <= f.sequence <= |log| && SameHashedFields(log[f.sequence - 1], f) {
      var e :| e in honest && e.sequence == f.sequence;
      assert Logged(log, e);
    }
  }
}
