/**
 The hash chain of the archive: what `verify` demands of stored rows, stated over the rows
 themselves, and why rows that pass cannot have been altered.
 */
module ArchiveChain {
  import opened Strings
  import opened JsonText
  import opened JsonValues

  /** The account's id and the primitives the archive calls. */
  datatype Env = Env(
    accountId: string,
    digest: string -> string,  // chainDigest
    sign: string -> string,    // sign, under the master key
    iso: int -> string,        // Date.prototype.toISOString
    jsonb: Json -> Json)       // what a JSONB column returns for what was written

  datatype Event = Event(
    id: string,
    sequence: int,
    eventType: string,
    entityJid: Option<string>,
    occurredAt: int,
    payloadHash: string,
    previousHash: Option<string>,
    recordHash: string,
    excluded: bool)

  datatype Tombstone = Tombstone(
    id: string,
    purgeJobId: string,
    criteriaHash: string,
    deletedSummary: Json,
    previousHash: Option<string>,
    tombstoneHash: string)

  /** The rows of one account: its checkpoint, its events and its tombstones in time order. */
  datatype Store = Store(
    lastSequence: int,
    headHash: Option<string>,
    events: seq<Event>,
    tombstones: seq<Tombstone>)

  /** A stretch of the chain: one retained event, or one range of a tombstone. */
  datatype Segment = Segment(start: int, end: int, previousHash: Option<string>, lastHash: string)

  ghost predicate Injective<A(!new), B(!new)>(f: A -> B) {
    forall a, b :: f(a) == f(b) ==> a == b
  }

  /** The idealisation: digests and signatures do not collide, dates print without a bar. */
  ghost predicate Ideal(env: Env) {
    && '|' !in env.accountId
    && Injective(env.digest) && Injective(env.sign) && Injective(env.iso)
    && (forall s :: '|' !in env.digest(s))
    && (forall s :: env.sign(s) != "" && '|' !in env.sign(s))
    && (forall t :: '|' !in env.iso(t))
  }

  /** A JSONB column may reorder object keys; it keeps the meaning. */
  ghost predicate Faithful(env: Env) {
    forall j :: WellFormed(j) ==> WellFormed(env.jsonb(j)) && Denote(env.jsonb(j)) == Denote(j)
  }

  // ---------------------------------------------------------------- hashed text

  /** The six fields joined by `|` that a record hash covers. */
  function RecordText(env: Env, e: Event): string {
    env.accountId + "|" + (Signed(e.sequence) + "|" + (RecordBody(env, e) + "|" + OrEmpty(e.previousHash)))
  }

  function RecordBody(env: Env, e: Event): string {
    e.eventType + "|" + env.iso(e.occurredAt) + "|" + e.payloadHash
  }

  predicate SameHashedFields(e: Event, f: Event) {
    && e.sequence == f.sequence
    && e.eventType == f.eventType
    && e.occurredAt == f.occurredAt
    && e.payloadHash == f.payloadHash
    && OrEmpty(e.previousHash) == OrEmpty(f.previousHash)
    && e.recordHash == f.recordHash
  }

  /**
   The join is injective although the event type may itself contain bars: the parts around
   it are cut off from both ends.  `e` has an intact payload hash and `f` one that fits the
   same column.
   */
  lemma RecordTextInjective(env: Env, e: Event, f: Event)
    requires Ideal(env) && RecordText(env, e) == RecordText(env, f)
    requires '|' !in e.payloadHash && |f.payloadHash| <= |e.payloadHash|
    requires OrEmpty(e.previousHash) == OrEmpty(f.previousHash)
             || ('|' !in OrEmpty(e.previousHash) && '|' !in OrEmpty(f.previousHash))
    ensures e.sequence == f.sequence && e.eventType == f.eventType && e.occurredAt == f.occurredAt
    ensures e.payloadHash == f.payloadHash && OrEmpty(e.previousHash) == OrEmpty(f.previousHash)
  {
    var pe, pf := OrEmpty(e.previousHash), OrEmpty(f.previousHash);
    var be, bf := RecordBody(env, e), RecordBody(env, f);
    CutLeft(env.accountId, Signed(e.sequence) + "|" + (be + "|" + pe),
            env.accountId, Signed(f.sequence) + "|" + (bf + "|" + pf), '|');
    SignedShape(e.sequence);
    SignedShape(f.sequence);
    CutLeft(Signed(e.sequence), be + "|" + pe, Signed(f.sequence), bf + "|" + pf, '|');
    SignedInjective(e.sequence, f.sequence);
    if pe == pf {
      Assoc(be, "|", pe);
      Assoc(bf, "|", pf);
      CancelRight(be, bf, "|" + pe);
    } else {
      CutRight(be, pe, bf, pf, '|');
    }
    CutRight(e.eventType + "|" + env.iso(e.occurredAt), e.payloadHash,
             f.eventType + "|" + env.iso(f.occurredAt), f.payloadHash, '|');
    CutRight(e.eventType, env.iso(e.occurredAt), f.eventType, env.iso(f.occurredAt), '|');
  }

  /**
   The bound on the payload hash is needed: with a longer one, a bar inside it can play the
   part of a separator, and two different events hash the same text.
   */
  lemma OverlongPayloadHashCollides(env: Env, e: Event, later: int, hash: string)
    requires e.eventType == "status|" + env.iso(later) + "|x" && e.payloadHash == hash
    ensures var f := e.(eventType := "status", occurredAt := later,
                        payloadHash := "x|" + env.iso(e.occurredAt) + "|" + hash);
            RecordText(env, e) == RecordText(env, f) && !SameHashedFields(e, f)
            && |f.payloadHash| > |e.payloadHash|
  {
    var f := e.(eventType := "status", occurredAt := later,
                payloadHash := "x|" + env.iso(e.occurredAt) + "|" + hash);
    assert RecordBody(env, e) == RecordBody(env, f);
  }

  /** The five fields joined by `|` that a tombstone signature covers. */
  function TombstoneText(env: Env, t: Tombstone, previous: Option<string>): string {
    env.accountId + "|" + (t.purgeJobId + "|" + (t.criteriaHash + "|"
    + (CanonicalJson(t.deletedSummary) + "|" + OrEmpty(previous))))
  }

  lemma TombstoneTextInjective(env: Env, t: Tombstone, p: Option<string>, u: Tombstone, q: Option<string>)
    requires Ideal(env) && TombstoneText(env, t, p) == TombstoneText(env, u, q)
    requires '|' !in t.purgeJobId && |u.purgeJobId| <= |t.purgeJobId|
    requires '|' !in t.criteriaHash && |u.criteriaHash| <= |t.criteriaHash|
    requires '|' !in OrEmpty(p) && '|' !in OrEmpty(q)
    requires WellFormed(t.deletedSummary) && WellFormed(u.deletedSummary)
    ensures t.purgeJobId == u.purgeJobId && t.criteriaHash == u.criteriaHash
    ensures Denote(t.deletedSummary) == Denote(u.deletedSummary) && OrEmpty(p) == OrEmpty(q)
  {
    var ct, cu := CanonicalJson(t.deletedSummary), CanonicalJson(u.deletedSummary);
    var rt, ru := ct + "|" + OrEmpty(p), cu + "|" + OrEmpty(q);
    CutLeft(env.accountId, t.purgeJobId + "|" + (t.criteriaHash + "|" + rt),
            env.accountId, u.purgeJobId + "|" + (u.criteriaHash + "|" + ru), '|');
    CutLeft(t.purgeJobId, t.criteriaHash + "|" + rt, u.purgeJobId, u.criteriaHash + "|" + ru, '|');
    CutLeft(t.criteriaHash, rt, u.criteriaHash, ru, '|');
    CutRight(ct, OrEmpty(p), cu, OrEmpty(q), '|');
    CanonicalJsonIff(t.deletedSummary, u.deletedSummary);
  }

  // ---------------------------------------------------------------- tombstone summaries

  /** The ranges a summary lists; none if it has no list of them. */
  function RangeValues(summary: Value): seq<Value> {
    match Field(summary, "deletedRanges")
    case Some(VArr(items)) => items
    case _ => []
  }

  /** One stored range, if it has the shape `verify` insists on. */
  function ParseRange(v: Value): Option<Segment> {
    match (Field(v, "start"), Field(v, "end"), Field(v, "previousHash"), Field(v, "lastHash"))
    case (Some(VStr(s)), Some(VStr(e)), Some(p), Some(VStr(h))) =>
      if IsDigits(s) && IsDigits(e) && (p.VNull? || p.VStr?) && 1 <= Numeral(s) <= Numeral(e) then
        Some(Segment(Numeral(s), Numeral(e), if p.VStr? then Some(p.s) else None, h))
      else None
    case _ => None
  }

  function ParseRanges(vs: seq<Value>): seq<Segment> {
    if vs == [] then []
    else
      var init := ParseRanges(vs[..|vs| - 1]);
      match ParseRange(vs[|vs| - 1])
      case Some(s) => init + [s]
      case None => init
  }

  /** How many events a summary records: 0 if that is no number, None if it is no whole number and reading it throws. */
  function EventCount(summary: Value): Option<int> {
    match Field(summary, "events")
    case Some(VNum(t)) =>
      if IsNumeral(t) then Some(BigIntOf(t)) else None
    case Some(VStr(t)) => if IsDigits(t) then Some(Numeral(t)) else Some(0)
    case Some(VBool(b)) => Some(if b then 1 else 0)
    case _ => Some(0)
  }

  function TotalLength(segments: seq<Segment>): int {
    if segments == [] then 0
    else
      var s := segments[|segments| - 1];
      TotalLength(segments[..|segments| - 1]) + (s.end - s.start + 1)
  }

  function TombstoneSegments(t: Tombstone): seq<Segment> {
    ParseRanges(RangeValues(Denote(t.deletedSummary)))
  }

  function DeletedSegments(ts: seq<Tombstone>): seq<Segment> {
    if ts == [] then [] else DeletedSegments(ts[..|ts| - 1]) + TombstoneSegments(ts[|ts| - 1])
  }

  function RetainedSegment(e: Event): Segment {
    Segment(e.sequence, e.sequence, e.previousHash, e.recordHash)
  }

  function RetainedSegments(events: seq<Event>): (r: seq<Segment>)
    ensures |r| == |events|
    ensures forall i :: 0 <= i < |r| ==> r[i] == RetainedSegment(events[i])
  {
    seq(|events|, i requires 0 <= i < |events| => RetainedSegment(events[i]))
  }

  function Segments(s: Store): seq<Segment> {
    DeletedSegments(s.tombstones) + RetainedSegments(s.events)
  }

  // ---------------------------------------------------------------- what verify accepts

  function TombstoneHead(ts: seq<Tombstone>): Option<string> {
    if ts == [] then None else Some(ts[|ts| - 1].tombstoneHash)
  }

  /** The ranges of a summary are well formed and total the number of events it records. */
  predicate RangesOk(summary: Value) {
    && !summary.VNull?
    && (forall r :: r in RangeValues(summary) ==> ParseRange(r).Some?)
    && EventCount(summary) == Some(TotalLength(ParseRanges(RangeValues(summary))))
  }

  predicate Authentic(env: Env, t: Tombstone, previous: Option<string>) {
    && t.previousHash == previous
    && t.tombstoneHash == env.sign(TombstoneText(env, t, previous))
    && RangesOk(Denote(t.deletedSummary))
  }

  predicate AuthenticAt(env: Env, ts: seq<Tombstone>, i: int)
    requires 0 <= i < |ts|
  {
    Authentic(env, ts[i], TombstoneHead(ts[..i]))
  }

  /** Every tombstone is signed, and linked to the one before it. */
  predicate TombstonesAuthentic(env: Env, ts: seq<Tombstone>) {
    forall i :: 0 <= i < |ts| ==> AuthenticAt(env, ts, i)
  }

  predicate EventsAuthentic(env: Env, events: seq<Event>) {
    forall e :: e in events ==> e.recordHash == env.digest(RecordText(env, e))
  }

  predicate Covers(s: Segment, k: int) {
    s.start <= k <= s.end
  }

  function CoverCount(segments: seq<Segment>, k: int): nat {
    if segments == [] then 0
    else (if Covers(segments[0], k) then 1 else 0) + CoverCount(segments[1..], k)
  }

  /** The segments cover a..n exactly once, and nothing else. */
  ghost predicate Tile(segments: seq<Segment>, a: int, n: int) {
    forall k :: CoverCount(segments, k) == if a <= k <= n then 1 else 0
  }

  /**
   Every segment names the last hash of the segment that ends just before it; the first
   one names `p`, and `h` is the last hash of the one that ends at n.
   */
  ghost predicate Linked(segments: seq<Segment>, a: int, p: Option<string>, n: int, h: Option<string>) {
    && (forall s :: s in segments && s.start == a ==> s.previousHash == p)
    && (forall s, t :: s in segments && t in segments && t.end + 1 == s.start ==> s.previousHash == Some(t.lastHash))
    && (forall s :: s in segments && s.end == n ==> h == Some(s.lastHash))
    && (n == a - 1 ==> h == p)
  }

  ghost predicate Accepts(env: Env, s: Store) {
    && TombstonesAuthentic(env, s.tombstones)
    && EventsAuthentic(env, s.events)
    && s.lastSequence >= 0
    && Tile(Segments(s), 1, s.lastSequence)
    && Linked(Segments(s), 1, None, s.lastSequence, s.headHash)
  }

  // ---------------------------------------------------------------- counting covers

  lemma {:induction false} CoverConcat(a: seq<Segment>, b: seq<Segment>, k: int)
    ensures CoverCount(a + b, k) == CoverCount(a, k) + CoverCount(b, k)
  {
    if a == [] {
      assert a + b == b;
    } else {
      assert (a + b)[1..] == a[1..] + b;
      CoverConcat(a[1..], b, k);
    }
  }

  lemma {:induction false} CoverWitness(segments: seq<Segment>, k: int)
    ensures CoverCount(segments, k) > 0 <==> exists s :: s in segments && Covers(s, k)
  {
    if segments != [] {
      CoverWitness(segments[1..], k);
      assert segments == [segments[0]] + segments[1..];
    }
  }

  lemma {:induction false} CoverUnique(segments: seq<Segment>, k: int, s: Segment, t: Segment)
    requires CoverCount(segments, k) <= 1
    requires s in segments && t in segments && Covers(s, k) && Covers(t, k)
    ensures s == t
  {
    assert segments == [segments[0]] + segments[1..];
    CoverWitness(segments[1..], k);
    if !Covers(segments[0], k) {
      CoverUnique(segments[1..], k, s, t);
    }
  }

  ghost predicate Proper(segments: seq<Segment>) {
    forall s :: s in segments ==> s.start <= s.end
  }

  /** In a tiling, a segment that does not start at `a` has a segment that ends just before it. */
  lemma TileBefore(segments: seq<Segment>, a: int, n: int, s: Segment) returns (u: Segment)
    requires Tile(segments, a, n) && Proper(segments) && s in segments && s.start > a
    ensures u in segments && u.end + 1 == s.start
  {
    CoverWitness(segments, s.start);
    var k := s.start - 1;
    assert CoverCount(segments, s.start) == 1;
    assert CoverCount(segments, k) == 1;
    CoverWitness(segments, k);
    u :| u in segments && Covers(u, k);
    if u.end > k {
      CoverUnique(segments, s.start, s, u);
    }
  }

  lemma {:induction false} RetainedCover(events: seq<Event>, k: int)
    ensures CoverCount(RetainedSegments(events), k) > 0 <==> exists e :: e in events && e.sequence == k
  {
    var r := RetainedSegments(events);
    CoverWitness(r, k);
    if CoverCount(r, k) > 0 {
      var s :| s in r && Covers(s, k);
      var i :| 0 <= i < |r| && r[i] == s;
      assert events[i] in events;
    }
    forall e | e in events && e.sequence == k ensures CoverCount(r, k) > 0 {
      var i :| 0 <= i < |events| && events[i] == e;
      assert r[i] in r && Covers(r[i], k);
    }
  }

  lemma {:induction false} ParsedProper(vs: seq<Value>)
    ensures forall s :: s in ParseRanges(vs) ==> 1 <= s.start <= s.end
  {
    if vs != [] { ParsedProper(vs[..|vs| - 1]); }
  }

  lemma {:induction false} DeletedProper(ts: seq<Tombstone>)
    ensures forall s :: s in DeletedSegments(ts) ==> 1 <= s.start <= s.end
  {
    if ts != [] {
      DeletedProper(ts[..|ts| - 1]);
      ParsedProper(RangeValues(Denote(ts[|ts| - 1].deletedSummary)));
    }
  }

  lemma SegmentsProper(s: Store)
    ensures Proper(Segments(s))
  {
    DeletedProper(s.tombstones);
  }

  // ---------------------------------------------------------------- walking the sorted chain

  predicate SortedByStart(segments: seq<Segment>) {
    forall i, j :: 0 <= i < j < |segments| ==> segments[i].start <= segments[j].start
  }

  /** The built-in stable sort with the comparison on `start`. */
  function SortByStart(segments: seq<Segment>): seq<Segment> {
    if segments == [] then [] else InsertByStart(segments[0], SortByStart(segments[1..]))
  }

  function InsertByStart(s: Segment, sorted: seq<Segment>): seq<Segment> {
    if sorted == [] || s.start <= sorted[0].start then [s] + sorted
    else [sorted[0]] + InsertByStart(s, sorted[1..])
  }

  lemma {:induction false} InsertSorts(s: Segment, sorted: seq<Segment>, k: int)
    requires SortedByStart(sorted)
    ensures SortedByStart(InsertByStart(s, sorted))
    ensures forall t :: t in InsertByStart(s, sorted) <==> t == s || t in sorted
    ensures CoverCount(InsertByStart(s, sorted), k) == CoverCount([s], k) + CoverCount(sorted, k)
  {
    if sorted == [] || s.start <= sorted[0].start {
      CoverConcat([s], sorted, k);
    } else {
      InsertSorts(s, sorted[1..], k);
      var r := InsertByStart(s, sorted[1..]);
      assert sorted == [sorted[0]] + sorted[1..];
      CoverConcat([sorted[0]], r, k);
      CoverConcat([sorted[0]], sorted[1..], k);
      forall i | 0 <= i < |r| ensures sorted[0].start <= r[i].start {
        assert r[i] in r;
      }
    }
  }

  lemma {:induction false} SortSorts(segments: seq<Segment>, k: int)
    ensures SortedByStart(SortByStart(segments))
    ensures forall t :: t in SortByStart(segments) <==> t in segments
    ensures CoverCount(SortByStart(segments), k) == CoverCount(segments, k)
  {
    if segments != [] {
      SortSorts(segments[1..], k);
      InsertSorts(segments[0], SortByStart(segments[1..]), k);
      assert segments == [segments[0]] + segments[1..];
      CoverConcat([segments[0]], segments[1..], k);
    }
  }

  datatype Walk = Stuck(at: int) | Reached(next: int, hash: Option<string>)

  /** The loop that advances `expectedSequence` and `expectedPrevious`. */
  function WalkChain(chain: seq<Segment>, expected: int, previous: Option<string>): Walk {
    if chain == [] then Reached(expected, previous)
    else if chain[0].start != expected || chain[0].previousHash != previous then Stuck(expected)
    else WalkChain(chain[1..], chain[0].end + 1, Some(chain[0].lastHash))
  }

  lemma {:induction false} WalkAdvances(chain: seq<Segment>, a: int, p: Option<string>)
    requires Proper(chain) && WalkChain(chain, a, p).Reached?
    ensures WalkChain(chain, a, p).next >= a
  {
    if chain != [] {
      assert chain[0] in chain;
      WalkAdvances(chain[1..], chain[0].end + 1, Some(chain[0].lastHash));
    }
  }

  /** Walking reaches n with hash h only if the segments tile a..n and are linked. */
  lemma {:induction false} WalkSound(chain: seq<Segment>, a: int, p: Option<string>, n: int, h: Option<string>)
    requires Proper(chain) && WalkChain(chain, a, p) == Reached(n + 1, h)
    ensures n >= a - 1 && Tile(chain, a, n) && Linked(chain, a, p, n, h)
  {
    WalkAdvances(chain, a, p);
    if chain != [] {
      var s, rest := chain[0], chain[1..];
      assert chain == [s] + rest;
      WalkSound(rest, s.end + 1, Some(s.lastHash), n, h);
      StartsAfter(rest, s.end + 1, n);
    }
  }

  lemma StartsAfter(segments: seq<Segment>, a: int, n: int)
    requires Proper(segments) && Tile(segments, a, n)
    ensures forall s :: s in segments ==> a <= s.start && s.end <= n
  {
    forall s | s in segments ensures a <= s.start && s.end <= n {
      CoverWitness(segments, s.start);
      CoverWitness(segments, s.end);
      assert Covers(s, s.start) && Covers(s, s.end);
    }
  }

  /** The first of sorted segments that tile a..n starts at a; the others tile the rest. */
  lemma TileSplit(chain: seq<Segment>, a: int, n: int)
    requires SortedByStart(chain) && Proper(chain) && Tile(chain, a, n) && n >= a - 1
    ensures chain == [] ==> n == a - 1
    ensures chain != [] ==> chain[0].start == a && chain[0].end <= n && Tile(chain[1..], chain[0].end + 1, n)
  {
    StartsAfter(chain, a, n);
    CoverWitness(chain, a);
    if chain == [] {
      assert CoverCount(chain, a) == 0;
    } else {
      var s := chain[0];
      assert s in chain;
      assert CoverCount(chain, a) == 1;
      var t :| t in chain && Covers(t, a);
      var i :| 0 <= i < |chain| && chain[i] == t;
      assert s.start == a;
      forall k ensures CoverCount(chain[1..], k) == if s.end + 1 <= k <= n then 1 else 0 {
        assert CoverCount(chain, k) == (if Covers(s, k) then 1 else 0) + CoverCount(chain[1..], k);
      }
    }
  }

  /** Sorted segments that tile a..n and are linked are walked to the end. */
  lemma {:induction false} WalkComplete(chain: seq<Segment>, a: int, p: Option<string>, n: int, h: Option<string>)
    requires SortedByStart(chain) && Proper(chain) && n >= a - 1
    requires Tile(chain, a, n) && Linked(chain, a, p, n, h)
    ensures WalkChain(chain, a, p) == Reached(n + 1, h)
  {
    TileSplit(chain, a, n);
    if chain != [] {
      LinkedTail(chain, a, p, n, h);
      WalkComplete(chain[1..], chain[0].end + 1, Some(chain[0].lastHash), n, h);
    }
  }

  lemma LinkedTail(chain: seq<Segment>, a: int, p: Option<string>, n: int, h: Option<string>)
    requires chain != [] && Proper(chain) && Linked(chain, a, p, n, h) && chain[0].end <= n
    ensures Proper(chain[1..])
    ensures Linked(chain[1..], chain[0].end + 1, Some(chain[0].lastHash), n, h)
  {
    assert chain[0] in chain;
    assert forall t :: t in chain[1..] ==> t in chain;
  }

  /** What the last part of `verify` decides about arbitrary segments. */
  lemma ChainCheckIff(segments: seq<Segment>, n: int, h: Option<string>)
    requires Proper(segments)
    ensures WalkChain(SortByStart(segments), 1, None) == Reached(n + 1, h)
       <==> n >= 0 && Tile(segments, 1, n) && Linked(segments, 1, None, n, h)
  {
    var chain := SortByStart(segments);
    forall k ensures CoverCount(chain, k) == CoverCount(segments, k) { SortSorts(segments, k); }
    SortSorts(segments, 0);
    if WalkChain(chain, 1, None) == Reached(n + 1, h) {
      WalkSound(chain, 1, None, n, h);
    }
    if n >= 0 && Tile(segments, 1, n) && Linked(segments, 1, None, n, h) {
      WalkComplete(chain, 1, None, n, h);
    }
  }

  // ---------------------------------------------------------------- tamper evidence

  /** Columns as the service fills them. */
  predicate Intact(s: Store) {
    && (forall e :: e in s.events ==> '|' !in e.payloadHash && |e.payloadHash| == 64)
    && IntactTombstones(s.tombstones)
  }

  /** What the column types of the schema admit. */
  predicate FitsSchema(s: Store) {
    && (forall e :: e in s.events ==> |e.payloadHash| <= 64)
    && TombstonesFit(s.tombstones)
  }

  predicate SameSignedFields(t: Tombstone, u: Tombstone) {
    && t.purgeJobId == u.purgeJobId
    && t.criteriaHash == u.criteriaHash
    && Denote(t.deletedSummary) == Denote(u.deletedSummary)
    && t.previousHash == u.previousHash
    && t.tombstoneHash == u.tombstoneHash
  }

  lemma HeadFree(env: Env, ts: seq<Tombstone>)
    requires Ideal(env) && TombstonesAuthentic(env, ts)
    ensures '|' !in OrEmpty(TombstoneHead(ts))
    ensures OrEmpty(TombstoneHead(ts)) == "" <==> ts == []
  {
    if ts != [] {
      assert AuthenticAt(env, ts, |ts| - 1);
    }
  }

  lemma InitAuthentic(env: Env, ts: seq<Tombstone>)
    requires ts != [] && TombstonesAuthentic(env, ts)
    ensures TombstonesAuthentic(env, ts[..|ts| - 1])
  {
    var init := ts[..|ts| - 1];
    forall i | 0 <= i < |init| ensures AuthenticAt(env, init, i) {
      assert init[..i] == ts[..i] && AuthenticAt(env, ts, i);
    }
  }

  predicate IntactTombstones(ts: seq<Tombstone>) {
    forall t :: t in ts ==>
      && '|' !in t.purgeJobId && |t.purgeJobId| == 36
      && '|' !in t.criteriaHash && |t.criteriaHash| == 64
      && WellFormed(t.deletedSummary)
  }

  predicate TombstonesFit(ts: seq<Tombstone>) {
    forall t :: t in ts ==> |t.purgeJobId| <= 36 && |t.criteriaHash| <= 64 && WellFormed(t.deletedSummary)
  }

  /** One step back: equal last hashes mean equal last tombstones and equal hashes before them. */
  lemma LastTombstoneCommits(env: Env, a: seq<Tombstone>, b: seq<Tombstone>)
    requires Ideal(env) && TombstonesAuthentic(env, a) && TombstonesAuthentic(env, b)
    requires IntactTombstones(a) && TombstonesFit(b)
    requires a != [] && b != [] && TombstoneHead(a) == TombstoneHead(b)
    ensures SameSignedFields(a[|a| - 1], b[|b| - 1])
    ensures TombstoneHead(a[..|a| - 1]) == TombstoneHead(b[..|b| - 1])
  {
    var t, u, ia, ib := a[|a| - 1], b[|b| - 1], a[..|a| - 1], b[..|b| - 1];
    assert AuthenticAt(env, a, |a| - 1) && AuthenticAt(env, b, |b| - 1);
    InitAuthentic(env, a);
    InitAuthentic(env, b);
    HeadFree(env, ia);
    HeadFree(env, ib);
    assert t in a && u in b;
    TombstoneTextInjective(env, t, TombstoneHead(ia), u, TombstoneHead(ib));
  }

  /** The tombstone head that `verify` reports commits to every tombstone. */
  lemma {:induction false} TombstoneHeadCommits(env: Env, a: seq<Tombstone>, b: seq<Tombstone>)
    requires Ideal(env) && TombstonesAuthentic(env, a) && TombstonesAuthentic(env, b)
    requires IntactTombstones(a) && TombstonesFit(b)
    requires TombstoneHead(a) == TombstoneHead(b)
    ensures |a| == |b| && forall i :: 0 <= i < |a| ==> SameSignedFields(a[i], b[i])
    ensures DeletedSegments(a) == DeletedSegments(b)
  {
    if a != [] {
      LastTombstoneCommits(env, a, b);
      InitAuthentic(env, a);
      InitAuthentic(env, b);
      var ia, ib := a[..|a| - 1], b[..|b| - 1];
      assert forall t :: t in ia ==> t in a;
      assert forall t :: t in ib ==> t in b;
      TombstoneHeadCommits(env, ia, ib);
      forall i | 0 <= i < |a| ensures SameSignedFields(a[i], b[i]) {
        if i < |a| - 1 { assert a[i] == ia[i] && b[i] == ib[i]; }
      }
    }
  }

  /** An event of an accepted store and its place in the chain. */
  lemma EventPlace(env: Env, s: Store, e: Event)
    requires Accepts(env, s) && e in s.events
    ensures RetainedSegment(e) in Segments(s)
    ensures 1 <= e.sequence <= s.lastSequence && CoverCount(DeletedSegments(s.tombstones), e.sequence) == 0
  {
    var i :| 0 <= i < |s.events| && s.events[i] == e;
    var k := e.sequence;
    assert RetainedSegments(s.events)[i] == RetainedSegment(e);
    RetainedCover(s.events, k);
    CoverConcat(DeletedSegments(s.tombstones), RetainedSegments(s.events), k);
    assert CoverCount(Segments(s), k) > 0;
  }

  /** Where no tombstone covers k, the segment that covers it is a retained event. */
  lemma UncoveredIsEvent(env: Env, s: Store, seg: Segment, k: int) returns (e: Event)
    requires Accepts(env, s) && seg in Segments(s) && Covers(seg, k)
    requires CoverCount(DeletedSegments(s.tombstones), k) == 0
    ensures e in s.events && e.sequence == k && RetainedSegment(e) == seg
  {
    CoverWitness(DeletedSegments(s.tombstones), k);
    assert seg in RetainedSegments(s.events);
    var i :| 0 <= i < |s.events| && RetainedSegments(s.events)[i] == seg;
    e := s.events[i];
  }

  ghost predicate EndsWith(s: Store, k: int, h: Option<string>) {
    if k == 0 then h == None
    else exists u :: u in Segments(s) && u.end == k && h == Some(u.lastHash)
  }

  /** The hash a segment names is that of the boundary before it. */
  lemma StepBack(env: Env, s: Store, seg: Segment)
    requires Accepts(env, s) && seg in Segments(s)
    ensures seg.start >= 1 && EndsWith(s, seg.start - 1, seg.previousHash)
  {
    SegmentsProper(s);
    StartsAfter(Segments(s), 1, s.lastSequence);
    if seg.start > 1 {
      var u := TileBefore(Segments(s), 1, s.lastSequence, seg);
    }
  }

  /** The hash at a boundary outside every tombstone is a digest. */
  lemma BoundaryHash(env: Env, a: Store, b: Store, k: int, p: Option<string>, q: Option<string>)
    requires Ideal(env) && Accepts(env, a) && Accepts(env, b)
    requires DeletedSegments(a.tombstones) == DeletedSegments(b.tombstones)
    requires EndsWith(a, k, p) && EndsWith(b, k, q)
    ensures p == q || ('|' !in OrEmpty(p) && '|' !in OrEmpty(q))
    ensures p.None? <==> q.None?
  {
    if k != 0 {
      SegmentsProper(a);
      SegmentsProper(b);
      var d := DeletedSegments(a.tombstones);
      var s :| s in Segments(a) && s.end == k && p == Some(s.lastHash);
      var t :| t in Segments(b) && t.end == k && q == Some(t.lastHash);
      CoverWitness(d, k);
      if CoverCount(d, k) > 0 {
        var g :| g in d && Covers(g, k);
        CoverUnique(Segments(a), k, s, g);
        CoverUnique(Segments(b), k, t, g);
      } else {
        var e := UncoveredIsEvent(env, a, s, k);
        var f := UncoveredIsEvent(env, b, t, k);
      }
    }
  }

  /** Two events with one record hash at the same place agree on everything hashed. */
  lemma SameRecord(env: Env, a: Store, e: Event, b: Store, f: Event)
    requires Ideal(env) && Accepts(env, a) && Accepts(env, b)
    requires DeletedSegments(a.tombstones) == DeletedSegments(b.tombstones)
    requires Intact(a) && FitsSchema(b)
    requires e in a.events && f in b.events && e.sequence == f.sequence && e.recordHash == f.recordHash
    ensures SameHashedFields(e, f) && e.previousHash == f.previousHash
  {
    EventPlace(env, a, e);
    EventPlace(env, b, f);
    StepBack(env, a, RetainedSegment(e));
    StepBack(env, b, RetainedSegment(f));
    BoundaryHash(env, a, b, e.sequence - 1, e.previousHash, f.previousHash);
    assert env.digest(RecordText(env, e)) == env.digest(RecordText(env, f));
    RecordTextInjective(env, e, f);
  }

  ghost predicate Agree(a: Store, b: Store, low: int, high: int) {
    forall e, f :: e in a.events && f in b.events && e.sequence == f.sequence && low <= e.sequence <= high
               ==> SameHashedFields(e, f) && e.previousHash == f.previousHash
  }

  ghost predicate Comparable(env: Env, a: Store, b: Store) {
    && Ideal(env) && Accepts(env, a) && Accepts(env, b)
    && DeletedSegments(a.tombstones) == DeletedSegments(b.tombstones)
    && Intact(a) && FitsSchema(b)
  }

  /** The segment that ends at k, in both stores, when a tombstone covers k. */
  lemma AgreeOnDeleted(env: Env, a: Store, b: Store, k: int, s: Segment, t: Segment)
    requires Comparable(env, a, b) && CoverCount(DeletedSegments(a.tombstones), k) > 0
    requires s in Segments(a) && s.end == k && t in Segments(b) && t.end == k
    ensures s == t && Agree(a, b, s.start, k)
  {
    var d := DeletedSegments(a.tombstones);
    SegmentsProper(a);
    SegmentsProper(b);
    CoverWitness(d, k);
    var g :| g in d && Covers(g, k);
    CoverUnique(Segments(a), k, s, g);
    CoverUnique(Segments(b), k, t, g);
    forall e | e in a.events && e.sequence <= k ensures e.sequence < s.start {
      EventPlace(env, a, e);
      CoverWitness(d, e.sequence);
    }
  }

  lemma EventIsSegment(env: Env, s: Store, e: Event, seg: Segment)
    requires Accepts(env, s) && e in s.events && seg in Segments(s) && Covers(seg, e.sequence)
    ensures RetainedSegment(e) == seg
  {
    EventPlace(env, s, e);
    CoverUnique(Segments(s), e.sequence, seg, RetainedSegment(e));
  }

  lemma AgreeAt(env: Env, a: Store, b: Store, e: Event, f: Event, s: Segment, t: Segment)
    requires Comparable(env, a, b)
    requires e in a.events && f in b.events && e.sequence == f.sequence
    requires s in Segments(a) && Covers(s, e.sequence) && t in Segments(b) && Covers(t, f.sequence)
    requires s.lastHash == t.lastHash
    ensures SameHashedFields(e, f) && e.previousHash == f.previousHash
  {
    EventIsSegment(env, a, e, s);
    EventIsSegment(env, b, f, t);
    SameRecord(env, a, e, b, f);
  }

  /** The segment that ends at k, in both stores, when it is a retained event. */
  lemma AgreeOnRetained(env: Env, a: Store, b: Store, k: int, s: Segment, t: Segment)
    requires Comparable(env, a, b) && CoverCount(DeletedSegments(a.tombstones), k) == 0
    requires s in Segments(a) && Covers(s, k) && t in Segments(b) && Covers(t, k) && s.lastHash == t.lastHash
    ensures s == t && s.start == k && Agree(a, b, k, k)
  {
    forall e, f | e in a.events && f in b.events && e.sequence == f.sequence == k
      ensures SameHashedFields(e, f) && e.previousHash == f.previousHash
    {
      AgreeAt(env, a, b, e, f, s, t);
    }
    var e := UncoveredIsEvent(env, a, s, k);
    var f := UncoveredIsEvent(env, b, t, k);
    AgreeAt(env, a, b, e, f, s, t);
  }

  /** One step back along both chains, from a shared hash at k to one at k'. */
  lemma AgreeStep(env: Env, a: Store, b: Store, k: int, h: Option<string>) returns (k': int, h': Option<string>)
    requires Comparable(env, a, b)
    requires 0 < k && EndsWith(a, k, h) && EndsWith(b, k, h)
    ensures 0 <= k' < k && EndsWith(a, k', h') && EndsWith(b, k', h')
    ensures Agree(a, b, k' + 1, k)
  {
    var s :| s in Segments(a) && s.end == k && h == Some(s.lastHash);
    var t :| t in Segments(b) && t.end == k && h == Some(t.lastHash);
    SegmentsProper(a);
    SegmentsProper(b);
    if CoverCount(DeletedSegments(a.tombstones), k) > 0 {
      AgreeOnDeleted(env, a, b, k, s, t);
    } else {
      AgreeOnRetained(env, a, b, k, s, t);
    }
    StepBack(env, a, s);
    StepBack(env, b, t);
    k', h' := s.start - 1, s.previousHash;
  }

  /** From a shared hash at k, agreement runs back to the start of the chain. */
  lemma {:induction false} AgreeUpTo(env: Env, a: Store, b: Store, k: int, h: Option<string>)
    requires Comparable(env, a, b)
    requires 0 <= k && EndsWith(a, k, h) && EndsWith(b, k, h)
    ensures Agree(a, b, 1, k)
    decreases k
  {
    if k > 0 {
      var k', h' := AgreeStep(env, a, b, k, h);
      AgreeUpTo(env, a, b, k', h');
    }
  }

  lemma HeadEnds(env: Env, s: Store)
    requires Accepts(env, s)
    ensures EndsWith(s, s.lastSequence, s.headHash)
  {
    var n := s.lastSequence;
    if n > 0 {
      var segments := Segments(s);
      assert CoverCount(segments, n) == 1;
      CoverWitness(segments, n);
      var u :| u in segments && Covers(u, n);
      SegmentsProper(s);
      StartsAfter(segments, 1, n);
    }
  }

  /**
   Tamper evidence.  The triple that a successful `verify` reports (checkpoint sequence,
   head, tombstone head) commits to the whole archive: a second set of rows that passes
   with the same triple has the same tombstones and retains the same events, with every
   hashed field unchanged.  Event types may contain bars.
   */
  lemma VerifiedHeadsCommit(env: Env, a: Store, b: Store)
    requires Ideal(env) && Accepts(env, a) && Accepts(env, b)
    requires Intact(a) && FitsSchema(b)
    requires a.lastSequence == b.lastSequence && a.headHash == b.headHash
    requires TombstoneHead(a.tombstones) == TombstoneHead(b.tombstones)
    ensures |a.tombstones| == |b.tombstones|
    ensures forall i :: 0 <= i < |a.tombstones| ==> SameSignedFields(a.tombstones[i], b.tombstones[i])
    ensures forall e :: e in a.events ==> exists f :: f in b.events && f.sequence == e.sequence
    ensures forall f :: f in b.events ==> exists e :: e in a.events && e.sequence == f.sequence
    ensures forall e, f :: e in a.events && f in b.events && e.sequence == f.sequence
                       ==> SameHashedFields(e, f) && e.previousHash == f.previousHash
  {
    TombstoneHeadCommits(env, a.tombstones, b.tombstones);
    HeadEnds(env, a);
    HeadEnds(env, b);
    AgreeUpTo(env, a, b, a.lastSequence, a.headHash);
    AgreeEverywhere(env, a, b);
    OtherRetains(env, a, b);
    OtherRetains(env, b, a);
  }

  lemma AgreeEverywhere(env: Env, a: Store, b: Store)
    requires Accepts(env, a) && Agree(a, b, 1, a.lastSequence)
    ensures forall e, f :: e in a.events && f in b.events && e.sequence == f.sequence
                       ==> SameHashedFields(e, f) && e.previousHash == f.previousHash
  {
    forall e | e in a.events ensures 1 <= e.sequence <= a.lastSequence {
      EventPlace(env, a, e);
    }
  }

  lemma OtherRetains(env: Env, a: Store, b: Store)
    requires Accepts(env, a) && Accepts(env, b)
    requires DeletedSegments(a.tombstones) == DeletedSegments(b.tombstones)
    requires a.lastSequence == b.lastSequence
    ensures forall e :: e in a.events ==> exists f :: f in b.events && f.sequence == e.sequence
  {
    forall e | e in a.events ensures exists f :: f in b.events && f.sequence == e.sequence {
      EventPlace(env, a, e);
      assert CoverCount(Segments(b), e.sequence) == 1;
      CoverConcat(DeletedSegments(b.tombstones), RetainedSegments(b.events), e.sequence);
      RetainedCover(b.events, e.sequence);
    }
  }

  lemma RetainedConcat(a: seq<Event>, b: seq<Event>, k: int)
    ensures CoverCount(RetainedSegments(a + b), k)
         == CoverCount(RetainedSegments(a), k) + CoverCount(RetainedSegments(b), k)
  {
    assert RetainedSegments(a + b) == RetainedSegments(a) + RetainedSegments(b);
    CoverConcat(RetainedSegments(a), RetainedSegments(b), k);
  }

  lemma CoverWithout(events: seq<Event>, i: nat, k: int)
    requires i < |events|
    ensures CoverCount(RetainedSegments(events), k)
         == CoverCount(RetainedSegments(events[..i] + events[i + 1..]), k) + if events[i].sequence == k then 1 else 0
  {
    var before, after, one := events[..i], events[i + 1..], [events[i]];
    assert events == before + (one + after);
    RetainedConcat(before, one + after, k);
    RetainedConcat(one, after, k);
    RetainedConcat(before, after, k);
    assert RetainedSegments(one)[1..] == [];
  }

  /** Deleting one retained event without a tombstone is always noticed. */
  lemma DeletionIsNoticed(env: Env, a: Store, i: nat)
    requires Accepts(env, a) && i < |a.events|
    ensures !Accepts(env, a.(events := a.events[..i] + a.events[i + 1..]))
  {
    var b := a.(events := a.events[..i] + a.events[i + 1..]);
    var k := a.events[i].sequence;
    EventPlace(env, a, a.events[i]);
    CoverConcat(DeletedSegments(a.tombstones), RetainedSegments(a.events), k);
    CoverConcat(DeletedSegments(a.tombstones), RetainedSegments(b.events), k);
    CoverWithout(a.events, i, k);
    assert CoverCount(Segments(b), k) == 0;
  }
}
