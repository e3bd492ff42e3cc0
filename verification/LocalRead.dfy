/**
 The read-through cache: its keys, when a snapshot answers, single flight of live calls, and
 agreement of the snapshots with the history of stores and invalidations.
 */
module LocalRead {
  import opened Strings
  import opened JsonTies
  import opened JsonText
  import opened JsonValues

  // ---------------------------------------------------------------- keys

  datatype Key = Key(instanceId: string, operation: string, argumentsKey: string)

  /** Instance, method and argument key, joined by colons. */
  function UniqueKey(k: Key): string {
    k.instanceId + ":" + (k.operation + ":" + k.argumentsKey)
  }

  predicate ColonFree(k: Key) {
    ':' !in k.instanceId && ':' !in k.operation
  }

  /** Ids and method names have no colon, so the in-flight map has one slot per key. */
  lemma UniqueKeyInjective(a: Key, b: Key)
    requires ColonFree(a) && ColonFree(b) && UniqueKey(a) == UniqueKey(b)
    ensures a == b
  {
    CutLeft(a.instanceId, a.operation + ":" + a.argumentsKey, b.instanceId, b.operation + ":" + b.argumentsKey, ':');
    CutLeft(a.operation, a.argumentsKey, b.operation, b.argumentsKey, ':');
  }

  /** Keys that JavaScript objects list first, in numeric order: canonical array indexes. */
  predicate IsIndex(k: string) {
    IsCanonical(k) && Numeral(k) < 4294967295
  }

  /** The order in which an object lists its keys once they have been inserted in the order of `le`. */
  function IndexFirst(le: Order): Order {
    (a: string, b: string) =>
      if IsIndex(a) && IsIndex(b) then Numeral(a) <= Numeral(b)
      else if IsIndex(a) || IsIndex(b) then IsIndex(a)
      else le(a, b)
  }

  lemma IndexFirstPreorder(le: Order)
    requires Preorder(le)
    ensures Preorder(IndexFirst(le))
  {
  }

  /** Index keys never tie: the ties are those of the locale, between other keys. */
  lemma TiesAreLocal(le: Order, k: string, l: string)
    requires k != l
    ensures IndexFirst(le)(k, l) && IndexFirst(le)(l, k) <==> !IsIndex(k) && !IsIndex(l) && le(k, l) && le(l, k)
  {
    if IsIndex(k) && IsIndex(l) && Numeral(k) == Numeral(l) {
      CanonicalRoundTrip(k);
      CanonicalRoundTrip(l);
    }
  }

  /** `localReadArgumentsKey`, for the locale's comparison and a given digest. */
  function ArgumentsKey(le: Order, digest: string -> string, args: Json): string {
    digest(Sorted(IndexFirst(le), args))
  }

  ghost predicate NoCollisions(digest: string -> string) {
    forall s, t :: digest(s) == digest(t) ==> s == t
  }

  /** A shared key is never wrong: for any comparison, arguments with one key mean the same. */
  lemma SameKeySameArguments(le: Order, digest: string -> string, a: Json, b: Json)
    requires NoCollisions(digest) && WellFormed(a) && WellFormed(b)
    requires ArgumentsKey(le, digest, a) == ArgumentsKey(le, digest, b)
    ensures Denote(a) == Denote(b)
  {
    SameTextSameMeaning(IndexFirst(le), a, b);
  }

  /**
   A key is missed exactly for arguments with ties: every argument list that means the same
   has the same key, if and only if no object in the arguments has two different keys that
   the locale compares as equal.
   */
  lemma ArgumentsKeyIff(le: Order, digest: string -> string, a: Json)
    requires Preorder(le) && NoCollisions(digest) && WellFormed(a)
    ensures (forall b :: WellFormed(b) ==>
               (ArgumentsKey(le, digest, b) == ArgumentsKey(le, digest, a) <==> Denote(b) == Denote(a)))
       <==> Untied(IndexFirst(le), Denote(a))
  {
    IndexFirstPreorder(le);
    CanonicalTextIff(IndexFirst(le), a);
    forall b | WellFormed(b) && ArgumentsKey(le, digest, b) == ArgumentsKey(le, digest, a)
      ensures Denote(b) == Denote(a)
    {
      SameKeySameArguments(le, digest, b, a);
    }
  }

  /**
   Such keys exist: a letter with an accent, composed and decomposed, compare as equal.  One
   argument with both keys has two cache keys, by the order in which they were inserted.
   */
  lemma ComposedKeysMiss(le: Order, digest: string -> string, v: Json)
    requires NoCollisions(digest) && le("\U{00E9}", "e\U{0301}") && le("e\U{0301}", "\U{00E9}")
    ensures var composed, decomposed := Entry("\U{00E9}", v), Entry("e\U{0301}", v);
            var a, b := Arr([Obj([composed, decomposed])]), Arr([Obj([decomposed, composed])]);
            Denote(a) == Denote(b) && ArgumentsKey(le, digest, a) != ArgumentsKey(le, digest, b)
  {
    var k, l := "\U{00E9}", "e\U{0301}";
    assert k[0] != l[0];
    TiesAreLocal(le, k, l);
    TiedKeysKeepInsertionOrder(IndexFirst(le), k, l, v);
    var x, y := Obj([Entry(k, v), Entry(l, v)]), Obj([Entry(l, v), Entry(k, v)]);
    OneItem(IndexFirst(le), x);
    OneItem(IndexFirst(le), y);
    var p, q := Sorted(IndexFirst(le), x), Sorted(IndexFirst(le), y);
    assert ("[" + p + "]")[1..|p| + 1] == p && ("[" + q + "]")[1..|q| + 1] == q;
  }

  lemma OneItem(le: Order, j: Json)
    ensures Sorted(le, Arr([j])) == "[" + Sorted(le, j) + "]" && Denote(Arr([j])) == VArr([Denote(j)])
  {
    var n := Normalize(le, j);
    assert [j][1..] == [];
    assert NormalizeItems(le, [j]) == [n];
    assert PrintItems([n]) == Print(n);
  }

  // ---------------------------------------------------------------- when a snapshot answers

  predicate NonEmptyArray(v: Option<Value>) {
    v.Some? && v.value.VArr? && v.value.items != []
  }

  predicate Nullish(v: Option<Value>) {
    v.None? || v.value.VNull?
  }

  function ResultOf(value: Value): Value {
    if Field(value, "result").Some? then Field(value, "result").value else value
  }

  /** `hasRelevantLocalData`. */
  predicate Relevant(name: string, value: Value) {
    var result := ResultOf(value);
    if name == "getCatalog" then NonEmptyArray(Field(result, "products"))
    else if name == "getCollections" then NonEmptyArray(Field(result, "collections"))
    else if name == "profilePictureUrl" || name == "chat.fetchProfilePictureUrl" then
      var picture, url := Field(result, "profilePictureUrl"), Field(result, "url");
      var chosen := if !Nullish(picture) then picture.value else if !Nullish(url) then url.value else result;
      chosen.VStr? && chosen.s != ""
    else match result
      case VNull => false
      case VStr(s) => s != ""
      case VArr(items) => items != []
      case VObj(fields) => fields != map[]
      case _ => true
  }

  /** Whatever the method, a relevant snapshot is not empty. */
  lemma RelevantIsNotEmpty(name: string, value: Value)
    requires Relevant(name, value)
    ensures ResultOf(value) !in {VNull, VStr(""), VArr([]), VObj(map[])}
  {
  }

  /** Where a time to live may be set, most specific first. */
  datatype TtlSources = TtlSources(
    templateOverrides: Option<map<string, int>>,
    instanceOverrides: Option<map<string, int>>,
    templateDefault: Option<int>,
    instanceDefault: Option<int>,
    environmentOverrides: map<string, int>,
    environmentDefault: int)

  function Ttl(t: TtlSources, name: string): int {
    var overrides :=
      if t.templateOverrides.Some? then t.templateOverrides.value
      else if t.instanceOverrides.Some? then t.instanceOverrides.value else map[];
    if name in overrides then overrides[name]
    else if t.templateDefault.Some? then t.templateDefault.value
    else if t.instanceDefault.Some? then t.instanceDefault.value
    else if name in t.environmentOverrides then t.environmentOverrides[name]
    else t.environmentDefault
  }

  datatype Snapshot = Snapshot(result: Value, complete: bool, fetchedAt: int)

  function AgeSeconds(s: Snapshot, now: int): int {
    var age := (now - s.fetchedAt) / 1000;
    if age > 0 then age else 0
  }

  /** A snapshot answers for less than one second more than its time to live. */
  lemma FreshIff(s: Snapshot, now: int, ttl: int)
    ensures AgeSeconds(s, now) <= ttl <==> ttl >= 0 && now - s.fetchedAt < (ttl + 1) * 1000
  {
  }

  // ---------------------------------------------------------------- the history behind the snapshots

  datatype Entry =
    | Stored(key: Key, result: Value, at: int)
    | Invalidated(instanceId: string, methods: seq<string>)

  /** The last store under a key, unless its method was invalidated since. */
  function LastStore(history: seq<Entry>, key: Key): Option<Snapshot> {
    if history == [] then None
    else
      var n := |history| - 1;
      match history[n]
      case Stored(k, v, at) => if k == key then Some(Snapshot(v, true, at)) else LastStore(history[..n], key)
      case Invalidated(id, methods) =>
        if key.instanceId == id && key.operation in methods then None else LastStore(history[..n], key)
  }

  ghost predicate Agrees(snapshots: map<Key, Snapshot>, history: seq<Entry>) {
    forall key :: LastStore(history, key) == if key in snapshots then Some(snapshots[key]) else None
  }

  ghost predicate Disturbs(e: Entry, key: Key) {
    match e
    case Stored(k, _, _) => k == key
    case Invalidated(id, methods) => key.instanceId == id && key.operation in methods
  }

  ghost predicate Undisturbed(history: seq<Entry>, key: Key, i: int) {
    forall k :: i < k < |history| && k >= 0 ==> !Disturbs(history[k], key)
  }

  /** Entry i is a store of the key with nothing relevant after it. */
  ghost predicate LastAt(history: seq<Entry>, key: Key, i: int) {
    0 <= i < |history| && history[i].Stored? && history[i].key == key && Undisturbed(history, key, i)
  }

  lemma LastAtStep(history: seq<Entry>, key: Key, i: int)
    requires 0 <= i < |history| - 1
    ensures LastAt(history, key, i)
       <==> LastAt(history[..|history| - 1], key, i) && !Disturbs(history[|history| - 1], key)
  {
    var init := history[..|history| - 1];
    if LastAt(history, key, i) {
      forall k | i < k < |init| ensures !Disturbs(init[k], key) { assert history[k] == init[k]; }
    }
  }

  /** `LastStore` is what it says: a store of that key, with nothing relevant after it. */
  lemma {:induction false} LastStoreMeaning(history: seq<Entry>, key: Key)
    ensures LastStore(history, key).Some? <==> exists i :: LastAt(history, key, i)
    ensures forall i :: LastAt(history, key, i)
              ==> LastStore(history, key) == Some(Snapshot(history[i].result, true, history[i].at))
  {
    if history != [] {
      var n := |history| - 1;
      var init, last := history[..n], history[n];
      LastStoreMeaning(init, key);
      forall i | 0 <= i < n ensures LastAt(history, key, i) <==> LastAt(init, key, i) && !Disturbs(last, key) {
        LastAtStep(history, key, i);
      }
      assert LastAt(history, key, n) <==> last.Stored? && last.key == key;
      if LastStore(init, key).Some? && !Disturbs(last, key) {
        var i :| LastAt(init, key, i);
        assert LastAt(history, key, i);
      }
    }
  }

  // ---------------------------------------------------------------- live calls

  /** How a live call ends; a value may be undefined. */
  datatype Outcome = Resolved(value: Option<Value>) | Rejected

  datatype Call = Call(key: Key, outcome: Option<Outcome>)

  datatype Phase =
    | Awaiting
    | Storing(value: Value)
    | Finishing(outcome: Outcome, stored: bool)
    | Returned(outcome: Outcome, stored: bool)

  /** A read that went live; the originator started the call, the others joined it. */
  datatype Reader = Reader(key: Key, call: nat, originator: bool, phase: Phase)

  datatype State = State(
    snapshots: map<Key, Snapshot>,
    inFlight: map<string, nat>,
    calls: seq<Call>,
    readers: seq<Reader>,
    history: seq<Entry>)

  datatype Move =
    | GoLive(key: Key)
    | Settle(call: nat, outcome: Outcome)
    | Wake(reader: nat)
    | Upsert(reader: nat, at: int)
    | UpsertFails(reader: nat)
    | Finish(reader: nat)
    | Store(key: Key, result: Value, at: int)
    | Invalidate(instanceId: string, methods: seq<string>)

  const INITIAL := State(map[], map[], [], [], [])

  predicate Enabled(s: State, m: Move) {
    match m
    case GoLive(k) => ColonFree(k)
    case Settle(c, _) => c < |s.calls| && s.calls[c].outcome.None?
    case Wake(r) => r < |s.readers| && s.readers[r].phase.Awaiting? && s.readers[r].call < |s.calls|
                    && s.calls[s.readers[r].call].outcome.Some?
    case Upsert(r, _) => r < |s.readers| && s.readers[r].phase.Storing?
    case UpsertFails(r) => r < |s.readers| && s.readers[r].phase.Storing?
    case Finish(r) => r < |s.readers| && s.readers[r].phase.Finishing?
    case _ => true
  }

  function WithPhase(s: State, r: nat, phase: Phase): State
    requires r < |s.readers|
  {
    s.(readers := s.readers[r := s.readers[r].(phase := phase)])
  }

  function AddStore(s: State, key: Key, result: Value, at: int): State {
    s.(snapshots := s.snapshots[key := Snapshot(result, true, at)], history := s.history + [Stored(key, result, at)])
  }

  function Apply(s: State, m: Move): State
    requires Enabled(s, m)
  {
    match m
    case GoLive(k) =>
      var u := UniqueKey(k);
      if u in s.inFlight then s.(readers := s.readers + [Reader(k, s.inFlight[u], false, Awaiting)])
      else s.(inFlight := s.inFlight[u := |s.calls|], calls := s.calls + [Call(k, None)],
              readers := s.readers + [Reader(k, |s.calls|, true, Awaiting)])
    case Settle(c, o) => s.(calls := s.calls[c := s.calls[c].(outcome := Some(o))])
    case Wake(r) =>
      var o := s.calls[s.readers[r].call].outcome.value;
      WithPhase(s, r, if o.Resolved? && o.value.Some? then Storing(o.value.value) else Finishing(o, true))
    case Upsert(r, at) =>
      var v := s.readers[r].phase.value;
      AddStore(WithPhase(s, r, Finishing(Resolved(Some(v)), true)), s.readers[r].key, v, at)
    case UpsertFails(r) => WithPhase(s, r, Finishing(Rejected, false))
    case Finish(r) =>
      var q := s.readers[r];
      WithPhase(s, r, Returned(q.phase.outcome, q.phase.stored))
        .(inFlight := if q.originator then s.inFlight - {UniqueKey(q.key)} else s.inFlight)
    case Store(k, v, at) => AddStore(s, k, v, at)
    case Invalidate(id, methods) =>
      s.(snapshots := map k | k in s.snapshots && !(k.instanceId == id && k.operation in methods) :: s.snapshots[k],
         history := s.history + [Invalidated(id, methods)])
  }

  ghost predicate Behaviour(states: seq<State>, moves: seq<Move>) {
    && |states| == |moves| + 1 && states[0] == INITIAL
    && forall k :: 0 <= k < |moves| ==> Enabled(states[k], moves[k]) && states[k + 1] == Apply(states[k], moves[k])
  }

  // ---------------------------------------------------------------- single flight

  predicate Open(r: Reader) {
    r.originator && !r.phase.Returned?
  }

  /** What a reader knows of its call. */
  ghost predicate ReaderInv(s: State, r: Reader) {
    && ColonFree(r.key) && r.call < |s.calls| && s.calls[r.call].key == r.key
    && (Open(r) ==> UniqueKey(r.key) in s.inFlight && s.inFlight[UniqueKey(r.key)] == r.call)
    && match r.phase
       case Awaiting => true
       case Storing(v) => s.calls[r.call].outcome == Some(Resolved(Some(v)))
       case Finishing(o, stored) => stored ==> s.calls[r.call].outcome == Some(o)
       case Returned(o, stored) => stored ==> s.calls[r.call].outcome == Some(o)
  }

  ghost predicate Owned(s: State, u: string) {
    exists i :: 0 <= i < |s.readers| && Holds(s.readers[i], u, s.inFlight)
  }

  ghost predicate Holds(r: Reader, u: string, inFlight: map<string, nat>) {
    Open(r) && UniqueKey(r.key) == u && u in inFlight && r.call == inFlight[u]
  }

  ghost predicate CallsDiffer(readers: seq<Reader>) {
    forall i, j :: 0 <= i < j < |readers| && readers[i].originator && readers[j].originator ==>
      readers[i].call != readers[j].call
  }

  /** The in-flight map holds exactly the calls of the open originators, one per key. */
  ghost predicate FlightInv(s: State) {
    && (forall i :: 0 <= i < |s.readers| ==> ReaderInv(s, s.readers[i]))
    && CallsDiffer(s.readers)
    && (forall u :: u in s.inFlight ==> Owned(s, u))
  }

  /** Entries keep their owners as long as the owners stay as they are. */
  lemma OwnersStay(s: State, s': State, u: string)
    requires Owned(s, u) && u in s'.inFlight && u in s.inFlight && s'.inFlight[u] == s.inFlight[u]
    requires |s.readers| <= |s'.readers|
    requires forall i :: 0 <= i < |s.readers| && Holds(s.readers[i], u, s.inFlight) ==>
        Holds(s'.readers[i], u, s.inFlight)
    ensures Owned(s', u)
  {
    var i :| 0 <= i < |s.readers| && Holds(s.readers[i], u, s.inFlight);
    assert Holds(s'.readers[i], u, s'.inFlight);
  }

  lemma PhaseKeepsReaders(s: State, r: nat, phase: Phase)
    requires FlightInv(s) && r < |s.readers| && ReaderInv(s, s.readers[r].(phase := phase))
    ensures var s' := WithPhase(s, r, phase);
            (forall i :: 0 <= i < |s'.readers| ==> ReaderInv(s', s'.readers[i])) && CallsDiffer(s'.readers)
  {
    var s' := WithPhase(s, r, phase);
    forall i | 0 <= i < |s'.readers| ensures ReaderInv(s', s'.readers[i]) {
      assert ReaderInv(s, s.readers[i]);
    }
  }

  lemma PhaseKeepsFlight(s: State, r: nat, phase: Phase)
    requires FlightInv(s) && r < |s.readers| && !s.readers[r].phase.Returned? && !phase.Returned?
    requires ReaderInv(s, s.readers[r].(phase := phase))
    ensures FlightInv(WithPhase(s, r, phase))
  {
    PhaseKeepsReaders(s, r, phase);
    forall u | u in s.inFlight ensures Owned(WithPhase(s, r, phase), u) {
      OwnersStay(s, WithPhase(s, r, phase), u);
    }
  }

  /** Whoever finds an entry under its key shares the key with the owner of the entry. */
  lemma EntryIsForKey(s: State, k: Key)
    requires FlightInv(s) && ColonFree(k) && UniqueKey(k) in s.inFlight
    ensures s.inFlight[UniqueKey(k)] < |s.calls| && s.calls[s.inFlight[UniqueKey(k)]].key == k
    ensures exists i :: 0 <= i < |s.readers| && Open(s.readers[i]) && s.readers[i].key == k
  {
    assert Owned(s, UniqueKey(k));
    var i :| 0 <= i < |s.readers| && Holds(s.readers[i], UniqueKey(k), s.inFlight);
    assert ReaderInv(s, s.readers[i]);
    UniqueKeyInjective(s.readers[i].key, k);
  }

  /** A reader keeps what it knows while calls are added and its own entry stays. */
  lemma ReaderStays(s: State, s': State, r: Reader)
    requires ReaderInv(s, r) && s.calls <= s'.calls
    requires Open(r) ==> UniqueKey(r.key) in s'.inFlight && s'.inFlight[UniqueKey(r.key)] == r.call
    ensures ReaderInv(s', r)
  {
  }

  lemma GoLiveKeepsReaders(s: State, k: Key)
    requires FlightInv(s) && ColonFree(k)
    ensures var s' := Apply(s, GoLive(k));
            (forall i :: 0 <= i < |s'.readers| ==> ReaderInv(s', s'.readers[i])) && CallsDiffer(s'.readers)
  {
    var s' := Apply(s, GoLive(k));
    forall i | 0 <= i < |s.readers|
      ensures ReaderInv(s', s.readers[i]) && s.readers[i].call < |s.calls|
    {
      assert ReaderInv(s, s.readers[i]);
      ReaderStays(s, s', s.readers[i]);
    }
    if UniqueKey(k) in s.inFlight { EntryIsForKey(s, k); }
    assert ReaderInv(s', s'.readers[|s.readers|]);
  }

  lemma GoLiveKeepsFlight(s: State, k: Key)
    requires FlightInv(s) && ColonFree(k)
    ensures FlightInv(Apply(s, GoLive(k)))
  {
    var s' := Apply(s, GoLive(k));
    GoLiveKeepsReaders(s, k);
    forall u | u in s'.inFlight ensures Owned(s', u) {
      if u in s.inFlight {
        OwnersStay(s, s', u);
      } else {
        assert Holds(s'.readers[|s.readers|], u, s'.inFlight);
      }
    }
  }

  /** Two open originators never share a slot of the in-flight map. */
  lemma OpenKeysDiffer(s: State, i: nat, j: nat)
    requires FlightInv(s) && i < |s.readers| && j < |s.readers| && i != j
    requires Open(s.readers[i]) && Open(s.readers[j])
    ensures UniqueKey(s.readers[i].key) != UniqueKey(s.readers[j].key)
  {
    assert ReaderInv(s, s.readers[i]) && ReaderInv(s, s.readers[j]);
    if i < j { assert s.readers[i].call != s.readers[j].call; } else { assert s.readers[j].call != s.readers[i].call; }
  }

  lemma FinishKeepsReaders(s: State, r: nat)
    requires FlightInv(s) && Enabled(s, Finish(r))
    ensures var s' := Apply(s, Finish(r));
            (forall i :: 0 <= i < |s'.readers| ==> ReaderInv(s', s'.readers[i])) && CallsDiffer(s'.readers)
  {
    var s' := Apply(s, Finish(r));
    forall i | 0 <= i < |s.readers| ensures ReaderInv(s', s'.readers[i]) {
      assert ReaderInv(s, s.readers[i]);
      if i != r {
        if Open(s.readers[i]) && s.readers[r].originator { OpenKeysDiffer(s, i, r); }
        ReaderStays(s, s', s.readers[i]);
      }
    }
  }

  lemma FinishKeepsFlight(s: State, r: nat)
    requires FlightInv(s) && Enabled(s, Finish(r))
    ensures FlightInv(Apply(s, Finish(r)))
  {
    var s' := Apply(s, Finish(r));
    FinishKeepsReaders(s, r);
    forall u | u in s'.inFlight ensures Owned(s', u) {
      assert Owned(s, u);
      OwnersStay(s, s', u);
    }
  }

  lemma SettleKeepsFlight(s: State, c: nat, o: Outcome)
    requires FlightInv(s) && Enabled(s, Settle(c, o))
    ensures FlightInv(Apply(s, Settle(c, o)))
  {
    var s' := Apply(s, Settle(c, o));
    forall i | 0 <= i < |s.readers| ensures ReaderInv(s', s'.readers[i]) {
      assert ReaderInv(s, s.readers[i]);
    }
  }

  lemma SnapshotsDoNotMatter(s: State, s': State)
    requires FlightInv(s) && s'.inFlight == s.inFlight && s'.calls == s.calls && s'.readers == s.readers
    ensures FlightInv(s')
  {
    forall i | 0 <= i < |s.readers| ensures ReaderInv(s', s'.readers[i]) {
      assert ReaderInv(s, s.readers[i]);
    }
  }

  lemma FlightStep(s: State, m: Move)
    requires FlightInv(s) && Enabled(s, m)
    ensures FlightInv(Apply(s, m))
  {
    match m
    case GoLive(k) => GoLiveKeepsFlight(s, k);
    case Settle(c, o) => SettleKeepsFlight(s, c, o);
    case Wake(r) =>
      assert ReaderInv(s, s.readers[r]);
      var o := s.calls[s.readers[r].call].outcome.value;
      PhaseKeepsFlight(s, r, if o.Resolved? && o.value.Some? then Storing(o.value.value) else Finishing(o, true));
    case Upsert(r, at) =>
      assert ReaderInv(s, s.readers[r]);
      var done := Finishing(Resolved(Some(s.readers[r].phase.value)), true);
      PhaseKeepsFlight(s, r, done);
      SnapshotsDoNotMatter(WithPhase(s, r, done), Apply(s, m));
    case UpsertFails(r) =>
      assert ReaderInv(s, s.readers[r]);
      PhaseKeepsFlight(s, r, Finishing(Rejected, false));
    case Finish(r) => FinishKeepsFlight(s, r);
    case Store(_, _, _) => SnapshotsDoNotMatter(s, Apply(s, m));
    case Invalidate(_, _) => SnapshotsDoNotMatter(s, Apply(s, m));
  }

  lemma {:induction false} BehaviourFlight(states: seq<State>, moves: seq<Move>, k: nat)
    requires Behaviour(states, moves) && k < |states|
    ensures FlightInv(states[k])
  {
    if k > 0 {
      BehaviourFlight(states, moves, k - 1);
      FlightStep(states[k - 1], moves[k - 1]);
    }
  }

  /**
   Single flight, at every point of every interleaving: two open originators never have the
   same instance, method and arguments; the map entry of an open originator is its own, so
   that its clean-up removes no other's; and a reader that returns without a storage error
   returns exactly the outcome of the call it started or joined.
   */
  lemma SingleFlight(states: seq<State>, moves: seq<Move>, k: nat)
    requires Behaviour(states, moves) && k < |states|
    ensures var s := states[k];
            && (forall i, j :: 0 <= i < j < |s.readers| && Open(s.readers[i]) && Open(s.readers[j]) ==>
                  s.readers[i].key != s.readers[j].key)
            && (forall i :: 0 <= i < |s.readers| && Open(s.readers[i]) ==>
                  && UniqueKey(s.readers[i].key) in s.inFlight
                  && s.inFlight[UniqueKey(s.readers[i].key)] == s.readers[i].call)
            && (forall i :: 0 <= i < |s.readers| && s.readers[i].phase.Returned? && s.readers[i].phase.stored ==>
                  s.readers[i].call < |s.calls| && s.calls[s.readers[i].call].key == s.readers[i].key
                  && s.calls[s.readers[i].call].outcome == Some(s.readers[i].phase.outcome))
  {
    BehaviourFlight(states, moves, k);
    var s := states[k];
    forall i, j | 0 <= i < j < |s.readers| && Open(s.readers[i]) && Open(s.readers[j])
      ensures s.readers[i].key != s.readers[j].key
    {
      OpenKeysDiffer(s, i, j);
    }
    assert forall i :: 0 <= i < |s.readers| ==> ReaderInv(s, s.readers[i]);
  }

  // ---------------------------------------------------------------- cache agreement

  lemma AgreeStep(s: State, m: Move)
    requires Agrees(s.snapshots, s.history) && Enabled(s, m)
    ensures Agrees(Apply(s, m).snapshots, Apply(s, m).history)
  {
    var s' := Apply(s, m);
    if s'.history != s.history {
      assert s'.history[..|s.history|] == s.history;
      forall key ensures LastStore(s'.history, key) == if key in s'.snapshots then Some(s'.snapshots[key]) else None {
        assert LastStore(s.history, key) == if key in s.snapshots then Some(s.snapshots[key]) else None;
      }
    }
  }

  /** At every moment the snapshot of a key is its last store, unless invalidated since. */
  lemma {:induction false} SnapshotsAgree(states: seq<State>, moves: seq<Move>, k: nat)
    requires Behaviour(states, moves) && k < |states|
    ensures Agrees(states[k].snapshots, states[k].history)
  {
    if k > 0 {
      SnapshotsAgree(states, moves, k - 1);
      AgreeStep(states[k - 1], moves[k - 1]);
    }
  }

  // ---------------------------------------------------------------- the service

  datatype LocalAnswer = LocalAnswer(value: Value, ageSeconds: int)

  /** One process of the service; `model` records, beside its state, every call, reader and store. */
  class LocalReadService {
    var snapshots: map<Key, Snapshot>
    var inFlight: map<string, nat>
    var callCount: nat
    ghost var model: State

    ghost predicate Valid()
      reads this
    {
      && snapshots == model.snapshots && inFlight == model.inFlight && callCount == |model.calls|
      && FlightInv(model) && Agrees(model.snapshots, model.history)
    }

    constructor ()
      ensures Valid() && model == INITIAL
    {
      snapshots, inFlight, callCount, model := map[], map[], 0, INITIAL;
    }

    /**
     The local part of `execute`: it answers exactly with the last store that no invalidation
     followed, if that is relevant and within its time to live, and not on a forced live read.
     `enabled` is the feature switch together with the method being in the supported lists.
     */
    method TryLocal(key: Key, enabled: bool, live: bool, sources: TtlSources, now: int)
      returns (answer: Option<LocalAnswer>)
      requires Valid()
      ensures var last, ttl := LastStore(model.history, key), Ttl(sources, key.operation);
              && (answer.Some? <==>
                    && enabled && !live
                    && last.Some? && Relevant(key.operation, last.value.result)
                    && ttl >= 0 && now - last.value.fetchedAt < (ttl + 1) * 1000)
              && (answer.Some? ==> answer.value == LocalAnswer(last.value.result, AgeSeconds(last.value, now)))
    {
      answer := None;
      ghost var last := LastStore(model.history, key);
      assert last == if key in model.snapshots then Some(model.snapshots[key]) else None;
      CompleteStores(model.history, key);
      if !enabled { return; }
      var ttl := Ttl(sources, key.operation);
      if !live && key in snapshots {
        var snapshot := snapshots[key];
        FreshIff(snapshot, now, ttl);
        if snapshot.complete && Relevant(key.operation, snapshot.result) {
          var ageSeconds := AgeSeconds(snapshot, now);
          if ageSeconds <= ttl { answer := Some(LocalAnswer(snapshot.result, ageSeconds)); }
        }
      }
    }

    /** Start a live call, or join the one in flight under the same key. */
    method GoLive(key: Key) returns (call: nat, existing: bool)
      requires Valid() && Enabled(model, Move.GoLive(key))
      modifies this
      ensures Valid() && model == Apply(old(model), Move.GoLive(key))
      ensures existing <==> exists i :: 0 <= i < |old(model).readers| && Open(old(model).readers[i])
                                        && old(model).readers[i].key == key && old(model).readers[i].call == call
      ensures model.readers == old(model).readers + [Reader(key, call, !existing, Awaiting)]
    {
      OpenEntry(model, key);
      var uniqueKey := UniqueKey(key);
      existing := uniqueKey in inFlight;
      if existing {
        call := inFlight[uniqueKey];
      } else {
        call := callCount;
        callCount := callCount + 1;
        inFlight := inFlight[uniqueKey := call];
      }
      FlightStep(model, Move.GoLive(key));
      AgreeStep(model, Move.GoLive(key));
      model := Apply(model, Move.GoLive(key));
    }

    /** The upsert of `execute`, once the awaited call has given a value. */
    method StoreResult(ghost reader: nat, key: Key, result: Value, at: int)
      requires Valid() && Enabled(model, Upsert(reader, at))
      requires model.readers[reader].key == key && model.readers[reader].phase == Storing(result)
      modifies this
      ensures Valid() && model == Apply(old(model), Upsert(reader, at))
    {
      snapshots := snapshots[key := Snapshot(result, true, at)];
      FlightStep(model, Upsert(reader, at));
      AgreeStep(model, Upsert(reader, at));
      model := Apply(model, Upsert(reader, at));
    }

    /** The `finally` of `execute`: only an originator deletes an entry, and it is its own. */
    method CleanUp(ghost reader: nat, key: Key, existing: bool)
      requires Valid() && Enabled(model, Finish(reader))
      requires model.readers[reader].key == key && model.readers[reader].originator == !existing
      modifies this
      ensures Valid() && model == Apply(old(model), Finish(reader))
      ensures forall i :: 0 <= i < |model.readers| && Open(model.readers[i]) ==>
                && UniqueKey(model.readers[i].key) in inFlight
                && inFlight[UniqueKey(model.readers[i].key)] == model.readers[i].call
    {
      if !existing { inFlight := inFlight - {UniqueKey(key)}; }
      FlightStep(model, Finish(reader));
      AgreeStep(model, Finish(reader));
      model := Apply(model, Finish(reader));
      assert forall i :: 0 <= i < |model.readers| ==> ReaderInv(model, model.readers[i]);
    }

    method Store(key: Key, result: Value, at: int)
      requires Valid()
      modifies this
      ensures Valid() && model == Apply(old(model), Move.Store(key, result, at))
    {
      snapshots := snapshots[key := Snapshot(result, true, at)];
      FlightStep(model, Move.Store(key, result, at));
      AgreeStep(model, Move.Store(key, result, at));
      model := Apply(model, Move.Store(key, result, at));
    }

    method InvalidateMethods(instanceId: string, methods: seq<string>)
      requires Valid()
      modifies this
      ensures Valid() && model == Apply(old(model), Invalidate(instanceId, methods))
    {
      snapshots := map k | k in snapshots && !(k.instanceId == instanceId && k.operation in methods) :: snapshots[k];
      FlightStep(model, Invalidate(instanceId, methods));
      AgreeStep(model, Invalidate(instanceId, methods));
      model := Apply(model, Invalidate(instanceId, methods));
    }
  }

  /** A key has a map entry exactly when an open originator has the key, and the entry is its call. */
  lemma OpenEntry(s: State, key: Key)
    requires FlightInv(s) && ColonFree(key)
    ensures UniqueKey(key) in s.inFlight
       <==> exists i :: 0 <= i < |s.readers| && Open(s.readers[i]) && s.readers[i].key == key
    ensures forall i :: 0 <= i < |s.readers| && Open(s.readers[i]) && s.readers[i].key == key ==>
              UniqueKey(key) in s.inFlight && s.inFlight[UniqueKey(key)] == s.readers[i].call
  {
    if UniqueKey(key) in s.inFlight { EntryIsForKey(s, key); }
    forall i | 0 <= i < |s.readers| && Open(s.readers[i]) && s.readers[i].key == key
      ensures UniqueKey(key) in s.inFlight && s.inFlight[UniqueKey(key)] == s.readers[i].call
    {
      assert ReaderInv(s, s.readers[i]);
    }
  }

  lemma {:induction false} CompleteStores(history: seq<Entry>, key: Key)
    ensures LastStore(history, key).Some? ==> LastStore(history, key).value.complete
  {
    if history != [] { CompleteStores(history[..|history| - 1], key); }
  }
}
