/**
 The normalised history tables beside the archive events, and what ties them to the events
 through captures and purges.
 */
module ArchiveDerived {
  import opened Strings
  import opened Sequences
  import opened ArchiveChain
  import opened ArchivePurge

  datatype Message = Message(id: string, chatJid: string, waMessageId: string, latestRevision: nat)

  datatype Revision = Revision(messageId: string, eventId: string, number: nat)

  /** A row of a table that only refers to its event; `subject` is the JID or id it is about. */
  datatype Row = Row(eventId: string, subject: Option<string>)

  datatype Tables = Tables(
    messages: seq<Message>,
    revisions: seq<Revision>,
    receipts: seq<Row>,
    reactions: seq<Row>,
    entities: seq<Row>,
    memberships: seq<Row>,
    calls: seq<Row>,
    syncGaps: seq<Row>)

  const NO_ROWS := Tables([], [], [], [], [], [], [], [])

  // ---------------------------------------------------------------- categories

  function UpperChar(c: char): char {
    if 'a' <= c <= 'z' then 'A' + (c - 'a') else c
  }

  function Upper(s: string): string {
    seq(|s|, i requires 0 <= i < |s| => UpperChar(s[i]))
  }

  datatype Category = Receipts | Reactions | Messages | Contacts | Chats | Groups | Calls | Events

  function CategoryFor(event: string): Category {
    var upper := Upper(event);
    if Includes(upper, "MESSAGE_RECEIPT") then Receipts
    else if Includes(upper, "REACTION") then Reactions
    else if Includes(upper, "MESSAGE") then Messages
    else if Includes(upper, "CONTACT") then Contacts
    else if Includes(upper, "CHAT") then Chats
    else if Includes(upper, "GROUP") then Groups
    else if Includes(upper, "CALL") then Calls
    else Events
  }

  predicate Truthy(s: Option<string>) {
    s.Some? && s.value != ""
  }

  // ---------------------------------------------------------------- captureDerived

  function FindMessage(messages: seq<Message>, chatJid: string, waMessageId: string): (r: Option<nat>)
    ensures r.Some? ==> r.value < |messages|
                        && messages[r.value].chatJid == chatJid && messages[r.value].waMessageId == waMessageId
    ensures r.None? ==> forall m :: m in messages ==> m.chatJid != chatJid || m.waMessageId != waMessageId
  {
    if messages == [] then None
    else
      var n := |messages| - 1;
      assert messages == messages[..n] + [messages[n]];
      if messages[n].chatJid == chatJid && messages[n].waMessageId == waMessageId then Some(n)
      else FindMessage(messages[..n], chatJid, waMessageId)
  }

  /** The upsert of the message row and the insert of its next revision. */
  function AddRevision(t: Tables, chatJid: string, waMessageId: string, eventId: string, newId: string): Tables {
    match FindMessage(t.messages, chatJid, waMessageId)
    case Some(i) =>
      var m := t.messages[i];
      var n := m.latestRevision + 1;
      t.(messages := t.messages[i := m.(latestRevision := n)],
         revisions := t.revisions + [Revision(m.id, eventId, n)])
    case None =>
      t.(messages := t.messages + [Message(newId, chatJid, waMessageId, 1)],
         revisions := t.revisions + [Revision(newId, eventId, 1)])
  }

  /** One membership row per participant that has an identifier. */
  function MembershipRows(participants: seq<Option<string>>, eventId: string): seq<Row> {
    if participants == [] then []
    else
      var init, last := MembershipRows(participants[..|participants| - 1], eventId), participants[|participants| - 1];
      if Truthy(last) then init + [Row(eventId, last)] else init
  }

  function RowIf(condition: bool, eventId: string, subject: Option<string>): seq<Row> {
    if condition then [Row(eventId, subject)] else []
  }

  function CaptureDerived(t: Tables, o: Observation, eventId: string, newId: string): Tables {
    var category, upper := CategoryFor(o.eventType), Upper(o.eventType);
    var t1 :=
      if category == Messages && Truthy(o.messageId) && Truthy(o.entityJid) then
        AddRevision(t, o.entityJid.value, o.messageId.value, eventId, newId)
      else t;
    t1.(receipts := t.receipts + RowIf(category == Receipts, eventId, o.messageId),
        reactions := t.reactions + RowIf(category == Reactions, eventId, o.messageId),
        entities := t.entities
                    + RowIf(category in {Contacts, Chats, Groups} && Truthy(o.entityJid), eventId, o.entityJid),
        memberships := t.memberships
                       + (if Includes(upper, "GROUP_PARTICIPANTS") && Truthy(o.entityJid)
                          then MembershipRows(o.participants, eventId) else []),
        calls := t.calls + RowIf(category == Calls, eventId, o.entityJid),
        syncGaps := t.syncGaps
                    + RowIf(Includes(upper, "MESSAGING_HISTORY_STATUS") && o.incompleteSync, eventId, o.entityJid))
  }

  /** A message event adds the next revision of its message, and no receipt or reaction. */
  lemma MessageCaptured(t: Tables, o: Observation, eventId: string, newId: string)
    requires CategoryFor(o.eventType) == Messages && Truthy(o.messageId) && Truthy(o.entityJid)
    ensures var t' := CaptureDerived(t, o, eventId, newId);
            var was := FindMessage(t.messages, o.entityJid.value, o.messageId.value);
            && t'.receipts == t.receipts && t'.reactions == t.reactions && t'.calls == t.calls
            && exists m :: m in t'.messages && m.chatJid == o.entityJid.value && m.waMessageId == o.messageId.value
                 && m.latestRevision == 1 + (if was.Some? then t.messages[was.value].latestRevision else 0)
                 && t'.revisions == t.revisions + [Revision(m.id, eventId, m.latestRevision)]
  {
    var t' := CaptureDerived(t, o, eventId, newId);
    match FindMessage(t.messages, o.entityJid.value, o.messageId.value)
    case Some(i) => assert t'.messages[i] in t'.messages;
    case None => assert t'.messages[|t.messages|] in t'.messages;
  }

  /** A receipt event is named after a message, but is filed as a receipt: it adds no revision. */
  lemma ReceiptCaptured(t: Tables, o: Observation, eventId: string, newId: string)
    requires Includes(Upper(o.eventType), "MESSAGE_RECEIPT")
    ensures Includes(Upper(o.eventType), "MESSAGE")
    ensures var t' := CaptureDerived(t, o, eventId, newId);
            t'.receipts == t.receipts + [Row(eventId, o.messageId)]
            && t'.revisions == t.revisions && t'.messages == t.messages && t'.reactions == t.reactions
  {
    var upper := Upper(o.eventType);
    var i :| 0 <= i <= |upper| && "MESSAGE_RECEIPT" <= upper[i..];
    assert "MESSAGE" == "MESSAGE_RECEIPT"[..7];
    assert "MESSAGE" <= upper[i..];
  }

  // ---------------------------------------------------------------- purge

  function RevisionCount(revisions: seq<Revision>, messageId: string): nat {
    |Filter((r: Revision) => r.messageId == messageId, revisions)|
  }

  function KeepRows(rows: seq<Row>, ids: set<string>): seq<Row> {
    Filter((r: Row) => r.eventId !in ids, rows)
  }

  /** The messages that lost a revision and have none left. */
  function Orphans(t: Tables, ids: set<string>): set<string> {
    var kept := Filter((r: Revision) => r.eventId !in ids, t.revisions);
    set r | r in t.revisions && r.eventId in ids && RevisionCount(kept, r.messageId) == 0 :: r.messageId
  }

  function PurgeDerived(t: Tables, ids: set<string>): Tables {
    var orphans := Orphans(t, ids);
    Tables(Filter((m: Message) => m.id !in orphans, t.messages),
           Filter((r: Revision) => r.eventId !in ids, t.revisions),
           KeepRows(t.receipts, ids), KeepRows(t.reactions, ids), KeepRows(t.entities, ids),
           KeepRows(t.memberships, ids), KeepRows(t.calls, ids), KeepRows(t.syncGaps, ids))
  }

  lemma KeptRows(rows: seq<Row>, ids: set<string>)
    ensures forall r :: r in KeepRows(rows, ids) <==> r in rows && r.eventId !in ids
  {
    FilterMembers((r: Row) => r.eventId !in ids, rows);
  }

  /** A purge takes from each table the rows of its events, and no others. */
  lemma RowsPurged(t: Tables, ids: set<string>)
    ensures var t' := PurgeDerived(t, ids);
            && (forall r :: r in t'.revisions <==> r in t.revisions && r.eventId !in ids)
            && (forall r :: r in t'.receipts <==> r in t.receipts && r.eventId !in ids)
            && (forall r :: r in t'.reactions <==> r in t.reactions && r.eventId !in ids)
            && (forall r :: r in t'.entities <==> r in t.entities && r.eventId !in ids)
            && (forall r :: r in t'.memberships <==> r in t.memberships && r.eventId !in ids)
            && (forall r :: r in t'.calls <==> r in t.calls && r.eventId !in ids)
            && (forall r :: r in t'.syncGaps <==> r in t.syncGaps && r.eventId !in ids)
  {
    FilterMembers((r: Revision) => r.eventId !in ids, t.revisions);
    KeptRows(t.receipts, ids);
    KeptRows(t.reactions, ids);
    KeptRows(t.entities, ids);
    KeptRows(t.memberships, ids);
    KeptRows(t.calls, ids);
    KeptRows(t.syncGaps, ids);
  }

  // ---------------------------------------------------------------- referential integrity

  ghost predicate RowsIn(rows: seq<Row>, ids: set<string>) {
    forall r :: r in rows ==> r.eventId in ids
  }

  ghost predicate Backed(messages: seq<Message>, r: Revision) {
    exists m :: m in messages && m.id == r.messageId && 1 <= r.number <= m.latestRevision
  }

  ghost predicate HasRevision(revisions: seq<Revision>, id: string) {
    exists r :: r in revisions && r.messageId == id
  }

  ghost predicate DistinctMessages(messages: seq<Message>) {
    forall i, j :: 0 <= i < j < |messages| ==> messages[i].id != messages[j].id
  }

  /** Message rows are distinct, and exist exactly while they have a revision. */
  ghost predicate MessagesSound(t: Tables) {
    && DistinctMessages(t.messages)
    && (forall r :: r in t.revisions ==> Backed(t.messages, r))
    && (forall m :: m in t.messages ==> HasRevision(t.revisions, m.id))
  }

  ghost predicate RevisionsUnique(revisions: seq<Revision>) {
    forall i, j :: 0 <= i < j < |revisions| ==>
      revisions[i].messageId != revisions[j].messageId || revisions[i].number != revisions[j].number
  }

  /** Every row of every table refers to one of the given events. */
  ghost predicate RefersTo(t: Tables, ids: set<string>) {
    && (forall r :: r in t.revisions ==> r.eventId in ids)
    && RowsIn(t.receipts, ids) && RowsIn(t.reactions, ids) && RowsIn(t.entities, ids)
    && RowsIn(t.memberships, ids) && RowsIn(t.calls, ids) && RowsIn(t.syncGaps, ids)
  }

  ghost predicate Sound(t: Tables, ids: set<string>) {
    MessagesSound(t) && RevisionsUnique(t.revisions) && RefersTo(t, ids)
  }

  lemma {:induction false} MembershipRowsRefer(participants: seq<Option<string>>, eventId: string)
    ensures forall r :: r in MembershipRows(participants, eventId) ==> r.eventId == eventId && Truthy(r.subject)
  {
    if participants != [] { MembershipRowsRefer(participants[..|participants| - 1], eventId); }
  }

  /** A revision stays backed when the i-th message goes on to its next revision. */
  lemma StaysBacked(t: Tables, i: nat, r: Revision)
    requires MessagesSound(t) && i < |t.messages| && r in t.revisions
    ensures Backed(t.messages[i := t.messages[i].(latestRevision := t.messages[i].latestRevision + 1)], r)
  {
    var m := t.messages[i];
    var messages := t.messages[i := m.(latestRevision := m.latestRevision + 1)];
    if r.messageId == m.id {
      OnlyRow(t, i, r);
      assert messages[i] in messages;
    } else {
      var b :| b in t.messages && b.id == r.messageId && 1 <= r.number <= b.latestRevision;
      var k :| 0 <= k < |t.messages| && t.messages[k] == b;
      assert messages[k] == b;
    }
  }

  /** The next revision number of a message is new. */
  lemma NextNumberIsNew(t: Tables, i: nat, eventId: string)
    requires MessagesSound(t) && RevisionsUnique(t.revisions) && i < |t.messages|
    ensures RevisionsUnique(t.revisions + [Revision(t.messages[i].id, eventId, t.messages[i].latestRevision + 1)])
  {
    forall k | 0 <= k < |t.revisions| && t.revisions[k].messageId == t.messages[i].id
      ensures t.revisions[k].number <= t.messages[i].latestRevision
    {
      OnlyRow(t, i, t.revisions[k]);
    }
  }

  lemma AddToExisting(t: Tables, i: nat, eventId: string)
    requires MessagesSound(t) && RevisionsUnique(t.revisions) && i < |t.messages|
    ensures var m := t.messages[i];
            var n := m.latestRevision + 1;
            var t' := t.(messages := t.messages[i := m.(latestRevision := n)],
                         revisions := t.revisions + [Revision(m.id, eventId, n)]);
            MessagesSound(t') && RevisionsUnique(t'.revisions)
  {
    var m := t.messages[i];
    var n := m.latestRevision + 1;
    var messages := t.messages[i := m.(latestRevision := n)];
    var revisions := t.revisions + [Revision(m.id, eventId, n)];
    assert messages[i] in messages;
    NextNumberIsNew(t, i, eventId);
    forall r | r in revisions ensures Backed(messages, r) {
      if r in t.revisions { StaysBacked(t, i, r); }
    }
    forall b | b in messages ensures HasRevision(revisions, b.id) {
      if b.id != m.id {
        var r :| r in t.revisions && r.messageId == b.id;
        assert r in revisions;
      } else {
        assert revisions[|t.revisions|] in revisions;
      }
    }
  }

  /** A revision of the i-th message is bounded by that message's latest revision. */
  lemma OnlyRow(t: Tables, i: nat, r: Revision)
    requires MessagesSound(t) && i < |t.messages| && r in t.revisions && r.messageId == t.messages[i].id
    ensures 1 <= r.number <= t.messages[i].latestRevision
  {
    var b :| b in t.messages && b.id == r.messageId && 1 <= r.number <= b.latestRevision;
    var k :| 0 <= k < |t.messages| && t.messages[k] == b;
  }

  lemma AddNew(t: Tables, m: Message, eventId: string)
    requires MessagesSound(t) && RevisionsUnique(t.revisions) && m.latestRevision == 1
    requires forall b :: b in t.messages ==> b.id != m.id
    ensures var t' := t.(messages := t.messages + [m], revisions := t.revisions + [Revision(m.id, eventId, 1)]);
            MessagesSound(t') && RevisionsUnique(t'.revisions)
  {
    var messages, revisions := t.messages + [m], t.revisions + [Revision(m.id, eventId, 1)];
    assert messages[|t.messages|] in messages && revisions[|t.revisions|] in revisions;
    forall r | r in revisions ensures Backed(messages, r) {
      if r in t.revisions {
        var b :| b in t.messages && b.id == r.messageId && 1 <= r.number <= b.latestRevision;
        assert b in messages;
      }
    }
    forall k | 0 <= k < |t.revisions| ensures t.revisions[k].messageId != m.id {
      assert t.revisions[k] in t.revisions;
      assert Backed(t.messages, t.revisions[k]);
    }
    forall b | b in messages ensures HasRevision(revisions, b.id) {
      if b in t.messages {
        var r :| r in t.revisions && r.messageId == b.id;
        assert r in revisions;
      }
    }
  }

  lemma CaptureRefers(t: Tables, ids: set<string>, o: Observation, eventId: string, newId: string)
    requires RefersTo(t, ids)
    ensures RefersTo(CaptureDerived(t, o, eventId, newId), ids + {eventId})
  {
    MembershipRowsRefer(o.participants, eventId);
  }

  lemma AddRevisionKeeps(t: Tables, chatJid: string, waMessageId: string, eventId: string, newId: string)
    requires MessagesSound(t) && RevisionsUnique(t.revisions)
    requires forall m :: m in t.messages ==> m.id != newId
    ensures var t' := AddRevision(t, chatJid, waMessageId, eventId, newId);
            MessagesSound(t') && RevisionsUnique(t'.revisions)
  {
    match FindMessage(t.messages, chatJid, waMessageId)
    case Some(i) => AddToExisting(t, i, eventId);
    case None => AddNew(t, Message(newId, chatJid, waMessageId, 1), eventId);
  }

  lemma SameMessages(t: Tables, t': Tables)
    requires MessagesSound(t) && t'.messages == t.messages && t'.revisions == t.revisions
    ensures MessagesSound(t')
  {
  }

  /** A capture keeps the tables sound over the events that now include its own. */
  lemma CaptureKeepsSound(t: Tables, ids: set<string>, o: Observation, eventId: string, newId: string)
    requires Sound(t, ids) && forall m :: m in t.messages ==> m.id != newId
    ensures Sound(CaptureDerived(t, o, eventId, newId), ids + {eventId})
  {
    CaptureRefers(t, ids, o, eventId, newId);
    var t' := CaptureDerived(t, o, eventId, newId);
    if CategoryFor(o.eventType) == Messages && Truthy(o.messageId) && Truthy(o.entityJid) {
      AddRevisionKeeps(t, o.entityJid.value, o.messageId.value, eventId, newId);
      SameMessages(AddRevision(t, o.entityJid.value, o.messageId.value, eventId, newId), t');
    } else {
      SameMessages(t, t');
    }
  }

  lemma {:induction false} FilterUnique(f: Revision -> bool, revisions: seq<Revision>)
    requires RevisionsUnique(revisions)
    ensures RevisionsUnique(Filter(f, revisions))
  {
    if revisions != [] {
      var n := |revisions| - 1;
      FilterUnique(f, revisions[..n]);
      FilterMembers(f, revisions[..n]);
      var kept := Filter(f, revisions[..n]);
      forall i | 0 <= i < |kept|
        ensures kept[i].messageId != revisions[n].messageId || kept[i].number != revisions[n].number
      {
        assert kept[i] in revisions[..n];
      }
    }
  }

  lemma {:induction false} FilterDistinct(f: Message -> bool, messages: seq<Message>)
    requires DistinctMessages(messages)
    ensures DistinctMessages(Filter(f, messages))
  {
    if messages != [] {
      var n := |messages| - 1;
      FilterDistinct(f, messages[..n]);
      FilterMembers(f, messages[..n]);
      var kept := Filter(f, messages[..n]);
      forall i | 0 <= i < |kept| ensures kept[i].id != messages[n].id {
        assert kept[i] in messages[..n];
      }
    }
  }

  lemma RevisionCountIff(revisions: seq<Revision>, id: string)
    ensures RevisionCount(revisions, id) > 0 <==> HasRevision(revisions, id)
  {
    var f := (r: Revision) => r.messageId == id;
    FilterMembers(f, revisions);
    if RevisionCount(revisions, id) > 0 {
      assert Filter(f, revisions)[0] in Filter(f, revisions);
    }
  }

  lemma KeepRowsRefer(rows: seq<Row>, gone: set<string>, ids: set<string>)
    requires RowsIn(rows, ids)
    ensures RowsIn(KeepRows(rows, gone), ids - gone)
  {
    FilterMembers((r: Row) => r.eventId !in gone, rows);
  }

  /** A message survives a purge exactly when one of its revisions does. */
  lemma OrphansExactly(t: Tables, gone: set<string>, m: Message)
    requires MessagesSound(t) && m in t.messages
    ensures m.id in Orphans(t, gone) <==> forall r :: r in t.revisions && r.messageId == m.id ==> r.eventId in gone
  {
    var f := (r: Revision) => r.eventId !in gone;
    var kept := Filter(f, t.revisions);
    FilterMembers(f, t.revisions);
    RevisionCountIff(kept, m.id);
    if forall r :: r in t.revisions && r.messageId == m.id ==> r.eventId in gone {
      var r :| r in t.revisions && r.messageId == m.id;
      assert RevisionCount(kept, r.messageId) == 0;
    }
    if m.id in Orphans(t, gone) {
      assert !HasRevision(kept, m.id);
      assert forall r :: r in kept ==> r.messageId != m.id;
    }
  }

  lemma PurgeKeepsMessages(t: Tables, gone: set<string>)
    requires MessagesSound(t)
    ensures MessagesSound(PurgeDerived(t, gone))
  {
    var f := (r: Revision) => r.eventId !in gone;
    var orphans := Orphans(t, gone);
    var g := (m: Message) => m.id !in orphans;
    var t' := PurgeDerived(t, gone);
    FilterMembers(f, t.revisions);
    FilterMembers(g, t.messages);
    FilterDistinct(g, t.messages);
    forall m | m in t'.messages ensures HasRevision(t'.revisions, m.id) {
      OrphansExactly(t, gone, m);
      var r :| r in t.revisions && r.messageId == m.id && r.eventId !in gone;
      assert r in t'.revisions;
    }
    forall r | r in t'.revisions ensures Backed(t'.messages, r) {
      var m :| m in t.messages && m.id == r.messageId && 1 <= r.number <= m.latestRevision;
      OrphansExactly(t, gone, m);
      assert m in t'.messages;
    }
  }

  lemma PurgeRefers(t: Tables, ids: set<string>, gone: set<string>)
    requires RefersTo(t, ids)
    ensures RefersTo(PurgeDerived(t, gone), ids - gone)
  {
    FilterMembers((r: Revision) => r.eventId !in gone, t.revisions);
    KeepRowsRefer(t.receipts, gone, ids);
    KeepRowsRefer(t.reactions, gone, ids);
    KeepRowsRefer(t.entities, gone, ids);
    KeepRowsRefer(t.memberships, gone, ids);
    KeepRowsRefer(t.calls, gone, ids);
    KeepRowsRefer(t.syncGaps, gone, ids);
  }

  /** A purge keeps the tables sound over the events that remain. */
  lemma PurgeKeepsSound(t: Tables, ids: set<string>, gone: set<string>)
    requires Sound(t, ids)
    ensures Sound(PurgeDerived(t, gone), ids - gone)
  {
    PurgeKeepsMessages(t, gone);
    PurgeRefers(t, ids, gone);
    FilterUnique((r: Revision) => r.eventId !in gone, t.revisions);
  }

  // ---------------------------------------------------------------- events and tables together

  /** The ids of the events that are stored with content. */
  ghost function RetainedIds(events: seq<Event>): set<string> {
    set e | e in events && !e.excluded :: e.id
  }

  ghost predicate DistinctIds(events: seq<Event>) {
    forall i, j :: 0 <= i < j < |events| ==> events[i].id != events[j].id
  }

  function IdsOf(events: seq<Event>): set<string> {
    set e | e in events :: e.id
  }

  lemma {:induction false} FilterDistinctIds(f: Event -> bool, events: seq<Event>)
    requires DistinctIds(events)
    ensures DistinctIds(Filter(f, events))
  {
    if events != [] {
      var n := |events| - 1;
      FilterDistinctIds(f, events[..n]);
      FilterMembers(f, events[..n]);
      var kept := Filter(f, events[..n]);
      forall i | 0 <= i < |kept| ensures kept[i].id != events[n].id {
        assert kept[i] in events[..n];
      }
    }
  }

  /** Ids are keys, so deleting by id removes from the tables what the purge removed from the events. */
  lemma PurgedIds(events: seq<Event>, selected: Event -> bool)
    requires DistinctIds(events)
    ensures RetainedIds(Filter(e => !selected(e), events))
         == RetainedIds(events) - IdsOf(Filter(selected, events))
  {
    var kept, gone := Filter(e => !selected(e), events), Filter(selected, events);
    FilterMembers(selected, events);
    FilterMembers(e => !selected(e), events);
    forall e, g | e in kept && g in gone ensures e.id != g.id {
      var i :| 0 <= i < |events| && events[i] == e;
      var j :| 0 <= j < |events| && events[j] == g;
    }
  }
}
