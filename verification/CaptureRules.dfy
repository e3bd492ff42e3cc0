/**
 How a captured event is read by its name: its category, the rows it adds to the history
 tables, and whether the policies in force keep its content.
 */
module CaptureRules {
  import opened Strings
  import opened Sequences
  import opened ArchivePurge
  import opened ArchiveDerived
  import Policies = ArchivePolicy

  // ---------------------------------------------------------------- the decision of `capture`

  function CategoryName(c: Category): string {
    match c
    case Receipts => "receipts"
    case Reactions => "reactions"
    case Messages => "messages"
    case Contacts => "contacts"
    case Chats => "chats"
    case Groups => "groups"
    case Calls => "calls"
    case Events => "events"
  }

  /** The entity type of a category: messages of any kind, or the category without its plural s. */
  function EntityFor(c: Category): string {
    if c in {Messages, Receipts, Reactions} then "message"
    else CategoryName(c)[..|CategoryName(c)| - 1]
  }

  /** What policies are matched against. */
  function TargetOf(accountId: string, instanceName: string, o: Observation): Policies.Target {
    Policies.Target(accountId, instanceName, EntityFor(CategoryFor(o.eventType)), o.entityJid)
  }

  /** Whether `capture` keeps the content, under the policies in force in order of `effectiveAt`. */
  predicate Keeps(default: Policies.Tree, inForce: seq<Policies.Policy>, target: Policies.Target,
                  o: Observation, direction: string)
    requires default.Node? && forall p :: p in inForce ==> p.document.Node?
  {
    Policies.Retains(Policies.Resolve(inForce, target, default), CategoryName(CategoryFor(o.eventType)), direction)
  }

  // ---------------------------------------------------------------- reading an event's name

  /** The character is this one, or the same letter in lower case. */
  predicate IsSpelled(c: char, w: char) {
    c == w || ('A' <= w <= 'Z' && c as int == w as int + 32)
  }

  predicate SpelledAt(event: string, i: int, word: string) {
    0 <= i <= |event| - |word| && forall k :: 0 <= k < |word| ==> IsSpelled(event[i + k], word[k])
  }

  /** The event's name contains the word, in upper or lower case. */
  ghost predicate Mentions(event: string, word: string) {
    exists i :: SpelledAt(event, i, word)
  }

  predicate HasNoLower(word: string) {
    forall k :: 0 <= k < |word| ==> !('a' <= word[k] <= 'z')
  }

  lemma SpelledIff(event: string, i: nat, word: string)
    requires HasNoLower(word) && i <= |event|
    ensures word <= Upper(event)[i..] <==> SpelledAt(event, i, word)
  {
    var rest := Upper(event)[i..];
    assert forall k :: 0 <= k < |rest| ==> rest[k] == UpperChar(event[i + k]);
    if |word| <= |rest| {
      forall k | 0 <= k < |word| ensures rest[k] == word[k] <==> IsSpelled(event[i + k], word[k]) {}
      assert word <= rest <==> forall k :: 0 <= k < |word| ==> rest[k] == word[k];
    }
  }

  lemma MentionsIff(event: string, word: string)
    requires HasNoLower(word)
    ensures Includes(Upper(event), word) <==> Mentions(event, word)
  {
    forall i | 0 <= i <= |event| ensures word <= Upper(event)[i..] <==> SpelledAt(event, i, word) {
      SpelledIff(event, i, word);
    }
  }

  lemma WordsMentioned(event: string)
    ensures Includes(Upper(event), "MESSAGE_RECEIPT") <==> Mentions(event, "MESSAGE_RECEIPT")
    ensures Includes(Upper(event), "REACTION") <==> Mentions(event, "REACTION")
    ensures Includes(Upper(event), "MESSAGE") <==> Mentions(event, "MESSAGE")
    ensures Includes(Upper(event), "CONTACT") <==> Mentions(event, "CONTACT")
    ensures Includes(Upper(event), "CHAT") <==> Mentions(event, "CHAT")
    ensures Includes(Upper(event), "GROUP") <==> Mentions(event, "GROUP")
    ensures Includes(Upper(event), "CALL") <==> Mentions(event, "CALL")
  {
    MentionsIff(event, "MESSAGE_RECEIPT");
    MentionsIff(event, "REACTION");
    MentionsIff(event, "MESSAGE");
    MentionsIff(event, "CONTACT");
    MentionsIff(event, "CHAT");
    MentionsIff(event, "GROUP");
    MentionsIff(event, "CALL");
  }

  /** What policies call the category of an event: it goes by the first of these words that its name has. */
  ghost predicate FiledUnder(event: string, key: string) {
    if Mentions(event, "MESSAGE_RECEIPT") then key == "receipts"
    else if Mentions(event, "REACTION") then key == "reactions"
    else if Mentions(event, "MESSAGE") then key == "messages"
    else if Mentions(event, "CONTACT") then key == "contacts"
    else if Mentions(event, "CHAT") then key == "chats"
    else if Mentions(event, "GROUP") then key == "groups"
    else if Mentions(event, "CALL") then key == "calls"
    else key == "events"
  }

  /** The name of an event decides where it is filed, and nothing is filed twice. */
  lemma FiledOnce(event: string, key: string)
    ensures FiledUnder(event, key) <==> key == CategoryName(CategoryFor(event))
  {
    WordsMentioned(event);
  }

  lemma CategoryKeys(event: string)
    ensures FiledUnder(event, "receipts") <==> CategoryFor(event) == Receipts
    ensures FiledUnder(event, "reactions") <==> CategoryFor(event) == Reactions
    ensures FiledUnder(event, "messages") <==> CategoryFor(event) == Messages
    ensures FiledUnder(event, "contacts") <==> CategoryFor(event) == Contacts
    ensures FiledUnder(event, "chats") <==> CategoryFor(event) == Chats
    ensures FiledUnder(event, "groups") <==> CategoryFor(event) == Groups
    ensures FiledUnder(event, "calls") <==> CategoryFor(event) == Calls
    ensures FiledUnder(event, "events") <==> CategoryFor(event) == Events
  {
    FiledOnce(event, "receipts");
    FiledOnce(event, "reactions");
    FiledOnce(event, "messages");
    FiledOnce(event, "contacts");
    FiledOnce(event, "chats");
    FiledOnce(event, "groups");
    FiledOnce(event, "calls");
    FiledOnce(event, "events");
  }

  // ---------------------------------------------------------------- what an event adds

  /** One row about the event if the condition holds, and none otherwise. */
  ghost predicate AddsRow(was: seq<Row>, now: seq<Row>, condition: bool, eventId: string, subject: Option<string>) {
    now == if condition then was + [Row(eventId, subject)] else was
  }

  lemma Given(s: Option<string>)
    ensures Truthy(s) <==> s !in {None, Some("")}
  {
  }

  lemma EntityCategories(c: Category)
    ensures c in {Contacts, Chats, Groups} <==> c == Contacts || c == Chats || c == Groups
  {
  }

  /** Receipts, reactions and calls are filed by the name of the event. */
  lemma RowsFiled(t: Tables, o: Observation, eventId: string, newId: string)
    ensures var t' := CaptureDerived(t, o, eventId, newId);
            && AddsRow(t.receipts, t'.receipts, FiledUnder(o.eventType, "receipts"), eventId, o.messageId)
            && AddsRow(t.reactions, t'.reactions, FiledUnder(o.eventType, "reactions"), eventId, o.messageId)
            && AddsRow(t.calls, t'.calls, FiledUnder(o.eventType, "calls"), eventId, o.entityJid)
  {
    CategoryKeys(o.eventType);
  }

  /** A contact, chat or group that is named gets a row; so does a history status that is not complete. */
  lemma RowsAbout(t: Tables, o: Observation, eventId: string, newId: string)
    ensures var t' := CaptureDerived(t, o, eventId, newId);
            && AddsRow(t.entities, t'.entities,
                       o.entityJid !in {None, Some("")}
                       && (FiledUnder(o.eventType, "contacts") || FiledUnder(o.eventType, "chats")
                           || FiledUnder(o.eventType, "groups")), eventId, o.entityJid)
            && AddsRow(t.syncGaps, t'.syncGaps, o.incompleteSync && Mentions(o.eventType, "MESSAGING_HISTORY_STATUS"),
                       eventId, o.entityJid)
  {
    CategoryKeys(o.eventType);
    EntityCategories(CategoryFor(o.eventType));
    Given(o.entityJid);
    MentionsIff(o.eventType, "MESSAGING_HISTORY_STATUS");
  }

  /** Other events leave messages, revisions and memberships alone. */
  lemma RowsUntouched(t: Tables, o: Observation, eventId: string, newId: string)
    ensures var t', jid := CaptureDerived(t, o, eventId, newId), o.entityJid !in {None, Some("")};
            && (!(jid && o.messageId !in {None, Some("")} && FiledUnder(o.eventType, "messages")) ==>
                  t'.messages == t.messages && t'.revisions == t.revisions)
            && (!(jid && Mentions(o.eventType, "GROUP_PARTICIPANTS")) ==> t'.memberships == t.memberships)
  {
    CategoryKeys(o.eventType);
    MentionsIff(o.eventType, "GROUP_PARTICIPANTS");
  }

  /** The participants with an identifier, in order, each become one membership row. */
  lemma {:induction false} MembersListed(participants: seq<Option<string>>, eventId: string)
    ensures MembershipRows(participants, eventId)
         == RowsFor(Filter((p: Option<string>) => p !in {None, Some("")}, participants), eventId)
  {
    if participants != [] {
      var n := |participants| - 1;
      MembersListed(participants[..n], eventId);
      var f := (p: Option<string>) => p !in {None, Some("")};
      var kept := Filter(f, participants[..n]);
      assert (kept + [participants[n]])[..|kept|] == kept;
    }
  }

  function RowsFor(subjects: seq<Option<string>>, eventId: string): (rows: seq<Row>)
    ensures |rows| == |subjects|
    ensures forall i :: 0 <= i < |rows| ==> rows[i] == Row(eventId, subjects[i])
  {
    seq(|subjects|, i requires 0 <= i < |subjects| => Row(eventId, subjects[i]))
  }

  /** A group's change of participants adds a row for each that is identified. */
  lemma MembersCaptured(t: Tables, o: Observation, eventId: string, newId: string)
    requires o.entityJid !in {None, Some("")} && Mentions(o.eventType, "GROUP_PARTICIPANTS")
    ensures CaptureDerived(t, o, eventId, newId).memberships
         == t.memberships
            + RowsFor(Filter((p: Option<string>) => p !in {None, Some("")}, o.participants), eventId)
  {
    MentionsIff(o.eventType, "GROUP_PARTICIPANTS");
    MembersListed(o.participants, eventId);
  }

  predicate IsMessage(m: Message, chatJid: string, waMessageId: string) {
    m.chatJid == chatJid && m.waMessageId == waMessageId
  }

  /** A message event goes on with the message of its chat and id, or starts it at revision 1. */
  lemma RevisionCaptured(t: Tables, o: Observation, eventId: string, newId: string) returns (i: nat)
    requires FiledUnder(o.eventType, "messages")
    requires o.entityJid !in {None, Some("")} && o.messageId !in {None, Some("")}
    ensures var t', chat, id := CaptureDerived(t, o, eventId, newId), o.entityJid.value, o.messageId.value;
            && i < |t'.messages| && IsMessage(t'.messages[i], chat, id)
            && t'.revisions == t.revisions + [Revision(t'.messages[i].id, eventId, t'.messages[i].latestRevision)]
            && (i < |t.messages| ==>
                  && IsMessage(t.messages[i], chat, id)
                  && t'.messages == t.messages[i := t.messages[i].(latestRevision := t.messages[i].latestRevision + 1)])
            && (i == |t.messages| ==>
                  && (forall m :: m in t.messages ==> !IsMessage(m, chat, id))
                  && t'.messages == t.messages + [Message(newId, chat, id, 1)])
  {
    CategoryKeys(o.eventType);
    var was := FindMessage(t.messages, o.entityJid.value, o.messageId.value);
    i := if was.Some? then was.value else |t.messages|;
  }

  // ---------------------------------------------------------------- what is kept

  /** A path whose value in force excludes: false, and nothing else. */
  predicate Excludes(v: Option<Policies.Scalar>) {
    v.Some? && v.value.SBool? && !v.value.b
  }

  predicate OccursAt(text: string, i: int, part: string) {
    0 <= i <= |text| - |part| && text[i..i + |part|] == part
  }

  /** Directions in force that are listed, but without this one. */
  ghost predicate ListsOthers(v: Option<Policies.Scalar>, direction: string) {
    v.Some? && match v.value
      case SArr(items) =>
        |items| > 0 && forall i :: 0 <= i < |items| ==> items[i] != Policies.Leaf(Policies.SStr(direction))
      case SStr(text) => |text| > 0 && forall i :: !OccursAt(text, i, direction)
      case _ => false
  }

  /** What a policy calls the kind of entity an event is about. */
  lemma TargetSays(accountId: string, instanceName: string, o: Observation)
    ensures var t := TargetOf(accountId, instanceName, o);
            && t.accountId == accountId && t.instanceName == instanceName && t.jid == o.entityJid
            && (t.entityType == "message"
                <==> (FiledUnder(o.eventType, "messages") || FiledUnder(o.eventType, "receipts")
                      || FiledUnder(o.eventType, "reactions")))
            && (t.entityType == "contact" <==> FiledUnder(o.eventType, "contacts"))
            && (t.entityType == "chat" <==> FiledUnder(o.eventType, "chats"))
            && (t.entityType == "group" <==> FiledUnder(o.eventType, "groups"))
            && (t.entityType == "call" <==> FiledUnder(o.eventType, "calls"))
            && (t.entityType == "event" <==> FiledUnder(o.eventType, "events"))
  {
    CategoryKeys(o.eventType);
  }

  /**
   The decision of a capture, for any policies: the content is kept unless the values in force
   exclude its category or all events, or list directions without its own.
   */
  lemma KeptIff(default: Policies.Tree, inForce: seq<Policies.Policy>, target: Policies.Target, o: Observation,
                direction: string, key: string, category: Option<Policies.Scalar>, all: Option<Policies.Scalar>,
                directions: Option<Policies.Scalar>)
    requires default.Node? && forall p :: p in inForce ==> p.document.Node?
    requires Policies.Compatible(Policies.Candidates(inForce, target, default)) && FiledUnder(o.eventType, key)
    requires Policies.InForce(inForce, target, default, ["capture", key], category)
    requires Policies.InForce(inForce, target, default, ["capture", "events"], all)
    requires Policies.InForce(inForce, target, default, ["directions"], directions)
    ensures Keeps(default, inForce, target, o, direction)
       <==> !Excludes(category) && !Excludes(all) && !ListsOthers(directions, direction)
  {
    FiledOnce(o.eventType, key);
    Policies.ResolvesToInForce(inForce, target, default, ["capture", key], category);
    Policies.ResolvesToInForce(inForce, target, default, ["capture", "events"], all);
    Policies.ResolvesToInForce(inForce, target, default, ["directions"], directions);
    if directions.Some? && directions.value.SStr? { IncludesIff(directions.value.s, direction); }
  }

  lemma IncludesIff(text: string, part: string)
    ensures Includes(text, part) <==> exists i :: OccursAt(text, i, part)
  {
    forall i | 0 <= i <= |text| ensures part <= text[i..] <==> OccursAt(text, i, part) {
      if i <= |text| - |part| { assert text[i..][..|part|] == text[i..i + |part|]; }
    }
  }
}
