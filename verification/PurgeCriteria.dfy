/** What a purge may name, and which events go by it. */
module PurgeCriteria {
  import opened Strings
  import opened Sequences
  import opened ArchiveChain
  import opened ArchiveDerived

  datatype Criteria = Criteria(
    before: Option<int>,
    entityJid: Option<string>,
    groupJid: Option<string>,
    eventTypes: seq<string>,
    mediaOnly: bool)

  /** The `where` of a purge; `mediaOnly` purges select no events. */
  predicate Selects(c: Criteria, e: Event) {
    && !c.mediaOnly
    && (Truthy(c.groupJid) ==> e.entityJid == c.groupJid)
    && (!Truthy(c.groupJid) && Truthy(c.entityJid) ==> e.entityJid == c.entityJid)
    && (c.eventTypes != [] ==> e.eventType in c.eventTypes)
    && (c.before.Some? ==> e.occurredAt < c.before.value)
  }

  /** Which criteria a preview admits; dates arrive parsed. */
  predicate Permitted(c: Criteria) {
    && (c.before.Some? || Truthy(c.entityJid) || Truthy(c.groupJid) || c.eventTypes != [])
    && (Truthy(c.groupJid) ==> |c.groupJid.value| >= 5 && c.groupJid.value[|c.groupJid.value| - 5..] == "@g.us")
    && !(c.mediaOnly && c.eventTypes != [])
  }

  predicate EndsIn(s: string, part: string) {
    |s| >= |part| && s[|s| - |part|..] == part
  }

  /**
   A purge names a date, a JID or event types; a group by an address of a group; and types only if
   it is not one of media.
   */
  predicate NamesSomething(c: Criteria) {
    && (c.before.Some? || c.entityJid !in {None, Some("")} || c.groupJid !in {None, Some("")} || |c.eventTypes| > 0)
    && (c.groupJid !in {None, Some("")} ==> EndsIn(c.groupJid.value, "@g.us"))
    && (c.mediaOnly ==> |c.eventTypes| == 0)
  }

  lemma PermittedIff(c: Criteria)
    ensures Permitted(c) <==> NamesSomething(c)
  {
  }

  function Selector(c: Criteria): Event -> bool {
    e => Selects(c, e)
  }

  // ---------------------------------------------------------------- what a purge does to the events

  /**
   What the criteria say of the events that remain: none is new, and those stay that are at or after
   the date, of another type, of another group, or, if no group is named, of another JID; what meets
   all that is given goes.  A purge of media leaves every event.
   */
  ghost predicate GoesBy(c: Criteria, was: seq<Event>, now: seq<Event>) {
    && (forall e :: e in now ==> e in was)
    && (c.mediaOnly ==> now == was)
    && (c.before.Some? ==> forall e :: e in was && e.occurredAt >= c.before.value ==> e in now)
    && (|c.eventTypes| > 0 ==> forall e :: e in was && e.eventType !in c.eventTypes ==> e in now)
    && (c.groupJid !in {None, Some("")} ==> forall e :: e in was && e.entityJid != c.groupJid ==> e in now)
    && (c.groupJid in {None, Some("")} && c.entityJid !in {None, Some("")} ==>
          forall e :: e in was && e.entityJid != c.entityJid ==> e in now)
    && (!c.mediaOnly ==>
          forall e :: && e in was
                      && (c.before.Some? ==> e.occurredAt < c.before.value)
                      && (|c.eventTypes| > 0 ==> e.eventType in c.eventTypes)
                      && (c.groupJid !in {None, Some("")} ==> e.entityJid == c.groupJid)
                      && (c.groupJid in {None, Some("")} && c.entityJid !in {None, Some("")} ==>
                            e.entityJid == c.entityJid)
                      ==> e !in now)
  }

  lemma SelectedGo(c: Criteria, selected: Event -> bool, was: seq<Event>, now: seq<Event>)
    requires selected == Selector(c) && now == Filter(e => !selected(e), was)
    ensures GoesBy(c, was, now)
  {
    FilterMembers(e => !selected(e), was);
    if c.mediaOnly { KeepsAll(e => !selected(e), was); }
  }

  /** A date alone deletes exactly the events before it. */
  lemma DateAlone(c: Criteria, was: seq<Event>, now: seq<Event>, t: int)
    requires GoesBy(c, was, now) && c == Criteria(Some(t), None, None, [], false)
    ensures forall e :: e in now <==> e in was && e.occurredAt >= t
  {
  }

  lemma {:induction false} KeepsAll(f: Event -> bool, events: seq<Event>)
    requires forall e :: f(e)
    ensures Filter(f, events) == events
  {
    if events != [] { KeepsAll(f, events[..|events| - 1]); }
  }
}
