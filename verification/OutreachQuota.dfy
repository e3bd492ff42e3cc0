/**
 The daily quota of new or dormant recipients.  Evaluations of one instance are serialised
 by its lock, so reservations happen one after the other at non-decreasing times.
 */
module OutreachQuota {
  import opened Numbers
  import opened Sequences

  datatype Reservation = Reservation(recipient: string, at: int)

  datatype Outcome = AlreadyCounted | Blocked | Reserved

  predicate Recent(lastOutreach: map<string, int>, recipient: string, now: int) {
    recipient in lastOutreach && lastOutreach[recipient] >= now - DAY
  }

  function RecentRecipients(lastOutreach: map<string, int>, now: int): set<string> {
    set r | r in lastOutreach && lastOutreach[r] >= now - DAY
  }

  function InWindow(lo: int, hi: int): Reservation -> bool {
    (e: Reservation) => lo <= e.at <= hi
  }

  function InDay(lo: int, hi: int, log: seq<Reservation>): nat {
    Count(InWindow(lo, hi), log)
  }

  /** The column `lastOutreachAt` holds the latest reservation of each recipient. */
  ghost predicate Records(lastOutreach: map<string, int>, log: seq<Reservation>) {
    && (forall e :: e in log ==> e.recipient in lastOutreach && e.at <= lastOutreach[e.recipient])
    && (forall r :: r in lastOutreach ==> Reservation(r, lastOutreach[r]) in log)
  }

  ghost predicate InOrder(log: seq<Reservation>) {
    forall i, j :: 0 <= i < j < |log| ==>
      log[i].at <= log[j].at && (log[i].recipient == log[j].recipient ==> log[i].at < log[j].at - DAY)
  }

  ghost predicate WithinQuota(limit: nat, log: seq<Reservation>) {
    forall lo, hi :: hi - lo <= DAY ==> InDay(lo, hi, log) <= limit
  }

  function Recipients(log: seq<Reservation>): set<string> {
    set e | e in log :: e.recipient
  }

  ghost predicate DistinctRecipients(log: seq<Reservation>) {
    forall i, j :: 0 <= i < j < |log| ==> log[i].recipient != log[j].recipient
  }

  lemma {:induction false} DistinctCount(log: seq<Reservation>)
    requires DistinctRecipients(log)
    ensures |Recipients(log)| == |log|
  {
    if log != [] {
      var n := |log| - 1;
      DistinctCount(log[..n]);
      assert log == log[..n] + [log[n]];
      assert Recipients(log) == Recipients(log[..n]) + {log[n].recipient};
      assert log[n].recipient !in Recipients(log[..n]) by {
        forall e | e in log[..n] ensures e.recipient != log[n].recipient {
          var i :| 0 <= i < n && log[i] == e;
        }
      }
    }
  }

  lemma {:induction false} FilterInOrder(f: Reservation -> bool, log: seq<Reservation>)
    requires InOrder(log)
    ensures InOrder(Filter(f, log))
  {
    if log != [] {
      var n := |log| - 1;
      FilterInOrder(f, log[..n]);
      FilterMembers(f, log[..n]);
      var kept := Filter(f, log[..n]);
      forall i | 0 <= i < |kept|
        ensures kept[i].at <= log[n].at && (kept[i].recipient == log[n].recipient ==> kept[i].at < log[n].at - DAY)
      {
        assert kept[i] in log[..n];
      }
    }
  }

  /** Within a day, the reservations are of different recipients, all of them recent. */
  lemma DayCount(lastOutreach: map<string, int>, log: seq<Reservation>, lo: int, hi: int, now: int)
    requires Records(lastOutreach, log) && InOrder(log) && hi - lo <= DAY && now - DAY <= lo
    ensures InDay(lo, hi, log) <= |RecentRecipients(lastOutreach, now)|
  {
    var inside := Filter(InWindow(lo, hi), log);
    FilterMembers(InWindow(lo, hi), log);
    FilterInOrder(InWindow(lo, hi), log);
    assert forall i :: 0 <= i < |inside| ==> inside[i] in inside;
    assert DistinctRecipients(inside);
    DistinctCount(inside);
    assert Recipients(inside) <= RecentRecipients(lastOutreach, now);
    SubsetSize(Recipients(inside), RecentRecipients(lastOutreach, now));
  }

  // ---------------------------------------------------------------- in terms of the reservations

  /** Reservations of a closed span of time. */
  function Between(lo: int, hi: int): Reservation -> bool {
    (e: Reservation) => lo <= e.at && e.at <= hi
  }

  /** The recipients with a reservation since `from`. */
  function ReservedSince(log: seq<Reservation>, from: int): set<string> {
    set e | e in log && e.at >= from :: e.recipient
  }

  lemma RecentIff(lastOutreach: map<string, int>, log: seq<Reservation>, recipient: string, now: int)
    requires Records(lastOutreach, log)
    ensures Recent(lastOutreach, recipient, now) <==> recipient in ReservedSince(log, now - 86_400_000)
    ensures RecentRecipients(lastOutreach, now) == ReservedSince(log, now - 86_400_000)
  {
    forall r ensures r in RecentRecipients(lastOutreach, now) <==> r in ReservedSince(log, now - 86_400_000) {
      if r in lastOutreach { assert Reservation(r, lastOutreach[r]) in log; }
    }
  }

  /** No 24 hours hold more reservations than the quota. */
  lemma AnyDay(limit: nat, log: seq<Reservation>, lo: int, hi: int)
    requires WithinQuota(limit, log) && hi - lo <= 86_400_000
    ensures Count(Between(lo, hi), log) <= limit
  {
    assert InDay(lo, hi, log) <= limit;
    CountBound(Between(lo, hi), InWindow(lo, hi), log);
  }

  lemma SubsetSize(a: set<string>, b: set<string>)
    requires a <= b
    ensures |a| <= |b|
  {
    assert b == a + (b - a);
  }

  class Quota {
    const limit: nat
    var lastOutreach: map<string, int>
    ghost var log: seq<Reservation>

    ghost predicate Valid()
      reads this
    {
      Records(lastOutreach, log) && InOrder(log) && WithinQuota(limit, log)
    }

    constructor (limit: nat)
      ensures Valid() && this.limit == limit && log == []
    {
      this.limit := limit;
      lastOutreach, log := map[], [];
    }

    /**
     The outreach check for a NEW or DORMANT recipient.  Whatever has been reserved, every
     closed 24-hour window holds at most `limit` reservations, of different recipients.
     */
    method Reserve(recipient: string, now: int) returns (outcome: Outcome)
      requires Valid() && forall e :: e in log ==> e.at <= now
      modifies this
      ensures Valid()
      ensures outcome == (if Recent(old(lastOutreach), recipient, now) then AlreadyCounted
                          else if |RecentRecipients(old(lastOutreach), now)| >= limit then Blocked
                          else Reserved)
      ensures outcome.AlreadyCounted? <==> recipient in ReservedSince(old(log), now - 86_400_000)
      ensures outcome.Blocked? <==>
                && recipient !in ReservedSince(old(log), now - 86_400_000)
                && |ReservedSince(old(log), now - 86_400_000)| >= limit
      ensures forall lo, hi :: hi - lo <= 86_400_000 ==> Count(Between(lo, hi), log) <= limit
      ensures log == if outcome.Reserved? then old(log) + [Reservation(recipient, now)] else old(log)
      ensures outcome.Reserved? || lastOutreach == old(lastOutreach)
    {
      RecentIff(lastOutreach, log, recipient, now);
      forall lo, hi | hi - lo <= 86_400_000 ensures Count(Between(lo, hi), log) <= limit { AnyDay(limit, log, lo, hi); }
      if Recent(lastOutreach, recipient, now) { return AlreadyCounted; }
      if |RecentRecipients(lastOutreach, now)| >= limit { return Blocked; }
      ReserveKeeps(lastOutreach, log, limit, recipient, now);
      lastOutreach := lastOutreach[recipient := now];
      log := log + [Reservation(recipient, now)];
      forall lo, hi | hi - lo <= 86_400_000 ensures Count(Between(lo, hi), log) <= limit { AnyDay(limit, log, lo, hi); }
      return Reserved;
    }
  }

  lemma ReserveKeeps(lastOutreach: map<string, int>, log: seq<Reservation>, limit: nat, recipient: string, now: int)
    requires Records(lastOutreach, log) && InOrder(log) && WithinQuota(limit, log)
    requires forall e :: e in log ==> e.at <= now
    requires !Recent(lastOutreach, recipient, now) && |RecentRecipients(lastOutreach, now)| < limit
    ensures var log', last' := log + [Reservation(recipient, now)], lastOutreach[recipient := now];
            Records(last', log') && InOrder(log') && WithinQuota(limit, log')
  {
    var e := Reservation(recipient, now);
    var log' := log + [e];
    assert log'[|log|] == e;
    forall lo, hi | hi - lo <= DAY ensures InDay(lo, hi, log') <= limit {
      assert log'[..|log|] == log;
      assert InDay(lo, hi, log') == InDay(lo, hi, log) + if lo <= now <= hi then 1 else 0;
      if lo <= now <= hi { DayCount(lastOutreach, log, lo, hi, now); }
    }
    var last' := lastOutreach[recipient := now];
    forall r | r in last'
      ensures Reservation(r, last'[r]) in log'
    {
      if r != recipient { assert Reservation(r, lastOutreach[r]) in log; }
    }
    forall i | 0 <= i < |log| ensures log[i].at <= now && (log[i].recipient == recipient ==> log[i].at < now - DAY) {
      assert log[i] in log;
    }
  }
}
