/**
 What the archive's records say to a reader: the parts of the hashed texts, the stored ranges and
 counts, and the account they belong to, under which alone they verify.
 */
module ArchiveReading {
  import opened Strings
  import opened JsonText
  import opened JsonValues
  import opened ArchiveChain

  lemma NumeralIsOnePart(n: int)
    ensures '|' !in Signed(n)
  {
    SignedShape(n);
  }

  lemma TwoParts(a: string, b: string, rest: string)
    requires '|' !in a && '|' !in b
    ensures Parts(a + "|" + (b + "|" + rest)) == [a, b] + Parts(rest)
  {
    Assoc(a, "|", b + "|" + rest);
    Assoc(b, "|", rest);
    PartsConcat(a, b + "|" + rest);
    PartsConcat(b, rest);
    PartsOne(a);
    PartsOne(b);
  }

  lemma LastPart(x: string, b: string)
    requires '|' !in b
    ensures Parts(x + "|" + b) == Parts(x) + [b]
  {
    Assoc(x, "|", b);
    PartsConcat(x, b);
    PartsOne(b);
  }

  lemma BodyParts(env: Env, e: Event)
    requires Ideal(env) && '|' !in e.payloadHash
    ensures Parts(RecordBody(env, e)) == Parts(e.eventType) + [env.iso(e.occurredAt), e.payloadHash]
  {
    LastPart(e.eventType, env.iso(e.occurredAt));
    LastPart(e.eventType + "|" + env.iso(e.occurredAt), e.payloadHash);
  }

  /**
   A record hash covers, in this order: account, sequence number, event type, time, payload hash
   and previous hash.  The event type may consist of several parts.
   */
  lemma RecordReads(env: Env, e: Event)
    requires Ideal(env) && '|' !in e.payloadHash && '|' !in OrEmpty(e.previousHash)
    ensures Parts(RecordText(env, e))
         == [env.accountId, Signed(e.sequence)] + Parts(e.eventType)
          + [env.iso(e.occurredAt), e.payloadHash, OrEmpty(e.previousHash)]
  {
    var body, p := RecordBody(env, e), OrEmpty(e.previousHash);
    NumeralIsOnePart(e.sequence);
    BodyParts(env, e);
    TwoParts(env.accountId, Signed(e.sequence), body + "|" + p);
    LastPart(body, p);
  }

  /** A signature covers: account, purge job, criteria hash, summary and the tombstone before. */
  lemma TombstoneReads(env: Env, t: Tombstone, previous: Option<string>)
    requires Ideal(env) && '|' !in t.purgeJobId && '|' !in t.criteriaHash && '|' !in OrEmpty(previous)
    ensures Parts(TombstoneText(env, t, previous))
         == [env.accountId, t.purgeJobId, t.criteriaHash] + Parts(CanonicalJson(t.deletedSummary)) + [OrEmpty(previous)]
  {
    var c, p := CanonicalJson(t.deletedSummary), OrEmpty(previous);
    TwoParts(env.accountId, t.purgeJobId, t.criteriaHash + "|" + (c + "|" + p));
    Assoc(t.criteriaHash, "|", c + "|" + p);
    PartsConcat(t.criteriaHash, c + "|" + p);
    PartsOne(t.criteriaHash);
    LastPart(c, p);
  }

  /** A field of an object, with a given value. */
  predicate Holds(v: Value, key: string, value: Value) {
    v.VObj? && key in v.fields && v.fields[key] == value
  }

  predicate HoldsNumeral(v: Value, key: string, n: int) {
    v.VObj? && key in v.fields && v.fields[key].VStr? && IsDigits(v.fields[key].s) && Numeral(v.fields[key].s) == n
  }

  /** What `verify` takes for a range: its ends as digits, the hash before it or null, and its last hash. */
  lemma RangeIff(v: Value, s: Segment)
    ensures ParseRange(v) == Some(s)
       <==> && HoldsNumeral(v, "start", s.start) && HoldsNumeral(v, "end", s.end) && 1 <= s.start <= s.end
            && Holds(v, "previousHash", match s.previousHash case None => VNull case Some(h) => VStr(h))
            && Holds(v, "lastHash", VStr(s.lastHash))
  {
  }

  /** The number of events a summary claims, as the services write it; a summary without one claims none. */
  lemma CountReads(v: Value, n: int)
    ensures Holds(v, "events", VNum(Signed(n))) ==> EventCount(v) == Some(n)
    ensures !(v.VObj? && "events" in v.fields) ==> EventCount(v) == Some(0)
  {
    SignedRoundTrip(n);
  }

  /** An event whose hash is right for two accounts is an event of both. */
  lemma EventsNameAccount(env: Env, other: string, events: seq<Event>)
    requires Ideal(env) && '|' !in other && events != []
    requires EventsAuthentic(env, events) && EventsAuthentic(env.(accountId := other), events)
    ensures other == env.accountId
  {
    var e := events[0];
    var mine, theirs := RecordText(env, e), RecordText(env.(accountId := other), e);
    assert e in events && env.digest(mine) == env.digest(theirs);
    var rest := Signed(e.sequence) + "|" + (RecordBody(env, e) + "|" + OrEmpty(e.previousHash));
    assert mine == env.accountId + "|" + rest && theirs == other + "|" + rest;
    CutLeft(env.accountId, rest, other, rest, '|');
  }

  lemma TombstonesNameAccount(env: Env, other: string, ts: seq<Tombstone>)
    requires Ideal(env) && '|' !in other && ts != []
    requires TombstonesAuthentic(env, ts) && TombstonesAuthentic(env.(accountId := other), ts)
    ensures other == env.accountId
  {
    var t := ts[0];
    assert AuthenticAt(env, ts, 0) && AuthenticAt(env.(accountId := other), ts, 0);
    assert ts[..0] == [];
    var mine, theirs := TombstoneText(env, t, None), TombstoneText(env.(accountId := other), t, None);
    assert env.sign(mine) == env.sign(theirs);
    var rest := t.purgeJobId + "|" + (t.criteriaHash + "|" + (CanonicalJson(t.deletedSummary) + "|" + ""));
    assert mine == env.accountId + "|" + rest && theirs == other + "|" + rest;
    CutLeft(env.accountId, rest, other, rest, '|');
  }

  /** Rows, if there are any, verify under one account at most. */
  lemma OneAccountOnly(env: Env, other: string, s: Store)
    requires Ideal(env) && '|' !in other && other != env.accountId
    requires s.events != [] || s.tombstones != []
    ensures !(Accepts(env, s) && Accepts(env.(accountId := other), s))
  {
    if Accepts(env, s) && Accepts(env.(accountId := other), s) {
      if s.events != [] {
        EventsNameAccount(env, other, s.events);
      } else {
        TombstonesNameAccount(env, other, s.tombstones);
      }
    }
  }
}
