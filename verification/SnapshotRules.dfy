/** When a snapshot answers, in plain terms: where its time to live comes from, and what counts as an answer. */
module SnapshotRules {
  import opened Strings
  import opened JsonText
  import opened JsonValues
  import opened LocalRead

  // ---------------------------------------------------------------- the time to live

  /** The overrides in charge: a template's hide those of the instance, whatever methods they name. */
  lemma OverridesDecide(t: TtlSources, name: string)
    ensures t.templateOverrides.Some? && name in t.templateOverrides.value ==>
              Ttl(t, name) == t.templateOverrides.value[name]
    ensures t.templateOverrides.None? && t.instanceOverrides.Some? && name in t.instanceOverrides.value ==>
              Ttl(t, name) == t.instanceOverrides.value[name]
  {
  }

  /** A method without an override: template, instance, environment by method, environment. */
  lemma DefaultsDecide(t: TtlSources, name: string)
    requires t.templateOverrides.Some? ==> name !in t.templateOverrides.value
    requires t.templateOverrides.None? && t.instanceOverrides.Some? ==> name !in t.instanceOverrides.value
    ensures t.templateDefault.Some? ==> Ttl(t, name) == t.templateDefault.value
    ensures t.templateDefault.None? && t.instanceDefault.Some? ==> Ttl(t, name) == t.instanceDefault.value
    ensures t.templateDefault.None? && t.instanceDefault.None? && name in t.environmentOverrides ==>
              Ttl(t, name) == t.environmentOverrides[name]
    ensures t.templateDefault.None? && t.instanceDefault.None? && name !in t.environmentOverrides ==>
              Ttl(t, name) == t.environmentDefault
  {
  }

  /** The age is counted in whole seconds, from zero. */
  lemma AgeInSeconds(s: Snapshot, now: int)
    ensures var age := AgeSeconds(s, now);
            age >= 0 && (now >= s.fetchedAt ==> 1000 * age <= now - s.fetchedAt < 1000 * (age + 1))
            && (now < s.fetchedAt ==> age == 0)
  {
  }

  // ---------------------------------------------------------------- keys listed first

  /** The keys that objects list first are the decimals below 2^32 - 1. */
  lemma IndexIff(k: string)
    ensures IsIndex(k) <==> exists n: nat :: n < 4294967295 && Decimal(n) == k
  {
    if IsIndex(k) {
      CanonicalRoundTrip(k);
      assert Decimal(Numeral(k)) == k;
    }
    if n: nat :| n < 4294967295 && Decimal(n) == k {
      DecimalRoundTrip(n);
      NoLeadingZero(n);
    }
  }

  lemma {:induction false} NoLeadingZero(n: nat)
    ensures Decimal(n) != "" && (Decimal(n)[0] != '0' || Decimal(n) == "0")
    ensures n > 0 ==> Decimal(n)[0] != '0'
  {
    if n >= 10 { NoLeadingZero(n / 10); }
  }

  // ---------------------------------------------------------------- what counts as an answer

  /** A field that holds a list with something in it. */
  predicate HasItems(v: Value, key: string) {
    v.VObj? && key in v.fields && v.fields[key].VArr? && |v.fields[key].items| > 0
  }

  predicate IsText(v: Value) {
    v.VStr? && |v.s| > 0
  }

  /** The first of two fields that is there and not null, or the value itself. */
  ghost predicate Chosen(v: Value, first: string, second: string, chosen: Value) {
    if v.VObj? && first in v.fields && v.fields[first] != VNull then chosen == v.fields[first]
    else if v.VObj? && second in v.fields && v.fields[second] != VNull then chosen == v.fields[second]
    else chosen == v
  }

  /** The value judged: the `result` of an object that has one, and otherwise the value itself. */
  ghost predicate Judged(value: Value, result: Value) {
    if value.VObj? && "result" in value.fields then result == value.fields["result"] else result == value
  }

  /** A catalogue must have products, collections must be there, a picture must have an address. */
  lemma RelevantIff(name: string, value: Value, result: Value, chosen: Value)
    requires Judged(value, result) && Chosen(result, "profilePictureUrl", "url", chosen)
    ensures name == "getCatalog" ==> (Relevant(name, value) <==> HasItems(result, "products"))
    ensures name == "getCollections" ==> (Relevant(name, value) <==> HasItems(result, "collections"))
    ensures name in {"profilePictureUrl", "chat.fetchProfilePictureUrl"} ==> (Relevant(name, value) <==> IsText(chosen))
    ensures name !in {"getCatalog", "getCollections", "profilePictureUrl", "chat.fetchProfilePictureUrl"} ==>
              (Relevant(name, value) <==> result !in {VNull, VStr(""), VArr([]), VObj(map[])})
  {
  }
}
