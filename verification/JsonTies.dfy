/**
 Keys that compare as equal: a stable sort prints them in the order of insertion, so that one
 meaning has more than one text.
 */
module JsonTies {
  import opened JsonText
  import opened JsonValues

  /** Some entry with key k stands before one with key l. */
  predicate Before(s: seq<Entry>, k: string, l: string) {
    s != [] && ((s[0].key == k && exists e :: e in s[1..] && e.key == l) || Before(s[1..], k, l))
  }

  lemma {:induction false} BeforeMembers(s: seq<Entry>, k: string, l: string)
    requires Before(s, k, l)
    ensures (exists e :: e in s && e.key == k) && exists e :: e in s && e.key == l
  {
    assert s == [s[0]] + s[1..];
    if !(s[0].key == k && exists e :: e in s[1..] && e.key == l) { BeforeMembers(s[1..], k, l); }
  }

  /** Of two different keys, one comes first. */
  lemma {:induction false} NotBothBefore(s: seq<Entry>, k: string, l: string)
    requires EntriesWellFormed(s) && k != l && Before(s, k, l)
    ensures !Before(s, l, k)
  {
    if Before(s[1..], k, l) {
      BeforeMembers(s[1..], k, l);
      NotBothBefore(s[1..], k, l);
    } else if Before(s[1..], l, k) {
      BeforeMembers(s[1..], l, k);
    }
  }

  lemma {:induction false} InsertGoesBefore(le: Order, e: Entry, s: seq<Entry>, f: Entry)
    requires f in s && le(e.key, f.key)
    ensures Before(Insert(le, e, s), e.key, f.key)
  {
    if le(e.key, s[0].key) {
      assert ([e] + s)[1..] == s;
    } else {
      assert s == [s[0]] + s[1..];
      InsertGoesBefore(le, e, s[1..], f);
      assert ([s[0]] + Insert(le, e, s[1..]))[1..] == Insert(le, e, s[1..]);
    }
  }

  lemma {:induction false} InsertKeepsBefore(le: Order, e: Entry, s: seq<Entry>, k: string, l: string)
    requires Before(s, k, l)
    ensures Before(Insert(le, e, s), k, l)
  {
    if le(e.key, s[0].key) {
      assert ([e] + s)[1..] == s;
    } else {
      var r := Insert(le, e, s[1..]);
      assert ([s[0]] + r)[1..] == r;
      if Before(s[1..], k, l) {
        InsertKeepsBefore(le, e, s[1..], k, l);
      } else {
        var f :| f in s[1..] && f.key == l;
        assert f in r;
      }
    }
  }

  /** What a sorted object holds: each key with its sorted value. */
  lemma {:induction false} SortedMembers(le: Order, entries: seq<Entry>, e: Entry)
    ensures e in SortEntries(le, entries)
       <==> exists i :: 0 <= i < |entries| && e == Entry(entries[i].key, Normalize(le, entries[i].value))
  {
    if entries != [] {
      SortedMembers(le, entries[1..], e);
      var t := entries[1..];
      if i :| 0 <= i < |t| && e == Entry(t[i].key, Normalize(le, t[i].value)) { assert t[i] == entries[i + 1]; }
      if i :| 0 < i < |entries| && e == Entry(entries[i].key, Normalize(le, entries[i].value)) {
        assert t[i - 1] == entries[i];
      }
    }
  }

  /** The sort is stable: it leaves keys in order that the comparator allows to stay in it. */
  lemma {:induction false} SortIsStable(le: Order, entries: seq<Entry>, i: nat, j: nat)
    requires i < j < |entries| && le(entries[i].key, entries[j].key)
    ensures Before(SortEntries(le, entries), entries[i].key, entries[j].key)
  {
    var first := Entry(entries[0].key, Normalize(le, entries[0].value));
    var rest := SortEntries(le, entries[1..]);
    if i == 0 {
      var f := Entry(entries[j].key, Normalize(le, entries[j].value));
      assert entries[1..][j - 1] == entries[j];
      SortedMembers(le, entries[1..], f);
      InsertGoesBefore(le, first, rest, f);
    } else {
      SortIsStable(le, entries[1..], i - 1, j - 1);
      InsertKeepsBefore(le, first, rest, entries[i].key, entries[j].key);
    }
  }

  function ToFront(entries: seq<Entry>, j: nat): seq<Entry>
    requires j < |entries|
  {
    [entries[j]] + (entries[..j] + entries[j + 1..])
  }

  lemma FieldsCommute(e: Entry, h: Entry, r: seq<Entry>)
    requires EntriesWellFormed([e] + r) && WellFormed(h.value)
    requires e.key != h.key && forall f :: f in r ==> f.key != h.key
    ensures EntriesWellFormed([e] + ([h] + r)) && Fields([e] + ([h] + r)) == Fields([e] + r)[h.key := Denote(h.value)]
  {
    assert ([e] + r)[1..] == r && ([e] + ([h] + r))[1..] == [h] + r && ([h] + r)[1..] == r;
    ConsMeans(h, r);
    var m := Fields(r);
    assert m[h.key := Denote(h.value)][e.key := Denote(e.value)]
        == m[e.key := Denote(e.value)][h.key := Denote(h.value)];
  }

  lemma {:induction false} ToFrontMeans(entries: seq<Entry>, j: nat)
    requires EntriesWellFormed(entries) && j < |entries|
    ensures EntriesWellFormed(ToFront(entries, j)) && Fields(ToFront(entries, j)) == Fields(entries)
  {
    if j == 0 {
      assert ToFront(entries, 0) == entries;
    } else {
      var h, t := entries[0], entries[1..];
      var r := t[..j - 1] + t[j..];
      ToFrontMeans(t, j - 1);
      assert t[j - 1] == entries[j] && entries[..j] + entries[j + 1..] == [h] + r;
      assert forall f :: f in r ==> f in t;
      FieldsCommute(t[j - 1], h, r);
    }
  }

  /** Two tied keys: with the later one moved to the front, the object sorts differently. */
  lemma TiedObject(le: Order, entries: seq<Entry>, i: nat, j: nat)
    requires EntriesWellFormed(entries) && i < j < |entries|
    requires le(entries[i].key, entries[j].key) && le(entries[j].key, entries[i].key)
    ensures SortEntries(le, ToFront(entries, j)) != SortEntries(le, entries)
  {
    var k, l, swapped := entries[i].key, entries[j].key, ToFront(entries, j);
    DifferentKeys(entries, i, j);
    SortIsStable(le, entries, i, j);
    assert swapped[i + 1] == entries[i];
    SortIsStable(le, swapped, 0, i + 1);
    SortEntriesMeans(le, entries);
    NotBothBefore(SortEntries(le, entries), k, l);
  }

  lemma {:induction false} DifferentKeys(entries: seq<Entry>, i: nat, j: nat)
    requires EntriesWellFormed(entries) && i < j < |entries|
    ensures entries[i].key != entries[j].key
  {
    if i > 0 {
      DifferentKeys(entries[1..], i - 1, j - 1);
    } else {
      assert entries[1..][j - 1] == entries[j] && entries[1..][j - 1] in entries[1..];
    }
  }

  lemma {:induction false} ReplaceValue(entries: seq<Entry>, i: nat, v: Json)
    requires EntriesWellFormed(entries) && i < |entries|
    requires WellFormed(v) && Denote(v) == Denote(entries[i].value)
    ensures var r := entries[i := Entry(entries[i].key, v)];
            EntriesWellFormed(r) && Fields(r) == Fields(entries)
  {
    var r := entries[i := Entry(entries[i].key, v)];
    if i == 0 {
      assert r[1..] == entries[1..];
    } else {
      ReplaceValue(entries[1..], i - 1, v);
      assert r[1..] == entries[1..][i - 1 := Entry(entries[i].key, v)];
      forall f | f in r[1..] ensures f.key != r[0].key {
        var k :| 0 <= k < |r[1..]| && r[1..][k] == f;
        assert entries[1..][k] in entries[1..] && entries[1..][k].key == f.key;
      }
    }
  }

  /** A member that sorts differently makes the object sort differently. */
  lemma ChildDiffers(le: Order, entries: seq<Entry>, i: nat, v: Json)
    requires EntriesWellFormed(entries) && i < |entries| && Normalize(le, v) != Normalize(le, entries[i].value)
    ensures SortEntries(le, entries[i := Entry(entries[i].key, v)]) != SortEntries(le, entries)
  {
    var r, e := entries[i := Entry(entries[i].key, v)], Entry(entries[i].key, Normalize(le, v));
    assert r[i] == Entry(entries[i].key, v);
    SortedMembers(le, r, e);
    SortedMembers(le, entries, e);
    forall k | 0 <= k < |entries| && k != i ensures entries[k].key != entries[i].key {
      if k < i { DifferentKeys(entries, k, i); } else { DifferentKeys(entries, i, k); }
    }
  }

  lemma {:induction false} ItemsPointwise(le: Order, items: seq<Json>)
    ensures |NormalizeItems(le, items)| == |items|
    ensures forall i :: 0 <= i < |items| ==>
              NormalizeItems(le, items)[i] == Normalize(le, items[i]) && DenoteItems(items)[i] == Denote(items[i])
    ensures AllWellFormed(items) <==> forall i :: 0 <= i < |items| ==> WellFormed(items[i])
  {
    if items != [] {
      ItemsPointwise(le, items[1..]);
      forall i | 0 < i < |items| ensures items[i] == items[1..][i - 1] {}
    }
  }

  /** A value with a tie anywhere in it can be rearranged so that it means the same and sorts differently. */
  lemma {:induction false} Rearrange(le: Order, a: Json) returns (b: Json)
    requires WellFormed(a) && !Untied(le, Denote(a))
    ensures WellFormed(b) && Denote(b) == Denote(a) && Normalize(le, b) != Normalize(le, a)
    decreases a
  {
    if a.Arr? {
      b := RearrangeItems(le, a.items);
    } else {
      var entries, fields := a.entries, Fields(a.entries);
      if k, l :| k in fields && l in fields && le(k, l) && le(l, k) && k != l {
        var i := EntryOf(entries, k);
        var j := EntryOf(entries, l);
        var first, last := if i < j then i else j, if i < j then j else i;
        ToFrontMeans(entries, last);
        TiedObject(le, entries, first, last);
        b := Obj(ToFront(entries, last));
      } else {
        var k :| k in fields && !Untied(le, fields[k]);
        var i := EntryOf(entries, k);
        FieldsLookup(entries, i);
        EntryWellFormed(entries, i);
        var v := Rearrange(le, entries[i].value);
        ReplaceValue(entries, i, v);
        ChildDiffers(le, entries, i, v);
        b := Obj(entries[i := Entry(k, v)]);
      }
    }
  }

  lemma {:induction false} RearrangeItems(le: Order, items: seq<Json>) returns (b: Json)
    requires AllWellFormed(items) && !Untied(le, VArr(DenoteItems(items)))
    ensures WellFormed(b) && Denote(b) == VArr(DenoteItems(items)) && Normalize(le, b) != Arr(NormalizeItems(le, items))
    decreases items
  {
    ItemsPointwise(le, items);
    var i :| 0 <= i < |items| && !Untied(le, DenoteItems(items)[i]);
    var v := Rearrange(le, items[i]);
    var after := items[i := v];
    ItemsPointwise(le, after);
    assert DenoteItems(after) == DenoteItems(items);
    assert NormalizeItems(le, after)[i] != NormalizeItems(le, items)[i];
    b := Arr(after);
  }

  lemma EntryOf(entries: seq<Entry>, k: string) returns (i: nat)
    requires k in Fields(entries)
    ensures i < |entries| && entries[i].key == k
  {
    FieldsKeys(entries, k);
    var e :| e in entries && e.key == k;
    i :| i < |entries| && entries[i] == e;
  }

  lemma {:induction false} EntryWellFormed(entries: seq<Entry>, i: nat)
    requires EntriesWellFormed(entries) && i < |entries|
    ensures WellFormed(entries[i].value)
  {
    if i > 0 { EntryWellFormed(entries[1..], i - 1); }
  }

  /**
   One value's text is canonical, in that everything that means the same prints the same,
   exactly when the value has no tied keys.
   */
  lemma CanonicalTextIff(le: Order, a: Json)
    requires Preorder(le) && WellFormed(a)
    ensures (forall b :: WellFormed(b) && Denote(b) == Denote(a) ==> Sorted(le, b) == Sorted(le, a))
       <==> Untied(le, Denote(a))
  {
    if Untied(le, Denote(a)) {
      forall b | WellFormed(b) && Denote(b) == Denote(a) ensures Sorted(le, b) == Sorted(le, a) {
        SameMeaningSameText(le, b, a);
      }
    } else {
      var b := Rearrange(le, a);
      NormalizeMeans(le, a);
      NormalizeMeans(le, b);
      if Sorted(le, b) == Sorted(le, a) { PrintInjective(Normalize(le, b), Normalize(le, a)); }
    }
  }
}
