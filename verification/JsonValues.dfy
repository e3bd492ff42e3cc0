/**
 JSON values as JavaScript holds them (objects keep their entry order), what they mean
 (objects are maps), and the two key-sorting serialisers of the services:
 `canonicalJson` and `JSON.stringify(stableValue(x))`.
 */
module JsonValues {
  import opened JsonText
  import opened Strings

  /** The meaning of a JSON value: the entry order of objects is gone. */
  datatype Value =
    | VNull
    | VBool(b: bool)
    | VNum(token: string)
    | VStr(s: string)
    | VArr(items: seq<Value>)
    | VObj(fields: map<string, Value>)

  type Order = (string, string) -> bool

  // ---------------------------------------------------------------- meaning

  function Denote(j: Json): Value
    decreases j, 1
  {
    match j
    case Null => VNull
    case Bool(b) => VBool(b)
    case Num(t) => VNum(t)
    case Str(s) => VStr(s)
    case Arr(items) => VArr(DenoteItems(items))
    case Obj(entries) => VObj(Fields(entries))
  }

  function DenoteItems(items: seq<Json>): (r: seq<Value>)
    ensures |r| == |items|
    decreases items, 0
  {
    if items == [] then [] else [Denote(items[0])] + DenoteItems(items[1..])
  }

  function Fields(entries: seq<Entry>): map<string, Value>
    decreases entries, 0
  {
    if entries == [] then map[] else Fields(entries[1..])[entries[0].key := Denote(entries[0].value)]
  }

  lemma {:induction false} FieldsKeys(entries: seq<Entry>, k: string)
    ensures k in Fields(entries) <==> exists e :: e in entries && e.key == k
  {
    if entries != [] {
      FieldsKeys(entries[1..], k);
      assert entries == [entries[0]] + entries[1..];
    }
  }

  /** Reading a key of a well-formed object gives the value of the entry with that key. */
  lemma {:induction false} FieldsLookup(entries: seq<Entry>, i: nat)
    requires EntriesWellFormed(entries) && i < |entries|
    ensures entries[i].key in Fields(entries)
    ensures Fields(entries)[entries[i].key] == Denote(entries[i].value)
  {
    if i > 0 {
      FieldsLookup(entries[1..], i - 1);
      assert entries[1..][i - 1] in entries[1..];
    }
  }

  /** The value of an object's field; None for a missing one, and for anything but an object. */
  function Field(v: Value, key: string): Option<Value> {
    if v.VObj? && key in v.fields then Some(v.fields[key]) else None
  }

  // ---------------------------------------------------------------- sorting

  /** Sorts the keys of every object, at every depth; the sort is stable. */
  function Normalize(le: Order, j: Json): Json
    decreases j, 1
  {
    match j
    case Arr(items) => Arr(NormalizeItems(le, items))
    case Obj(entries) => Obj(SortEntries(le, entries))
    case _ => j
  }

  function NormalizeItems(le: Order, items: seq<Json>): seq<Json>
    decreases items, 0
  {
    if items == [] then [] else [Normalize(le, items[0])] + NormalizeItems(le, items[1..])
  }

  function SortEntries(le: Order, entries: seq<Entry>): seq<Entry>
    decreases entries, 0
  {
    if entries == [] then []
    else Insert(le, Entry(entries[0].key, Normalize(le, entries[0].value)), SortEntries(le, entries[1..]))
  }

  function Insert(le: Order, e: Entry, sorted: seq<Entry>): (r: seq<Entry>)
    ensures forall f :: f in r <==> f == e || f in sorted
  {
    if sorted == [] then [e]
    else if le(e.key, sorted[0].key) then [e] + sorted
    else
      assert sorted == [sorted[0]] + sorted[1..];
      [sorted[0]] + Insert(le, e, sorted[1..])
  }

  /** Total and transitive: what a sort needs of its comparator. */
  ghost predicate Preorder(le: Order) {
    && (forall a, b :: le(a, b) || le(b, a))
    && (forall a, b, c :: le(a, b) && le(b, c) ==> le(a, c))
  }

  /** No two different keys compare as equal. */
  ghost predicate NoTies(le: Order) {
    forall a, b :: le(a, b) && le(b, a) ==> a == b
  }

  ghost predicate TotalOrder(le: Order) {
    Preorder(le) && NoTies(le)
  }

  /** Every object has strictly increasing keys, at every depth. */
  predicate Normal(le: Order, j: Json)
    decreases j, 1
  {
    match j
    case Arr(items) => NormalItems(le, items)
    case Obj(entries) => NormalEntries(le, entries)
    case _ => true
  }

  predicate NormalItems(le: Order, items: seq<Json>)
    decreases items, 0
  {
    items == [] || (Normal(le, items[0]) && NormalItems(le, items[1..]))
  }

  predicate NormalEntries(le: Order, entries: seq<Entry>)
    decreases entries, 0
  {
    entries == []
    || (Normal(le, entries[0].value)
        && NormalEntries(le, entries[1..])
        && forall e :: e in entries[1..] ==> le(entries[0].key, e.key) && e.key != entries[0].key)
  }

  lemma ConsMeans(e: Entry, s: seq<Entry>)
    requires EntriesWellFormed(s) && WellFormed(e.value) && forall f :: f in s ==> f.key != e.key
    ensures EntriesWellFormed([e] + s)
    ensures Fields([e] + s) == Fields(s)[e.key := Denote(e.value)]
  {
    assert ([e] + s)[1..] == s;
  }

  lemma {:induction false} InsertMeans(le: Order, e: Entry, s: seq<Entry>)
    requires EntriesWellFormed(s) && WellFormed(e.value) && forall f :: f in s ==> f.key != e.key
    ensures EntriesWellFormed(Insert(le, e, s))
    ensures Fields(Insert(le, e, s)) == Fields(s)[e.key := Denote(e.value)]
  {
    if s == [] || le(e.key, s[0].key) {
      ConsMeans(e, s);
      assert s == [] ==> [e] + s == [e];
    } else {
      InsertMeans(le, e, s[1..]);
      assert s[0] in s;
      ConsMeans(s[0], Insert(le, e, s[1..]));
      var m, k, v := Fields(s[1..]), s[0].key, Denote(s[0].value);
      assert m[e.key := Denote(e.value)][k := v] == m[k := v][e.key := Denote(e.value)];
    }
  }

  /** Sorting keys leaves the meaning alone, whatever the comparator. */
  lemma {:induction false} NormalizeMeans(le: Order, j: Json)
    requires WellFormed(j)
    ensures WellFormed(Normalize(le, j)) && Denote(Normalize(le, j)) == Denote(j)
    decreases j, 1
  {
    match j
    case Arr(items) => NormalizeItemsMeans(le, items);
    case Obj(entries) => SortEntriesMeans(le, entries);
    case _ =>
  }

  lemma {:induction false} NormalizeItemsMeans(le: Order, items: seq<Json>)
    requires AllWellFormed(items)
    ensures AllWellFormed(NormalizeItems(le, items)) && DenoteItems(NormalizeItems(le, items)) == DenoteItems(items)
    decreases items, 0
  {
    if items != [] {
      NormalizeMeans(le, items[0]);
      NormalizeItemsMeans(le, items[1..]);
      assert NormalizeItems(le, items)[1..] == NormalizeItems(le, items[1..]);
    }
  }

  lemma {:induction false} SortEntriesMeans(le: Order, entries: seq<Entry>)
    requires EntriesWellFormed(entries)
    ensures EntriesWellFormed(SortEntries(le, entries)) && Fields(SortEntries(le, entries)) == Fields(entries)
    decreases entries, 0
  {
    if entries != [] {
      var e := entries[0];
      NormalizeMeans(le, e.value);
      SortEntriesMeans(le, entries[1..]);
      FieldsKeys(entries[1..], e.key);
      FieldsKeys(SortEntries(le, entries[1..]), e.key);
      InsertMeans(le, Entry(e.key, Normalize(le, e.value)), SortEntries(le, entries[1..]));
    }
  }

  lemma {:induction false} InsertSorts(le: Order, e: Entry, s: seq<Entry>)
    requires Preorder(le) && NormalEntries(le, s) && Normal(le, e.value) && forall f :: f in s ==> f.key != e.key
    ensures NormalEntries(le, Insert(le, e, s))
  {
    assert s != [] ==> s == [s[0]] + s[1..];
    if s == [] || le(e.key, s[0].key) {
      assert ([e] + s)[1..] == s;
    } else {
      InsertSorts(le, e, s[1..]);
      assert ([s[0]] + Insert(le, e, s[1..]))[1..] == Insert(le, e, s[1..]);
    }
  }

  /** Sorting sorts, ties or not. */
  lemma {:induction false} NormalizeSorts(le: Order, j: Json)
    requires Preorder(le) && WellFormed(j)
    ensures Normal(le, Normalize(le, j))
    decreases j, 1
  {
    match j
    case Arr(items) => NormalizeItemsSorts(le, items);
    case Obj(entries) => SortEntriesSorts(le, entries);
    case _ =>
  }

  lemma {:induction false} NormalizeItemsSorts(le: Order, items: seq<Json>)
    requires Preorder(le) && AllWellFormed(items)
    ensures NormalItems(le, NormalizeItems(le, items))
    decreases items, 0
  {
    if items != [] {
      NormalizeSorts(le, items[0]);
      NormalizeItemsSorts(le, items[1..]);
      assert NormalizeItems(le, items)[1..] == NormalizeItems(le, items[1..]);
    }
  }

  lemma {:induction false} SortEntriesSorts(le: Order, entries: seq<Entry>)
    requires Preorder(le) && EntriesWellFormed(entries)
    ensures NormalEntries(le, SortEntries(le, entries))
    decreases entries, 0
  {
    if entries != [] {
      var e := entries[0];
      NormalizeSorts(le, e.value);
      SortEntriesSorts(le, entries[1..]);
      SortEntriesMeans(le, entries[1..]);
      FieldsKeys(entries[1..], e.key);
      FieldsKeys(SortEntries(le, entries[1..]), e.key);
      InsertSorts(le, Entry(e.key, Normalize(le, e.value)), SortEntries(le, entries[1..]));
    }
  }

  // ---------------------------------------------------------------- ties

  /** No object, at any depth, has two different keys that compare as equal. */
  predicate Untied(le: Order, v: Value) {
    match v
    case VArr(items) => forall i :: 0 <= i < |items| ==> Untied(le, items[i])
    case VObj(fields) =>
      && (forall k, l :: k in fields && l in fields && le(k, l) && le(l, k) ==> k == l)
      && (forall k :: k in fields ==> Untied(le, fields[k]))
    case _ => true
  }

  lemma {:induction false} NoTiesMeansUntied(le: Order, v: Value)
    requires NoTies(le)
    ensures Untied(le, v)
  {
    match v
    case VArr(items) => forall i | 0 <= i < |items| ensures Untied(le, items[i]) { NoTiesMeansUntied(le, items[i]); }
    case VObj(fields) => forall k | k in fields ensures Untied(le, fields[k]) { NoTiesMeansUntied(le, fields[k]); }
    case _ =>
  }

  /** A sorted value without ties is determined by its meaning. */
  lemma {:induction false} NormalUnique(le: Order, a: Json, b: Json)
    requires Preorder(le) && Normal(le, a) && Normal(le, b)
    requires Denote(a) == Denote(b) && Untied(le, Denote(a))
    ensures a == b
    decreases a, 1
  {
    match a
    case Arr(items) => NormalItemsUnique(le, items, b.items);
    case Obj(entries) => NormalEntriesUnique(le, entries, b.entries);
    case _ =>
  }

  lemma {:induction false} NormalItemsUnique(le: Order, a: seq<Json>, b: seq<Json>)
    requires Preorder(le) && NormalItems(le, a) && NormalItems(le, b)
    requires DenoteItems(a) == DenoteItems(b) && Untied(le, VArr(DenoteItems(a)))
    ensures a == b
    decreases a, 0
  {
    if a != [] {
      var items, rest := DenoteItems(a), DenoteItems(a[1..]);
      assert items[0] == Denote(a[0]) && DenoteItems(b)[0] == Denote(b[0]);
      assert items[1..] == rest && DenoteItems(b)[1..] == DenoteItems(b[1..]);
      forall i | 0 <= i < |rest| ensures Untied(le, rest[i]) { assert rest[i] == items[i + 1]; }
      NormalUnique(le, a[0], b[0]);
      NormalItemsUnique(le, a[1..], b[1..]);
      assert a == [a[0]] + a[1..] && b == [b[0]] + b[1..];
    }
  }

  lemma {:induction false} NormalEntriesUnique(le: Order, a: seq<Entry>, b: seq<Entry>)
    requires Preorder(le) && NormalEntries(le, a) && NormalEntries(le, b)
    requires Fields(a) == Fields(b) && Untied(le, VObj(Fields(a)))
    ensures a == b
    decreases a, 0
  {
    assert a != [] ==> Fields(a) != map[] by { if a != [] { assert a[0].key in Fields(a); } }
    assert b != [] ==> Fields(b) != map[] by { if b != [] { assert b[0].key in Fields(b); } }
    if a != [] {
      SmallestKey(le, a, b);
      SmallestKey(le, b, a);
      var k := a[0].key;
      assert k in Fields(a) && b[0].key in Fields(a);
      NormalUnique(le, a[0].value, b[0].value);
      TailFields(le, a);
      TailFields(le, b);
      NormalEntriesUnique(le, a[1..], b[1..]);
      assert a == [a[0]] + a[1..] && b == [b[0]] + b[1..];
    }
  }

  lemma SmallestKey(le: Order, a: seq<Entry>, b: seq<Entry>)
    requires a != [] && b != [] && NormalEntries(le, a) && Preorder(le)
    requires Fields(a) == Fields(b)
    ensures le(a[0].key, b[0].key)
  {
    assert b[0].key in Fields(a);
    FieldsKeys(a, b[0].key);
    assert a == [a[0]] + a[1..];
  }

  lemma TailFields(le: Order, a: seq<Entry>)
    requires a != [] && NormalEntries(le, a)
    ensures Fields(a[1..]) == Fields(a) - {a[0].key}
  {
    FieldsKeys(a[1..], a[0].key);
  }

  // ---------------------------------------------------------------- key-sorting serialisers

  /** The text of a value whose objects have their keys sorted, for a given comparator. */
  function Sorted(le: Order, j: Json): string {
    Print(Normalize(le, j))
  }

  lemma PrintInjective(a: Json, b: Json)
    requires WellFormed(a) && WellFormed(b) && Print(a) == Print(b)
    ensures a == b
  {
    assert Print(a) + "" == Print(b) + "";
    PrintDecodes(a, "", b, "");
  }

  /** Whatever the comparator, values that print the same mean the same. */
  lemma SameTextSameMeaning(le: Order, a: Json, b: Json)
    requires WellFormed(a) && WellFormed(b) && Sorted(le, a) == Sorted(le, b)
    ensures Denote(a) == Denote(b)
  {
    NormalizeMeans(le, a);
    NormalizeMeans(le, b);
    PrintInjective(Normalize(le, a), Normalize(le, b));
  }

  /** Without ties, values that mean the same print the same. */
  lemma SameMeaningSameText(le: Order, a: Json, b: Json)
    requires Preorder(le) && WellFormed(a) && WellFormed(b)
    requires Denote(a) == Denote(b) && Untied(le, Denote(a))
    ensures Sorted(le, a) == Sorted(le, b)
  {
    NormalizeMeans(le, a);
    NormalizeMeans(le, b);
    NormalizeSorts(le, a);
    NormalizeSorts(le, b);
    NormalUnique(le, Normalize(le, a), Normalize(le, b));
  }

  /**
   The key-sorting serialisers are canonical for an order without ties: two values print the
   same exactly when they differ at most in the entry order of their objects.
   */
  lemma CanonicalIff(le: Order, a: Json, b: Json)
    requires TotalOrder(le) && WellFormed(a) && WellFormed(b)
    ensures Sorted(le, a) == Sorted(le, b) <==> Denote(a) == Denote(b)
  {
    NoTiesMeansUntied(le, Denote(a));
    if Sorted(le, a) == Sorted(le, b) { SameTextSameMeaning(le, a, b); }
    if Denote(a) == Denote(b) { SameMeaningSameText(le, a, b); }
  }

  ghost predicate Canonical(le: Order) {
    forall a, b :: WellFormed(a) && WellFormed(b) ==> (Sorted(le, a) == Sorted(le, b) <==> Denote(a) == Denote(b))
  }

  /**
   Canonicity holds exactly when the key order has no ties.  `localeCompare` can return 0
   for different keys; such keys are printed in the order in which they were inserted.
   */
  lemma CanonicalExactlyWithoutTies(le: Order)
    requires Preorder(le)
    ensures Canonical(le) <==> NoTies(le)
  {
    if NoTies(le) {
      forall a, b | WellFormed(a) && WellFormed(b)
        ensures Sorted(le, a) == Sorted(le, b) <==> Denote(a) == Denote(b)
      {
        CanonicalIff(le, a, b);
      }
    }
    forall k, l | le(k, l) && le(l, k) && k != l
      ensures !Canonical(le)
    {
      TiedKeysKeepInsertionOrder(le, k, l, Null);
      var kl, lk := Obj([Entry(k, Null), Entry(l, Null)]), Obj([Entry(l, Null), Entry(k, Null)]);
      PairFields(k, l, Null);
      PairFields(l, k, Null);
      assert WellFormed(kl) && WellFormed(lk);
    }
  }

  lemma TiedKeysKeepInsertionOrder(le: Order, k: string, l: string, v: Json)
    requires k != l && le(k, l) && le(l, k)
    ensures Denote(Obj([Entry(k, v), Entry(l, v)])) == Denote(Obj([Entry(l, v), Entry(k, v)]))
    ensures Sorted(le, Obj([Entry(k, v), Entry(l, v)])) != Sorted(le, Obj([Entry(l, v), Entry(k, v)]))
  {
    PairFields(k, l, v);
    PairFields(l, k, v);
    SortTied(le, k, l, v);
    SortTied(le, l, k, v);
    DifferentFirstKeys(SortEntries(le, [Entry(k, v), Entry(l, v)]), SortEntries(le, [Entry(l, v), Entry(k, v)]));
  }

  lemma PairFields(k: string, l: string, v: Json)
    requires k != l
    ensures Fields([Entry(k, v), Entry(l, v)]) == map[k := Denote(v), l := Denote(v)]
    ensures WellFormed(v) ==> EntriesWellFormed([Entry(k, v), Entry(l, v)])
  {
    assert [Entry(l, v)][1..] == [];
    assert [Entry(k, v), Entry(l, v)][1..] == [Entry(l, v)];
    assert Fields([Entry(l, v)]) == map[l := Denote(v)];
  }

  lemma SortTied(le: Order, k: string, l: string, v: Json)
    requires le(k, l)
    ensures SortEntries(le, [Entry(k, v), Entry(l, v)])
         == [Entry(k, Normalize(le, v)), Entry(l, Normalize(le, v))]
  {
    var e := [Entry(k, v), Entry(l, v)];
    assert e[1..] == [Entry(l, v)] && e[1..][1..] == [];
    assert SortEntries(le, e[1..]) == [Entry(l, Normalize(le, v))];
  }

  lemma DifferentFirstKeys(a: seq<Entry>, b: seq<Entry>)
    requires a != [] && b != [] && a[0].key != b[0].key
    ensures Print(Obj(a)) != Print(Obj(b))
  {
    EntriesSplit(a, "");
    EntriesSplit(b, "");
    if Print(Obj(a)) == Print(Obj(b)) {
      Assoc("{", PrintEntries(a), "}");
      Assoc("{", PrintEntries(b), "}");
      Cancel("{", PrintEntries(a) + "}", PrintEntries(b) + "}");
      assert PrintEntries(a) + "}" + "" == PrintEntries(a) + "}" == PrintEntries(b) + "}" + "";
      QuoteDecodes(a[0].key, ":" + (Print(a[0].value) + Tail(|a|, PrintEntries(a[1..]), "}", "")),
                   b[0].key, ":" + (Print(b[0].value) + Tail(|b|, PrintEntries(b[1..]), "}", "")));
    }
  }

  // ---------------------------------------------------------------- Array.prototype.sort

  /** The default order of `Array.prototype.sort` on strings. */
  predicate CodeLe(a: string, b: string) {
    a == "" || (b != "" && (a[0] < b[0] || (a[0] == b[0] && CodeLe(a[1..], b[1..]))))
  }

  lemma {:induction false} CodeLeTotal(a: string, b: string)
    ensures CodeLe(a, b) || CodeLe(b, a)
    ensures CodeLe(a, b) && CodeLe(b, a) ==> a == b
  {
    if a != "" && b != "" {
      CodeLeTotal(a[1..], b[1..]);
      assert a == [a[0]] + a[1..] && b == [b[0]] + b[1..];
    }
  }

  lemma {:induction false} CodeLeTransitive(a: string, b: string, c: string)
    requires CodeLe(a, b) && CodeLe(b, c)
    ensures CodeLe(a, c)
  {
    if a != "" && a[0] == b[0] == c[0] {
      CodeLeTransitive(a[1..], b[1..], c[1..]);
    }
  }

  lemma CodeLeIsTotalOrder()
    ensures TotalOrder(CodeLe)
  {
    forall a, b ensures CodeLe(a, b) || CodeLe(b, a) { CodeLeTotal(a, b); }
    forall a, b | CodeLe(a, b) && CodeLe(b, a) ensures a == b { CodeLeTotal(a, b); }
    forall a, b, c | CodeLe(a, b) && CodeLe(b, c) ensures CodeLe(a, c) { CodeLeTransitive(a, b, c); }
  }

  function CanonicalJson(j: Json): string {
    Sorted(CodeLe, j)
  }

  /** `canonicalJson` ignores key order and nothing else. */
  lemma CanonicalJsonIff(a: Json, b: Json)
    requires WellFormed(a) && WellFormed(b)
    ensures CanonicalJson(a) == CanonicalJson(b) <==> Denote(a) == Denote(b)
  {
    CodeLeIsTotalOrder();
    CanonicalIff(CodeLe, a, b);
  }

  // ---------------------------------------------------------------- the canonical text, read

  /** a comes before b: it is a proper prefix, or has the smaller code at the first difference. */
  ghost predicate Precedes(a: string, b: string) {
    exists n :: FirstDifference(a, b, n) && n < |b| && (n == |a| || a[n] as int < b[n] as int)
  }

  /** The texts agree in their first n characters, and no further. */
  predicate FirstDifference(a: string, b: string, n: int) {
    0 <= n <= |a| && n <= |b| && a[..n] == b[..n] && (n < |a| && n < |b| ==> a[n] != b[n])
  }

  lemma {:induction false} CodeLePrecedes(a: string, b: string)
    requires CodeLe(a, b) && a != b
    ensures Precedes(a, b)
  {
    if a == "" || a[0] < b[0] {
      assert FirstDifference(a, b, 0);
    } else {
      assert a == [a[0]] + a[1..] && b == [b[0]] + b[1..];
      CodeLePrecedes(a[1..], b[1..]);
      var x, y := a[1..], b[1..];
      var n :| FirstDifference(x, y, n) && n < |y| && (n == |x| || x[n] as int < y[n] as int);
      assert a[..n + 1] == [a[0]] + x[..n] && b[..n + 1] == [b[0]] + y[..n];
      assert FirstDifference(a, b, n + 1);
    }
  }

  /** In every object, at every depth, each key comes before all later ones. */
  ghost predicate KeysAscend(j: Json)
    decreases j, 1
  {
    match j
    case Arr(items) => ItemsAscend(items)
    case Obj(entries) => EntriesAscend(entries)
    case _ => true
  }

  ghost predicate ItemsAscend(items: seq<Json>)
    decreases items, 0
  {
    items == [] || (KeysAscend(items[0]) && ItemsAscend(items[1..]))
  }

  ghost predicate EntriesAscend(entries: seq<Entry>)
    decreases entries, 0
  {
    entries == []
    || (KeysAscend(entries[0].value)
        && EntriesAscend(entries[1..])
        && forall e :: e in entries[1..] ==> Precedes(entries[0].key, e.key))
  }

  lemma {:induction false} NormalAscends(j: Json)
    requires Normal(CodeLe, j)
    ensures KeysAscend(j)
    decreases j, 1
  {
    match j
    case Arr(items) => NormalItemsAscend(items);
    case Obj(entries) => NormalEntriesAscend(entries);
    case _ =>
  }

  lemma {:induction false} NormalItemsAscend(items: seq<Json>)
    requires NormalItems(CodeLe, items)
    ensures ItemsAscend(items)
    decreases items, 0
  {
    if items != [] {
      NormalAscends(items[0]);
      NormalItemsAscend(items[1..]);
    }
  }

  lemma {:induction false} NormalEntriesAscend(entries: seq<Entry>)
    requires NormalEntries(CodeLe, entries)
    ensures EntriesAscend(entries)
    decreases entries, 0
  {
    if entries != [] {
      NormalAscends(entries[0].value);
      NormalEntriesAscend(entries[1..]);
      forall e | e in entries[1..] ensures Precedes(entries[0].key, e.key) { CodeLePrecedes(entries[0].key, e.key); }
    }
  }

  /** The canonical text reads back as a value that means the same, with its keys in ascending order. */
  lemma CanonicalReads(j: Json) returns (read: Json)
    requires WellFormed(j)
    ensures ReadValue(CanonicalJson(j)) == Got(read, "")
    ensures Denote(read) == Denote(j) && KeysAscend(read)
  {
    read := Normalize(CodeLe, j);
    CodeLeIsTotalOrder();
    NormalizeMeans(CodeLe, j);
    NormalizeSorts(CodeLe, j);
    NormalAscends(read);
    PrintReads(read, "");
    assert Print(read) + "" == Print(read);
  }
}
