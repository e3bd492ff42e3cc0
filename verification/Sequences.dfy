/** Selecting, counting and updating the rows of a table, as `where` clauses do. */
module Sequences {

  /** The elements that satisfy f, in order. */
  function Filter<T>(f: T -> bool, s: seq<T>): seq<T> {
    if s == [] then []
    else
      var init := Filter(f, s[..|s| - 1]);
      if f(s[|s| - 1]) then init + [s[|s| - 1]] else init
  }

  function Count<T>(f: T -> bool, s: seq<T>): nat {
    |Filter(f, s)|
  }

  /** Every element that satisfies f, replaced by its image under g. */
  function UpdateWhere<T>(f: T -> bool, g: T -> T, s: seq<T>): (r: seq<T>)
    ensures |r| == |s|
    ensures forall i :: 0 <= i < |r| ==> r[i] == if f(s[i]) then g(s[i]) else s[i]
  {
    seq(|s|, i requires 0 <= i < |s| => if f(s[i]) then g(s[i]) else s[i])
  }

  lemma {:induction false} FilterMembers<T>(f: T -> bool, s: seq<T>)
    ensures forall x :: x in Filter(f, s) <==> x in s && f(x)
  {
    if s != [] {
      FilterMembers(f, s[..|s| - 1]);
      assert s == s[..|s| - 1] + [s[|s| - 1]];
    }
  }

  lemma {:induction false} FilterConcat<T>(f: T -> bool, a: seq<T>, b: seq<T>)
    ensures Filter(f, a + b) == Filter(f, a) + Filter(f, b)
  {
    if b == [] {
      assert a + b == a;
    } else {
      assert (a + b)[..|a + b| - 1] == a + b[..|b| - 1];
      FilterConcat(f, a, b[..|b| - 1]);
    }
  }

  /** What a filter keeps before and after an element that it keeps. */
  lemma FilterAround<T>(f: T -> bool, s: seq<T>, i: nat)
    requires i < |s| && f(s[i])
    ensures Filter(f, s) == Filter(f, s[..i]) + [s[i]] + Filter(f, s[i + 1..])
  {
    var before, after, one := s[..i], s[i + 1..], [s[i]];
    assert one[..0] == [] && Filter(f, one) == one;
    assert s == before + one + after;
    FilterConcat(f, before + one, after);
    FilterConcat(f, before, one);
  }

  lemma {:induction false} FilterMember<T>(f: T -> bool, s: seq<T>, k: nat)
    requires k < |Filter(f, s)|
    ensures Filter(f, s)[k] in s && f(Filter(f, s)[k])
  {
    if k < |Filter(f, s[..|s| - 1])| { FilterMember(f, s[..|s| - 1], k); }
  }

  /** Where another element of the filtered sequence comes from. */
  lemma FilterOrigin<T>(f: T -> bool, s: seq<T>, i: nat, k: nat) returns (j: nat)
    requires i < |s| && f(s[i]) && k < |Filter(f, s)| && k != |Filter(f, s[..i])|
    ensures j < |s| && j != i && s[j] == Filter(f, s)[k] && f(s[j])
    ensures j < i <==> k < |Filter(f, s[..i])|
  {
    FilterAround(f, s, i);
    var before, after := s[..i], s[i + 1..];
    var pre, post, x := Filter(f, before), Filter(f, after), Filter(f, s)[k];
    if k < |pre| {
      FilterMember(f, before, k);
      j :| 0 <= j < i && before[j] == x;
    } else {
      FilterMember(f, after, k - |pre| - 1);
      var d: nat :| d < |after| && after[d] == x;
      j := i + 1 + d;
    }
  }

  lemma {:induction false} CountNone<T>(f: T -> bool, s: seq<T>)
    requires forall x :: x in s ==> !f(x)
    ensures Filter(f, s) == [] && Count(f, s) == 0
  {
    if s != [] { CountNone(f, s[..|s| - 1]); }
  }

  /** Every element goes to exactly one side. */
  lemma {:induction false} FilterSizes<T>(f: T -> bool, s: seq<T>)
    ensures |Filter(f, s)| + |Filter(x => !f(x), s)| == |s|
  {
    if s != [] { FilterSizes(f, s[..|s| - 1]); }
  }

  lemma CountAppend<T>(f: T -> bool, s: seq<T>, x: T)
    ensures Count(f, s + [x]) == Count(f, s) + if f(x) then 1 else 0
  {
    assert (s + [x])[..|s|] == s;
  }

  lemma {:induction false} CountUpdate<T>(f: T -> bool, s: seq<T>, i: nat, x: T)
    requires i < |s|
    ensures Count(f, s[i := x]) + (if f(s[i]) then 1 else 0) == Count(f, s) + if f(x) then 1 else 0
  {
    var n := |s| - 1;
    if i < n {
      CountUpdate(f, s[..n], i, x);
      assert s[i := x][..n] == s[..n][i := x];
    } else {
      assert s[i := x][..n] == s[..n];
    }
  }

  /** Counting with a weaker test, over as many elements, finds no fewer. */
  lemma {:induction false} CountPointwise<T>(f: T -> bool, s: seq<T>, g: T -> bool, t: seq<T>)
    requires |s| == |t| && forall i :: 0 <= i < |s| && f(s[i]) ==> g(t[i])
    ensures Count(f, s) <= Count(g, t)
  {
    if s != [] { CountPointwise(f, s[..|s| - 1], g, t[..|t| - 1]); }
  }

  lemma CountBound<T>(f: T -> bool, g: T -> bool, s: seq<T>)
    requires forall x :: x in s && f(x) ==> g(x)
    ensures Count(f, s) <= Count(g, s)
  {
    CountPointwise(f, s, g, s);
  }

  /** Dropping elements finds no more. */
  lemma {:induction false} CountFiltered<T>(f: T -> bool, keep: T -> bool, s: seq<T>)
    ensures Count(f, Filter(keep, s)) <= Count(f, s)
  {
    if s != [] {
      var init, last := s[..|s| - 1], s[|s| - 1];
      CountFiltered(f, keep, init);
      CountAppend(f, Filter(keep, init), last);
    }
  }

  predicate Distinct<T(==)>(s: seq<T>) {
    forall i, j :: 0 <= i < j < |s| ==> s[i] != s[j]
  }

  /** The elements of a set in some order. */
  lemma {:induction false} Enumerate<T>(members: set<T>) returns (order: seq<T>)
    ensures Distinct(order) && |order| == |members| && forall x :: x in order <==> x in members
  {
    if members == {} {
      order := [];
    } else {
      var x :| x in members;
      var rest := Enumerate(members - {x});
      order := rest + [x];
    }
  }
}
