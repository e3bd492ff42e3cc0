/** Capture policies: which ones match, how they are merged, and what the merge means path by path. */
module ArchivePolicy {
  import opened Strings
  import opened Sequences

  /** A policy document: objects are nodes, everything else (arrays included) is a leaf. */
  datatype Tree = Leaf(value: Scalar) | Node(children: map<string, Tree>)

  datatype Scalar = SNull | SBool(b: bool) | SNum(token: string) | SStr(s: string) | SArr(items: seq<Tree>)

  type Path = seq<string>

  // ---------------------------------------------------------------- deepMerge

  /** The fields that spreading gives for something that is not an object. */
  function Spread(v: Scalar): map<string, Tree> {
    match v
    case SStr(s) => SpreadItems(seq(|s|, i requires 0 <= i < |s| => Leaf(SStr([s[i]]))))
    case SArr(items) => SpreadItems(items)
    case _ => map[]
  }

  function SpreadItems(items: seq<Tree>): map<string, Tree> {
    if items == [] then map[]
    else
      var n := |items| - 1;
      SpreadItems(items[..n])[Decimal(n) := items[n]]
  }

  function Children(base: Option<Tree>): map<string, Tree> {
    match base
    case None => map[]
    case Some(Node(c)) => c
    case Some(Leaf(v)) => Spread(v)
  }

  /** What `deepMerge` stores under one key of `next`. */
  function Overlay(base: Option<Tree>, next: Tree): Tree
    decreases next
  {
    match next
    case Leaf(_) => next
    case Node(c) =>
      var b := Children(base);
      Node(map k | k in b.Keys + c.Keys :: if k in c then Overlay(At(b, k), c[k]) else b[k])
  }

  function At(m: map<string, Tree>, k: string): Option<Tree> {
    if k in m then Some(m[k]) else None
  }

  function DeepMerge(base: Tree, next: Tree): Tree
    requires base.Node? && next.Node?
  {
    Overlay(Some(base), next)
  }

  /** The value a tree sets at a path. */
  function Lookup(t: Tree, p: Path): Option<Scalar> {
    if p == [] then (if t.Leaf? then Some(t.value) else None)
    else if t.Node? && p[0] in t.children then Lookup(t.children[p[0]], p[1..])
    else None
  }

  // ---------------------------------------------------------------- when a merge is leafwise

  predicate NoLeaves(t: Tree) {
    t.Node? && forall k :: k in t.children ==> NoLeaves(t.children[k])
  }

  /**
   The shapes are compatible: no leaf of one lies where the other has a node, unless that
   node is overridden and has no leaves of its own.
   */
  predicate Agrees(base: Tree, next: Tree)
    decreases next
  {
    if next.Leaf? then base.Leaf? || NoLeaves(base)
    else base.Node? && forall k :: k in next.children && k in base.children ==>
        Agrees(base.children[k], next.children[k])
  }

  function Preferred(next: Option<Scalar>, base: Option<Scalar>): Option<Scalar> {
    if next.Some? then next else base
  }

  /** Each path has the value `next` sets there, and otherwise the value `base` sets. */
  ghost predicate Leafwise(base: Tree, next: Tree)
    requires base.Node? && next.Node?
  {
    forall p :: Lookup(DeepMerge(base, next), p) == Preferred(Lookup(next, p), Lookup(base, p))
  }

  lemma {:induction false} NoLeavesLookup(t: Tree, p: Path)
    requires NoLeaves(t)
    ensures Lookup(t, p) == None
  {
    if p != [] && p[0] in t.children { NoLeavesLookup(t.children[p[0]], p[1..]); }
  }

  lemma {:induction false} SomeLeaf(t: Tree) returns (p: Path)
    requires t.Node? && !NoLeaves(t)
    ensures p != [] && Lookup(t, p).Some?
  {
    var k :| k in t.children && !NoLeaves(t.children[k]);
    if t.children[k].Leaf? {
      p := [k];
    } else {
      var q := SomeLeaf(t.children[k]);
      p := [k] + q;
      assert p[1..] == q;
    }
  }

  lemma {:induction false} OverlayNothing(next: Tree, p: Path)
    ensures Lookup(Overlay(None, next), p) == Lookup(next, p)
    decreases next
  {
    if next.Node? && p != [] && p[0] in next.children {
      assert At(map[], p[0]) == None;
      OverlayNothing(next.children[p[0]], p[1..]);
    }
  }

  lemma {:induction false} OverlayLeafwise(base: Tree, next: Tree, p: Path)
    requires Agrees(base, next)
    ensures Lookup(Overlay(Some(base), next), p) == Preferred(Lookup(next, p), Lookup(base, p))
    decreases next
  {
    if next.Leaf? {
      if NoLeaves(base) { NoLeavesLookup(base, p); }
    } else if p != [] && p[0] in next.children {
      var k := p[0];
      if k in base.children {
        OverlayLeafwise(base.children[k], next.children[k], p[1..]);
      } else {
        OverlayNothing(next.children[k], p[1..]);
      }
    }
  }

  /** Where shapes clash, a concrete path loses its value. */
  lemma {:induction false} ClashLoses(base: Tree, next: Tree) returns (p: Path)
    requires base.Node? && next.Node? && !Agrees(base, next)
    ensures Lookup(DeepMerge(base, next), p) != Preferred(Lookup(next, p), Lookup(base, p))
    decreases next
  {
    var k :| k in next.children && k in base.children && !Agrees(base.children[k], next.children[k]);
    var b, n := base.children[k], next.children[k];
    assert DeepMerge(base, next).children[k] == Overlay(Some(b), n);
    if n.Leaf? {
      var q := SomeLeaf(b);
      p := [k] + q;
      assert p[1..] == q;
    } else if b.Leaf? {
      p := [k];
      assert p[1..] == [];
    } else {
      var q := ClashLoses(b, n);
      p := [k] + q;
      assert p[1..] == q;
    }
  }

  /** `deepMerge` is leafwise exactly for compatible shapes. */
  lemma LeafwiseIff(base: Tree, next: Tree)
    requires base.Node? && next.Node?
    ensures Leafwise(base, next) <==> Agrees(base, next)
  {
    if Agrees(base, next) {
      forall p ensures Lookup(DeepMerge(base, next), p) == Preferred(Lookup(next, p), Lookup(base, p)) {
        OverlayLeafwise(base, next, p);
      }
    } else {
      var p := ClashLoses(base, next);
    }
  }

  // ---------------------------------------------------------------- folding many policies

  lemma {:induction false} OverlayNoLeaves(base: Tree, next: Tree)
    requires NoLeaves(base) && NoLeaves(next)
    ensures NoLeaves(Overlay(Some(base), next))
    decreases next
  {
    forall k | k in next.children && k in base.children
      ensures NoLeaves(Overlay(Some(base.children[k]), next.children[k]))
    {
      OverlayNoLeaves(base.children[k], next.children[k]);
    }
    forall k | k in next.children ensures NoLeaves(Overlay(None, next.children[k])) {
      OverlayNoneNoLeaves(next.children[k]);
    }
  }

  lemma {:induction false} OverlayNoneNoLeaves(next: Tree)
    ensures NoLeaves(next) ==> NoLeaves(Overlay(None, next))
    decreases next
  {
    if NoLeaves(next) {
      forall k | k in next.children ensures NoLeaves(Overlay(None, next.children[k])) {
        OverlayNoneNoLeaves(next.children[k]);
      }
    }
  }

  lemma {:induction false} OverlayNoneAgrees(b: Tree, c: Tree)
    requires Agrees(b, c)
    ensures Agrees(Overlay(None, b), c)
    decreases c
  {
    if b.Node? {
      if c.Leaf? {
        OverlayNoneNoLeaves(b);
      } else {
        forall k | k in c.children && k in b.children
          ensures Agrees(Overlay(None, b.children[k]), c.children[k])
        {
          OverlayNoneAgrees(b.children[k], c.children[k]);
        }
      }
    }
  }

  /** Merging two trees that agree with a third gives one that does. */
  lemma {:induction false} OverlayAgrees(a: Tree, b: Tree, c: Tree)
    requires Agrees(a, b) && Agrees(a, c) && Agrees(b, c)
    ensures Agrees(Overlay(Some(a), b), c)
    decreases c
  {
    if b.Node? {
      if c.Leaf? {
        OverlayNoLeaves(a, b);
      } else {
        forall k | k in c.children && k in b.children
          ensures Agrees(Overlay(At(a.children, k), b.children[k]), c.children[k])
        {
          if k in a.children {
            OverlayAgrees(a.children[k], b.children[k], c.children[k]);
          } else {
            OverlayNoneAgrees(b.children[k], c.children[k]);
          }
        }
      }
    }
  }

  ghost predicate Compatible(trees: seq<Tree>) {
    && (forall t :: t in trees ==> t.Node?)
    && (forall i, j :: 0 <= i < j < |trees| ==> Agrees(trees[i], trees[j]))
  }

  /** The `reduce` over policy documents, the first being the default. */
  function Fold(trees: seq<Tree>): Tree
    requires trees != [] && forall t :: t in trees ==> t.Node?
    ensures Fold(trees).Node?
  {
    var n := |trees| - 1;
    if n == 0 then trees[0] else DeepMerge(Fold(trees[..n]), trees[n])
  }

  /** What the last tree to set p says. */
  function LastSetting(trees: seq<Tree>, p: Path): Option<Scalar> {
    if trees == [] then None
    else Preferred(Lookup(trees[|trees| - 1], p), LastSetting(trees[..|trees| - 1], p))
  }

  lemma {:induction false} FoldAgrees(trees: seq<Tree>, c: Tree)
    requires trees != [] && Compatible(trees)
    requires forall t :: t in trees ==> Agrees(t, c)
    ensures Agrees(Fold(trees), c)
  {
    var n := |trees| - 1;
    if n > 0 {
      FoldAgrees(trees[..n], trees[n]);
      FoldAgrees(trees[..n], c);
      OverlayAgrees(Fold(trees[..n]), trees[n], c);
    }
  }

  /** The fold of compatible documents gives each path the value set last. */
  lemma {:induction false} FoldLeafwise(trees: seq<Tree>, p: Path)
    requires trees != [] && Compatible(trees)
    ensures Lookup(Fold(trees), p) == LastSetting(trees, p)
  {
    var n := |trees| - 1;
    if n > 0 {
      FoldLeafwise(trees[..n], p);
      FoldAgrees(trees[..n], trees[n]);
      OverlayLeafwise(Fold(trees[..n]), trees[n], p);
    } else {
      assert LastSetting(trees[..0], p) == None;
    }
  }

  // ---------------------------------------------------------------- resolvePolicy

  datatype Scope = General | Entity | Account | Jid

  datatype Selector = Selector(
    entityType: Option<string>,
    accountId: Option<string>,
    instanceName: Option<string>,
    jid: Option<Option<string>>)  // a selector may have no JID, or a null one

  datatype Policy = Policy(scope: Scope, selector: Selector, document: Tree, effectiveAt: int)

  datatype Target = Target(accountId: string, instanceName: string, entityType: string, jid: Option<string>)

  function Rank(s: Scope): nat {
    match s
    case General => 0
    case Entity => 1
    case Account => 2
    case Jid => 3
  }

  predicate Matches(e: Policy, t: Target) {
    var s := e.selector;
    match e.scope
    case General => true
    case Entity => s.entityType == Some(t.entityType)
    case Account => s.accountId == Some(t.accountId) || s.instanceName == Some(t.instanceName)
    case Jid => s.jid == Some(t.jid) && (OrEmpty(s.instanceName) == "" || s.instanceName == Some(t.instanceName))
  }

  /** The stable `sort` by rank. */
  function SortByRank(ps: seq<Policy>): seq<Policy> {
    if ps == [] then [] else InsertByRank(ps[0], SortByRank(ps[1..]))
  }

  function InsertByRank(p: Policy, sorted: seq<Policy>): (r: seq<Policy>)
    ensures |r| == |sorted| + 1
  {
    if sorted == [] || Rank(p.scope) <= Rank(sorted[0].scope) then [p] + sorted
    else [sorted[0]] + InsertByRank(p, sorted[1..])
  }

  function Documents(ps: seq<Policy>): (r: seq<Tree>)
    ensures |r| == |ps|
    ensures forall i :: 0 <= i < |ps| ==> r[i] == ps[i].document
  {
    seq(|ps|, i requires 0 <= i < |ps| => ps[i].document)
  }

  lemma {:induction false} InsertMembers(p: Policy, sorted: seq<Policy>)
    ensures forall q :: q in InsertByRank(p, sorted) <==> q == p || q in sorted
  {
    if sorted != [] && Rank(p.scope) > Rank(sorted[0].scope) {
      InsertMembers(p, sorted[1..]);
      assert sorted == [sorted[0]] + sorted[1..];
    }
  }

  lemma {:induction false} SortMembers(ps: seq<Policy>)
    ensures |SortByRank(ps)| == |ps|
    ensures forall q :: q in SortByRank(ps) <==> q in ps
  {
    if ps != [] {
      SortMembers(ps[1..]);
      InsertMembers(ps[0], SortByRank(ps[1..]));
      assert ps == [ps[0]] + ps[1..];
    }
  }

  /** The documents `reduce` goes through: the default, then the matches by rank. */
  function Candidates(ps: seq<Policy>, t: Target, default: Tree): seq<Tree> {
    [default] + Documents(SortByRank(Filter(e => Matches(e, t), ps)))
  }

  lemma CandidatesNodes(ps: seq<Policy>, t: Target, default: Tree)
    requires default.Node? && forall e :: e in ps ==> e.document.Node?
    ensures forall d :: d in Candidates(ps, t, default) ==> d.Node?
  {
    var f := (e: Policy) => Matches(e, t);
    FilterMembers(f, ps);
    var sorted := SortByRank(Filter(f, ps));
    SortMembers(Filter(f, ps));
    forall i | 0 <= i < |sorted| ensures Documents(sorted)[i].Node? {
      assert sorted[i] in sorted;
    }
  }

  function Resolve(ps: seq<Policy>, t: Target, default: Tree): Tree
    requires default.Node? && forall e :: e in ps ==> e.document.Node?
  {
    CandidatesNodes(ps, t, default);
    Fold(Candidates(ps, t, default))
  }

  // ---------------------------------------------------------------- the winning policy

  predicate Sets(e: Policy, p: Path) {
    Lookup(e.document, p).Some?
  }

  /** Among policies in order of `effectiveAt`: the highest rank that sets p, the last of those. */
  function Winner(ps: seq<Policy>, p: Path): Option<Policy> {
    if ps == [] then None
    else
      var rest := Winner(ps[1..], p);
      if Sets(ps[0], p) && (rest.None? || Rank(rest.value.scope) < Rank(ps[0].scope)) then Some(ps[0]) else rest
  }

  function Setting(e: Option<Policy>, p: Path): Option<Scalar> {
    if e.Some? then Lookup(e.value.document, p) else None
  }

  lemma {:induction false} LastSettingConcat(a: seq<Tree>, b: seq<Tree>, p: Path)
    ensures LastSetting(a + b, p) == Preferred(LastSetting(b, p), LastSetting(a, p))
  {
    if b == [] {
      assert a + b == a;
    } else {
      assert (a + b)[..|a + b| - 1] == a + b[..|b| - 1];
      LastSettingConcat(a, b[..|b| - 1], p);
    }
  }

  lemma LastSettingCons(e: Policy, ps: seq<Policy>, p: Path)
    ensures LastSetting(Documents([e] + ps), p) == Preferred(LastSetting(Documents(ps), p), Lookup(e.document, p))
  {
    assert Documents([e] + ps) == [e.document] + Documents(ps);
    LastSettingConcat([e.document], Documents(ps), p);
    assert LastSetting([e.document][..0], p) == None;
  }

  predicate SortedByRank(ps: seq<Policy>) {
    forall i, j :: 0 <= i < j < |ps| ==> Rank(ps[i].scope) <= Rank(ps[j].scope)
  }

  predicate Outranks(e: Policy, ps: seq<Policy>, p: Path) {
    Sets(e, p) && forall q :: q in ps && Sets(q, p) ==> Rank(q.scope) < Rank(e.scope)
  }

  lemma InsertSorted(e: Policy, sorted: seq<Policy>)
    requires SortedByRank(sorted)
    ensures SortedByRank(InsertByRank(e, sorted))
  {
    if sorted != [] && Rank(e.scope) > Rank(sorted[0].scope) {
      InsertSorted(e, sorted[1..]);
      InsertMembers(e, sorted[1..]);
      var r := InsertByRank(e, sorted[1..]);
      forall i | 0 <= i < |r| ensures Rank(sorted[0].scope) <= Rank(r[i].scope) {
        assert r[i] in r;
      }
    }
  }

  /** In a list sorted by rank, inserting `e` changes the last setting only past lower ranks. */
  lemma {:induction false} InsertLast(e: Policy, sorted: seq<Policy>, p: Path)
    requires SortedByRank(sorted)
    ensures LastSetting(Documents(InsertByRank(e, sorted)), p)
         == if Outranks(e, sorted, p) then Lookup(e.document, p) else LastSetting(Documents(sorted), p)
  {
    if sorted == [] || Rank(e.scope) <= Rank(sorted[0].scope) {
      LastSettingCons(e, sorted, p);
      SettingWitness(sorted, p);
    } else {
      var rest := sorted[1..];
      assert sorted == [sorted[0]] + rest;
      InsertLast(e, rest, p);
      LastSettingCons(sorted[0], InsertByRank(e, rest), p);
      LastSettingCons(sorted[0], rest, p);
      SettingWitness(rest, p);
    }
  }

  lemma {:induction false} SettingWitness(ps: seq<Policy>, p: Path)
    ensures LastSetting(Documents(ps), p).Some? <==> exists q :: q in ps && Sets(q, p)
  {
    if ps != [] {
      SettingWitness(ps[1..], p);
      assert ps == [ps[0]] + ps[1..];
      LastSettingCons(ps[0], ps[1..], p);
      assert Sets(ps[0], p) <==> Lookup(ps[0].document, p).Some?;
    } else {
      assert Documents(ps) == [];
    }
  }

  lemma {:induction false} WinnerIsHighest(ps: seq<Policy>, p: Path)
    ensures Winner(ps, p).Some? ==> Winner(ps, p).value in ps && Sets(Winner(ps, p).value, p)
    ensures forall q :: q in ps && Sets(q, p) ==>
        Winner(ps, p).Some? && Rank(q.scope) <= Rank(Winner(ps, p).value.scope)
  {
    if ps != [] {
      WinnerIsHighest(ps[1..], p);
      assert ps == [ps[0]] + ps[1..];
    }
  }

  lemma {:induction false} SortedLastIsWinner(ps: seq<Policy>, p: Path)
    ensures SortedByRank(SortByRank(ps))
    ensures LastSetting(Documents(SortByRank(ps)), p) == Setting(Winner(ps, p), p)
  {
    if ps != [] {
      SortedLastIsWinner(ps[1..], p);
      InsertSorted(ps[0], SortByRank(ps[1..]));
      InsertLast(ps[0], SortByRank(ps[1..]), p);
      SortMembers(ps[1..]);
      WinnerIsHighest(ps[1..], p);
    }
  }

  /** Policy resolution, path by path: the winner decides, and failing that the default. */
  lemma ResolveLeafwise(ps: seq<Policy>, t: Target, default: Tree, p: Path)
    requires default.Node? && forall e :: e in ps ==> e.document.Node?
    requires Compatible(Candidates(ps, t, default))
    ensures Lookup(Resolve(ps, t, default), p)
         == Preferred(Setting(Winner(Filter(e => Matches(e, t), ps), p), p), Lookup(default, p))
  {
    var matches := Filter(e => Matches(e, t), ps);
    FoldLeafwise(Candidates(ps, t, default), p);
    LastSettingConcat([default], Documents(SortByRank(matches)), p);
    SortedLastIsWinner(matches, p);
    assert LastSetting([default][..0], p) == None;
  }

  predicate ByEffectiveAt(ps: seq<Policy>) {
    forall i, j :: 0 <= i < j < |ps| ==> ps[i].effectiveAt <= ps[j].effectiveAt
  }

  lemma {:induction false} LatestOfRankWins(ps: seq<Policy>, p: Path, w: Policy)
    requires ByEffectiveAt(ps) && w in ps && Sets(w, p)
    requires forall q :: q in ps && Sets(q, p) && q != w ==>
               Rank(q.scope) < Rank(w.scope) || (q.scope == w.scope && q.effectiveAt < w.effectiveAt)
    ensures Winner(ps, p) == Some(w)
  {
    var rest := ps[1..];
    assert ps == [ps[0]] + rest;
    WinnerIsHighest(rest, p);
    if w in rest {
      LatestOfRankWins(rest, p, w);
    } else {
      forall q | q in rest && Sets(q, p) ensures Rank(q.scope) < Rank(w.scope) {
        var j :| 0 <= j < |rest| && rest[j] == q;
        assert ps[j + 1] == q && q != w;
      }
    }
  }

  lemma {:induction false} FilterByEffectiveAt(f: Policy -> bool, ps: seq<Policy>)
    requires ByEffectiveAt(ps)
    ensures ByEffectiveAt(Filter(f, ps))
  {
    if ps != [] {
      var init := ps[..|ps| - 1];
      FilterByEffectiveAt(f, init);
      FilterMembers(f, init);
      forall i | 0 <= i < |Filter(f, init)|
        ensures Filter(f, init)[i].effectiveAt <= ps[|ps| - 1].effectiveAt
      {
        assert Filter(f, init)[i] in init;
      }
    }
  }

  /**
   The documented inheritance: of the matching policies that set a path, the one with the
   most specific scope wins, and within a scope the one that took effect last.
   */
  lemma MostSpecificLatestWins(ps: seq<Policy>, t: Target, default: Tree, p: Path, w: Policy)
    requires default.Node? && forall e :: e in ps ==> e.document.Node?
    requires Compatible(Candidates(ps, t, default)) && ByEffectiveAt(ps)
    requires w in ps && Matches(w, t) && Sets(w, p)
    requires forall q :: q in ps && Matches(q, t) && Sets(q, p) && q != w ==>
               Rank(q.scope) < Rank(w.scope) || (q.scope == w.scope && q.effectiveAt < w.effectiveAt)
    ensures Lookup(Resolve(ps, t, default), p) == Lookup(w.document, p)
  {
    var f := (e: Policy) => Matches(e, t);
    FilterMembers(f, ps);
    FilterByEffectiveAt(f, ps);
    LatestOfRankWins(Filter(f, ps), p, w);
    ResolveLeafwise(ps, t, default, p);
  }

  // ---------------------------------------------------------------- which policy decides

  /** The order of the scopes, spelled out. */
  predicate Narrower(a: Scope, b: Scope) {
    || (a.Jid? && !b.Jid?)
    || (a.Account? && (b.Entity? || b.General?))
    || (a.Entity? && b.General?)
  }

  /** A policy is about a target if it is general, or if its selector has what its scope asks for. */
  predicate Concerns(e: Policy, t: Target) {
    var s := e.selector;
    && (e.scope.Entity? ==> s.entityType == Some(t.entityType))
    && (e.scope.Account? ==> s.accountId == Some(t.accountId) || s.instanceName == Some(t.instanceName))
    && (e.scope.Jid? ==> s.jid == Some(t.jid)
                         && (s.instanceName.Some? && s.instanceName.value != "" ==>
                               s.instanceName.value == t.instanceName))
  }

  ghost predicate Settles(ps: seq<Policy>, t: Target, p: Path, j: int) {
    0 <= j < |ps| && Concerns(ps[j], t) && Lookup(ps[j].document, p).Some?
  }

  /** Policy i sets the path, and every other that does is of a wider scope, or took effect before it. */
  ghost predicate Decides(ps: seq<Policy>, t: Target, p: Path, i: int) {
    && Settles(ps, t, p, i)
    && forall j :: Settles(ps, t, p, j) && j != i ==>
         Narrower(ps[i].scope, ps[j].scope) || (ps[i].scope == ps[j].scope && j < i)
  }

  /** The value in force at a path: that of the deciding policy, and without one that of the default. */
  ghost predicate InForce(ps: seq<Policy>, t: Target, default: Tree, p: Path, v: Option<Scalar>) {
    || (exists i :: Decides(ps, t, p, i) && v == Lookup(ps[i].document, p))
    || ((forall j :: !Settles(ps, t, p, j)) && v == Lookup(default, p))
  }

  lemma {:induction false} WinnerAt(ps: seq<Policy>, p: Path, i: nat)
    requires i < |ps| && Sets(ps[i], p)
    requires forall j :: 0 <= j < |ps| && j != i && Sets(ps[j], p) ==>
               Rank(ps[j].scope) < Rank(ps[i].scope) || (Rank(ps[j].scope) == Rank(ps[i].scope) && j < i)
    ensures Winner(ps, p) == Some(ps[i])
  {
    var rest := ps[1..];
    if i == 0 {
      WinnerIsHighest(rest, p);
      forall q | q in rest && Sets(q, p) ensures Rank(q.scope) < Rank(ps[0].scope) {
        var j :| 0 <= j < |rest| && rest[j] == q;
        assert ps[j + 1] == q;
      }
    } else {
      forall j | 0 <= j < |rest| && j != i - 1 && Sets(rest[j], p)
        ensures Rank(rest[j].scope) < Rank(rest[i - 1].scope)
                || (Rank(rest[j].scope) == Rank(rest[i - 1].scope) && j < i - 1)
      {
        assert rest[j] == ps[j + 1];
      }
      WinnerAt(rest, p, i - 1);
    }
  }

  lemma ScopesAgree(a: Policy, b: Policy, t: Target)
    ensures Matches(a, t) <==> Concerns(a, t)
    ensures Narrower(a.scope, b.scope) <==> Rank(a.scope) > Rank(b.scope)
    ensures a.scope == b.scope <==> Rank(a.scope) == Rank(b.scope)
  {
  }

  lemma LosesTo(ps: seq<Policy>, t: Target, p: Path, i: nat, j: nat)
    requires Decides(ps, t, p, i) && j < |ps| && j != i && Matches(ps[j], t) && Sets(ps[j], p)
    ensures Rank(ps[j].scope) < Rank(ps[i].scope) || (Rank(ps[j].scope) == Rank(ps[i].scope) && j < i)
  {
    ScopesAgree(ps[j], ps[i], t);
    ScopesAgree(ps[i], ps[j], t);
    assert Settles(ps, t, p, j);
  }

  /** Among the matching policies, in their order, the deciding one is the winner. */
  lemma DeciderIsWinner(ps: seq<Policy>, t: Target, p: Path, i: nat)
    requires Decides(ps, t, p, i)
    ensures Winner(Filter(e => Matches(e, t), ps), p) == Some(ps[i])
  {
    var f := (e: Policy) => Matches(e, t);
    var m, n := Filter(f, ps), |Filter(f, ps[..i])|;
    ScopesAgree(ps[i], ps[i], t);
    FilterAround(f, ps, i);
    forall k | 0 <= k < |m| && k != n && Sets(m[k], p)
      ensures Rank(m[k].scope) < Rank(ps[i].scope) || (Rank(m[k].scope) == Rank(ps[i].scope) && k < n)
    {
      var j := FilterOrigin(f, ps, i, k);
      LosesTo(ps, t, p, i, j);
    }
    WinnerAt(m, p, n);
  }

  /** Resolution puts in force what `InForce` says: the inheritance, in terms of the fields of policies. */
  lemma ResolvesToInForce(ps: seq<Policy>, t: Target, default: Tree, p: Path, v: Option<Scalar>)
    requires default.Node? && forall e :: e in ps ==> e.document.Node?
    requires Compatible(Candidates(ps, t, default)) && InForce(ps, t, default, p, v)
    ensures Lookup(Resolve(ps, t, default), p) == v
  {
    var f := (e: Policy) => Matches(e, t);
    ResolveLeafwise(ps, t, default, p);
    if i: nat :| Decides(ps, t, p, i) && v == Lookup(ps[i].document, p) {
      DeciderIsWinner(ps, t, p, i);
    } else {
      FilterMembers(f, ps);
      WinnerIsHighest(Filter(f, ps), p);
      if Winner(Filter(f, ps), p).Some? {
        var w := Winner(Filter(f, ps), p).value;
        var j :| 0 <= j < |ps| && ps[j] == w;
        ScopesAgree(w, w, t);
        assert Settles(ps, t, p, j);
      }
    }
  }

  /** There is always exactly one value in force. */
  lemma SomethingIsInForce(ps: seq<Policy>, t: Target, default: Tree, p: Path) returns (v: Option<Scalar>)
    ensures InForce(ps, t, default, p, v)
  {
    var d := DeciderUpTo(ps, t, p, |ps|);
    if d.Some? {
      v := Lookup(ps[d.value].document, p);
      assert Decides(ps, t, p, d.value);
    } else {
      v := Lookup(default, p);
    }
  }

  lemma {:induction false} DeciderUpTo(ps: seq<Policy>, t: Target, p: Path, n: nat) returns (d: Option<nat>)
    requires n <= |ps|
    ensures d.None? ==> forall j :: Settles(ps, t, p, j) ==> j >= n
    ensures d.Some? ==>
              && d.value < n && Settles(ps, t, p, d.value)
              && forall j :: Settles(ps, t, p, j) && j < n && j != d.value ==>
                   Narrower(ps[d.value].scope, ps[j].scope) || (ps[d.value].scope == ps[j].scope && j < d.value)
  {
    if n == 0 {
      d := None;
    } else {
      d := DeciderUpTo(ps, t, p, n - 1);
      if Settles(ps, t, p, n - 1) && (d.None? || !Narrower(ps[d.value].scope, ps[n - 1].scope)) { d := Some(n - 1); }
    }
  }

  // ---------------------------------------------------------------- the capture decision

  /** Whether an event's content is kept, by the resolved policy. */
  predicate Retains(policy: Tree, category: string, direction: string) {
    && Lookup(policy, ["capture", category]) != Some(SBool(false))
    && Lookup(policy, ["capture", "events"]) != Some(SBool(false))
    && match Lookup(policy, ["directions"])
       case Some(SArr(items)) => items == [] || Leaf(SStr(direction)) in items
       case Some(SStr(text)) => text == "" || Includes(text, direction)
       case _ => true
  }

  /** So the most specific, latest policy that excludes a category decides: nothing of it is kept. */
  lemma MostSpecificExclusionHolds(ps: seq<Policy>, t: Target, default: Tree, w: Policy, category: string,
                                   direction: string)
    requires default.Node? && forall e :: e in ps ==> e.document.Node?
    requires Compatible(Candidates(ps, t, default)) && ByEffectiveAt(ps)
    requires w in ps && Matches(w, t) && Lookup(w.document, ["capture", category]) == Some(SBool(false))
    requires forall q :: q in ps && Matches(q, t) && Sets(q, ["capture", category]) && q != w ==>
               Rank(q.scope) < Rank(w.scope) || (q.scope == w.scope && q.effectiveAt < w.effectiveAt)
    ensures !Retains(Resolve(ps, t, default), category, direction)
  {
    MostSpecificLatestWins(ps, t, default, ["capture", category], w);
  }
}
