/**
 The generator of natural typing mistakes: it changes exactly as many letters as it drew, each
 to a neighbour on the keyboard, and never touches protected text.
 */
module Mistakes {
  import opened Numbers
  import opened Sequences
  import opened Strings

  const KEYBOARD_ROWS := [
    "1234567890", "qwertyuiop", "asdfghjkl", "zxcvbnm",
    "ёйцукенгшщзхъ", "фывапролджэ", "ячсмитьбю",
    "קראטוןםפ", "שדגכעיחלךף", "זסבהנמצתץ",
    "ضصثقفغعهخحج", "شسيبلاتنمكط", "ئءؤرلاىةوزظ"]

  // ---------------------------------------------------------------- the keyboard

  predicate NeighborAt(row: string, j: int, a: char, b: char) {
    0 <= j < |row| && row[j] == a && ((0 < j && row[j - 1] == b) || (j + 1 < |row| && row[j + 1] == b))
  }

  predicate NeighborInRow(row: string, a: char, b: char) {
    exists j :: 0 <= j < |row| && NeighborAt(row, j, a, b)
  }

  /** b stands next to a in some row. */
  predicate IsNeighbor(rows: seq<string>, a: char, b: char) {
    exists i :: 0 <= i < |rows| && NeighborInRow(rows[i], a, b)
  }

  predicate OnKeyboard(rows: seq<string>, a: char) {
    exists i :: 0 <= i < |rows| && a in rows[i]
  }

  lemma NeighborsAreMutual(rows: seq<string>, a: char, b: char)
    requires IsNeighbor(rows, a, b)
    ensures IsNeighbor(rows, b, a) && OnKeyboard(rows, b)
  {
    var i :| 0 <= i < |rows| && NeighborInRow(rows[i], a, b);
    var j :| 0 <= j < |rows[i]| && NeighborAt(rows[i], j, a, b);
    var n := if 0 < j && rows[i][j - 1] == b then j - 1 else j + 1;
    assert NeighborAt(rows[i], n, b, a);
    assert NeighborInRow(rows[i], b, a);
  }

  predicate NoDoubles(row: string) {
    forall j :: 0 < j < |row| ==> row[j - 1] != row[j]
  }

  lemma NotItsOwnNeighbor(rows: seq<string>, a: char)
    requires forall i :: 0 <= i < |rows| ==> NoDoubles(rows[i])
    ensures !IsNeighbor(rows, a, a)
  {
    forall i | 0 <= i < |rows| ensures !NeighborInRow(rows[i], a, a) {
      assert NoDoubles(rows[i]);
    }
  }

  lemma KeyboardHasNoDoubles()
    ensures forall i :: 0 <= i < |KEYBOARD_ROWS| ==> NoDoubles(KEYBOARD_ROWS[i])
  {
  }

  /** The insertion order of a Set filled with s and then t. */
  function Unite(s: seq<char>, t: seq<char>): (r: seq<char>)
    requires Distinct(s)
    ensures Distinct(r) && forall x :: x in r <==> x in s || x in t
    decreases |t|
  {
    if t == [] then s else Unite(if t[0] in s then s else s + [t[0]], t[1..])
  }

  type Adjacency = map<char, seq<char>>

  function Neighbors(adjacent: Adjacency, a: char): seq<char> {
    if a in adjacent then adjacent[a] else []
  }

  ghost predicate AllDistinct(adjacent: Adjacency) {
    forall a :: a in adjacent ==> Distinct(adjacent[a])
  }

  /** b stands next to one of the first n occurrences of a in the row. */
  predicate NeighborUpTo(row: string, n: nat, a: char, b: char) {
    exists j :: 0 <= j < n && NeighborAt(row, j, a, b)
  }

  lemma UpToStep(row: string, n: nat, a: char, b: char)
    requires n < |row|
    ensures NeighborUpTo(row, n + 1, a, b) <==> NeighborUpTo(row, n, a, b) || NeighborAt(row, n, a, b)
  {
  }

  /** The table holds exactly the neighbours. */
  ghost predicate TableFits(rows: seq<string>, adjacent: Adjacency) {
    forall a, b :: b in Neighbors(adjacent, a) <==> IsNeighbor(rows, a, b)
  }

  method AddRow(before: Adjacency, row: string) returns (adjacent: Adjacency)
    requires AllDistinct(before)
    ensures AllDistinct(adjacent)
    ensures forall a, b :: b in Neighbors(adjacent, a) <==> b in Neighbors(before, a) || NeighborInRow(row, a, b)
  {
    adjacent := before;
    for index := 0 to |row|
      invariant AllDistinct(adjacent)
      invariant forall a, b ::
                  b in Neighbors(adjacent, a) <==> b in Neighbors(before, a) || NeighborUpTo(row, index, a, b)
    {
      var letter := row[index];
      var neighbors := (if 0 < index then [row[index - 1]] else [])
                     + (if index + 1 < |row| then [row[index + 1]] else []);
      ghost var was := adjacent;
      adjacent := adjacent[letter := Unite(Neighbors(adjacent, letter), neighbors)];
      forall a, b
        ensures b in Neighbors(adjacent, a) <==> b in Neighbors(before, a) || NeighborUpTo(row, index + 1, a, b)
      {
        UpToStep(row, index, a, b);
        assert b in Neighbors(adjacent, a) <==> b in Neighbors(was, a) || NeighborAt(row, index, a, b);
      }
    }
  }

  /** The table holds exactly the neighbours, each once. */
  method BuildAdjacency(rows: seq<string>) returns (adjacent: Adjacency)
    ensures AllDistinct(adjacent) && TableFits(rows, adjacent)
  {
    adjacent := map[];
    for i := 0 to |rows|
      invariant AllDistinct(adjacent)
      invariant forall a, b :: b in Neighbors(adjacent, a) <==> exists k :: 0 <= k < i && NeighborInRow(rows[k], a, b)
    {
      adjacent := AddRow(adjacent, rows[i]);
    }
  }

  // ---------------------------------------------------------------- text and protected parts

  /** Characters beyond the basic plane count twice in a JavaScript string. */
  function Width(c: char): nat {
    if c >= '\U{10000}' then 2 else 1
  }

  /** Where character k begins. */
  function Offset(text: string, k: nat): nat
    requires k <= |text|
  {
    if k == 0 then 0 else Offset(text, k - 1) + Width(text[k - 1])
  }

  lemma {:induction false} OffsetsIncrease(text: string, j: nat, k: nat)
    requires j < k <= |text|
    ensures Offset(text, j) < Offset(text, k)
  {
    if j < k - 1 { OffsetsIncrease(text, j, k - 1); }
  }

  /** A match of the protected pattern, in JavaScript offsets. */
  datatype Span = Span(start: nat, length: nat)

  predicate Covered(spans: seq<Span>, index: nat) {
    exists k :: 0 <= k < |spans| && spans[k].start <= index < spans[k].start + spans[k].length
  }

  method ProtectedIndexes(spans: seq<Span>) returns (protectedSet: set<nat>)
    ensures forall i: nat :: i in protectedSet <==> Covered(spans, i)
  {
    protectedSet := {};
    for k := 0 to |spans|
      invariant forall i: nat :: i in protectedSet <==> Covered(spans[..k], i)
    {
      var span := spans[k];
      var index := span.start;
      while index < span.start + span.length
        invariant span.start <= index <= span.start + span.length
        invariant forall i: nat :: i in protectedSet <==> Covered(spans[..k], i) || span.start <= i < index
      {
        protectedSet := protectedSet + {index};
        index := index + 1;
      }
      CoveredStep(spans, k);
    }
    assert spans[..|spans|] == spans;
  }

  lemma CoveredStep(spans: seq<Span>, k: nat)
    requires k < |spans|
    ensures forall i: nat :: Covered(spans[..k + 1], i) <==>
              Covered(spans[..k], i) || spans[k].start <= i < spans[k].start + spans[k].length
  {
    forall i: nat
      ensures Covered(spans[..k + 1], i)
          <==> Covered(spans[..k], i) || spans[k].start <= i < spans[k].start + spans[k].length
    {
      assert spans[..k + 1] == spans[..k] + [spans[k]];
      if spans[k].start <= i < spans[k].start + spans[k].length { assert spans[..k + 1][k] == spans[k]; }
      if Covered(spans[..k], i) {
        var m :| 0 <= m < k && spans[..k][m].start <= i < spans[..k][m].start + spans[..k][m].length;
        assert spans[..k + 1][m] == spans[..k][m];
      }
    }
  }

  // ---------------------------------------------------------------- what may change, and into what

  /** The locale's case mappings. */
  datatype Cases = Cases(lower: char -> string, upper: char -> string)

  /** Keyboard characters are lower case, and their upper case leads back to them. */
  ghost predicate CasesFit(rows: seq<string>, cases: Cases) {
    forall n :: OnKeyboard(rows, n) ==>
      cases.lower(n) == [n] && |cases.upper(n)| == 1 && cases.lower(cases.upper(n)[0]) == [n]
  }

  predicate IsUpper(cases: Cases, c: char) {
    [c] != cases.lower(c)
  }

  /** r is a keyboard neighbour of c, in the case of c. */
  ghost predicate Mistypes(rows: seq<string>, cases: Cases, c: char, r: char) {
    && |cases.lower(c)| == 1
    && exists n :: IsNeighbor(rows, cases.lower(c)[0], n) && [r] == if IsUpper(cases, c) then cases.upper(n) else [n]
  }

  /** A mistake is visible. */
  lemma MistakesDiffer(rows: seq<string>, cases: Cases, c: char, r: char)
    requires CasesFit(rows, cases) && forall i :: 0 <= i < |rows| ==> NoDoubles(rows[i])
    requires Mistypes(rows, cases, c, r)
    ensures r != c && cases.lower(r) != cases.lower(c)
  {
    var a := cases.lower(c)[0];
    var n :| IsNeighbor(rows, a, n) && [r] == if IsUpper(cases, c) then cases.upper(n) else [n];
    NeighborsAreMutual(rows, a, n);
    NotItsOwnNeighbor(rows, a);
    assert cases.lower(r) == [n];
  }

  /** Text may change where a keyboard letter stands that no protected part covers. */
  ghost predicate IsEligible(rows: seq<string>, cases: Cases, text: string, spans: seq<Span>, k: int) {
    && 0 <= k < |text| && |cases.lower(text[k])| == 1
    && (exists n :: IsNeighbor(rows, cases.lower(text[k])[0], n))
    && !Covered(spans, Offset(text, k))
  }

  ghost function EligibleSet(rows: seq<string>, cases: Cases, text: string, spans: seq<Span>): set<int> {
    set k | 0 <= k < |text| && IsEligible(rows, cases, text, spans, k)
  }

  ghost function Changed(text: string, result: string): set<int>
    requires |text| == |result|
  {
    set k | 0 <= k < |text| && text[k] != result[k]
  }

  datatype Settings = Settings(enabled: bool, probability: real, minLetters: int, maxLetters: int)

  function Minimum(s: Settings, eligible: nat): int {
    Max(0, Min(s.minLetters, eligible))
  }

  function Maximum(s: Settings, eligible: nat): int {
    Max(Minimum(s, eligible), Min(s.maxLetters, eligible))
  }

  ghost predicate InUnit(random: nat -> real) {
    forall i :: 0.0 <= random(i) < 1.0
  }

  /** A draw from [0,1), scaled to a place below n. */
  function Draw(r: real, n: nat): int {
    (r * n as real).Floor
  }

  lemma DrawBelow(r: real, n: nat)
    requires 0.0 <= r < 1.0 && n > 0
    ensures 0 <= Draw(r, n) < n
  {
    assert 0.0 <= r * n as real < n as real;
  }

  ghost predicate InRange(draw: (nat, nat) -> nat) {
    forall i, n :: n > 0 ==> draw(i, n) < n
  }

  /** Draw number i, scaled to n. */
  function Draws(random: nat -> real): (draw: (nat, nat) -> nat)
    requires InUnit(random)
    ensures InRange(draw)
    ensures forall i, n :: n > 0 ==> draw(i, n) == Draw(random(i), n)
  {
    DrawsInRange(random);
    (i: nat, n: nat) => if 0 <= Draw(random(i), n) then Draw(random(i), n) else 0
  }

  lemma DrawsInRange(random: nat -> real)
    requires InUnit(random)
    ensures forall i: nat, n: nat :: n > 0 ==> 0 <= Draw(random(i), n) < n
  {
    forall i: nat, n: nat | n > 0 ensures 0 <= Draw(random(i), n) < n { DrawBelow(random(i), n); }
  }

  function LetterCount(s: Settings, eligible: nat, r: real): int {
    Minimum(s, eligible) + Draw(r, Maximum(s, eligible) - Minimum(s, eligible) + 1)
  }

  /** The count lies within the configured bounds, as far as there are letters. */
  lemma LetterCountBounds(s: Settings, eligible: nat, r: real)
    requires 0.0 <= r < 1.0
    ensures 0 <= LetterCount(s, eligible, r) <= eligible
    ensures Min(s.minLetters, eligible) <= LetterCount(s, eligible, r)
    ensures s.minLetters <= s.maxLetters && 0 <= s.maxLetters ==> LetterCount(s, eligible, r) <= s.maxLetters
  {
    DrawBelow(r, Maximum(s, eligible) - Minimum(s, eligible) + 1);
  }

  // ---------------------------------------------------------------- the generator

  datatype Candidate = Candidate(index: nat, neighbors: seq<char>, upper: bool)

  ghost predicate CandidateAt(rows: seq<string>, cases: Cases, text: string, c: Candidate, k: int) {
    && 0 <= k < |text| && c.index == Offset(text, k) && |cases.lower(text[k])| == 1
    && c.neighbors != [] && (forall n :: n in c.neighbors ==> IsNeighbor(rows, cases.lower(text[k])[0], n))
    && c.upper == IsUpper(cases, text[k])
  }

  /** Candidates and the positions they stand for. */
  ghost predicate Candidates(rows: seq<string>, cases: Cases, text: string, pool: seq<Candidate>, spots: seq<int>) {
    && |pool| == |spots| && Distinct(spots)
    && forall m :: 0 <= m < |pool| ==> CandidateAt(rows, cases, text, pool[m], spots[m])
  }

  /** Character k may change, by the table. */
  predicate MayChange(adjacent: Adjacency, cases: Cases, text: string, spans: seq<Span>, k: nat)
    requires k < |text|
  {
    var lower := cases.lower(text[k]);
    |lower| == 1 && Neighbors(adjacent, lower[0]) != [] && !Covered(spans, Offset(text, k))
  }

  function CandidateFor(adjacent: Adjacency, cases: Cases, text: string, k: nat): Candidate
    requires k < |text| && |cases.lower(text[k])| == 1
  {
    Candidate(Offset(text, k), Neighbors(adjacent, cases.lower(text[k])[0]), IsUpper(cases, text[k]))
  }

  /** The positions among the first n that may change. */
  function SpotsUpTo(adjacent: Adjacency, cases: Cases, text: string, spans: seq<Span>, n: nat): seq<int>
    requires n <= |text|
  {
    if n == 0 then []
    else SpotsUpTo(adjacent, cases, text, spans, n - 1)
         + if MayChange(adjacent, cases, text, spans, n - 1) then [n - 1] else []
  }

  /** Their candidates, in order. */
  function PoolUpTo(adjacent: Adjacency, cases: Cases, text: string, spans: seq<Span>, n: nat): seq<Candidate>
    requires n <= |text|
  {
    if n == 0 then []
    else PoolUpTo(adjacent, cases, text, spans, n - 1)
         + if MayChange(adjacent, cases, text, spans, n - 1) then [CandidateFor(adjacent, cases, text, n - 1)] else []
  }

  lemma MayChangeIff(rows: seq<string>, adjacent: Adjacency, cases: Cases, text: string, spans: seq<Span>, k: nat)
    requires TableFits(rows, adjacent) && k < |text|
    ensures MayChange(adjacent, cases, text, spans, k) <==> IsEligible(rows, cases, text, spans, k)
    ensures MayChange(adjacent, cases, text, spans, k) ==>
              CandidateAt(rows, cases, text, CandidateFor(adjacent, cases, text, k), k)
  {
    var lower := cases.lower(text[k]);
    if |lower| == 1 {
      var neighbors := Neighbors(adjacent, lower[0]);
      assert neighbors != [] ==> neighbors[0] in neighbors;
    }
  }

  lemma OneMoreCandidate(rows: seq<string>, cases: Cases, text: string, pool: seq<Candidate>, spots: seq<int>,
                         c: Candidate, k: nat)
    requires Candidates(rows, cases, text, pool, spots) && CandidateAt(rows, cases, text, c, k) && k !in spots
    ensures Candidates(rows, cases, text, pool + [c], spots + [k])
  {
    assert forall m :: 0 <= m < |spots| ==> spots[m] in spots;
  }

  /** The pool stands for exactly the eligible positions. */
  lemma {:induction false} PoolFits(rows: seq<string>, adjacent: Adjacency, cases: Cases, text: string,
                                    spans: seq<Span>, n: nat)
    requires TableFits(rows, adjacent) && n <= |text|
    ensures var pool, spots := PoolUpTo(adjacent, cases, text, spans, n), SpotsUpTo(adjacent, cases, text, spans, n);
            && Candidates(rows, cases, text, pool, spots)
            && (forall k :: k in spots <==> k < n && IsEligible(rows, cases, text, spans, k))
            && forall m :: 0 <= m < |pool| ==> pool[m] == CandidateFor(adjacent, cases, text, spots[m])
  {
    if n > 0 {
      PoolFits(rows, adjacent, cases, text, spans, n - 1);
      MayChangeIff(rows, adjacent, cases, text, spans, n - 1);
      var pool := PoolUpTo(adjacent, cases, text, spans, n - 1);
      var spots := SpotsUpTo(adjacent, cases, text, spans, n - 1);
      if MayChange(adjacent, cases, text, spans, n - 1) {
        OneMoreCandidate(rows, cases, text, pool, spots, CandidateFor(adjacent, cases, text, n - 1), n - 1);
      }
    }
  }

  /** The pool of the whole text. */
  function Pool(adjacent: Adjacency, cases: Cases, text: string, spans: seq<Span>): seq<Candidate> {
    PoolUpTo(adjacent, cases, text, spans, |text|)
  }

  lemma PoolSize(rows: seq<string>, adjacent: Adjacency, cases: Cases, text: string, spans: seq<Span>)
    requires TableFits(rows, adjacent)
    ensures |Pool(adjacent, cases, text, spans)| == |EligibleSet(rows, cases, text, spans)|
  {
    PoolFits(rows, adjacent, cases, text, spans, |text|);
    SpotsAreEligible(rows, cases, text, spans, SpotsUpTo(adjacent, cases, text, spans, |text|));
  }

  /** The candidates are exactly the unprotected keyboard letters, in order. */
  method FindEligible(ghost rows: seq<string>, adjacent: Adjacency, cases: Cases, text: string, spans: seq<Span>)
    returns (eligible: seq<Candidate>)
    requires TableFits(rows, adjacent)
    ensures eligible == Pool(adjacent, cases, text, spans)
    ensures |eligible| == |EligibleSet(rows, cases, text, spans)|
    ensures forall k :: IsEligible(rows, cases, text, spans, k) ==> CandidateFor(adjacent, cases, text, k) in eligible
    ensures forall c :: c in eligible ==>
              exists k :: IsEligible(rows, cases, text, spans, k) && CandidateAt(rows, cases, text, c, k)
  {
    var protectedSet := ProtectedIndexes(spans);
    eligible := [];
    var offset: nat := 0;
    for i := 0 to |text|
      invariant offset == Offset(text, i) && eligible == PoolUpTo(adjacent, cases, text, spans, i)
    {
      var lower := cases.lower(text[i]);
      if |lower| == 1 {
        var neighbors := Neighbors(adjacent, lower[0]);
        if neighbors != [] && offset !in protectedSet {
          eligible := eligible + [Candidate(offset, neighbors, [text[i]] != lower)];
        }
      }
      offset := offset + Width(text[i]);
    }
    PoolSize(rows, adjacent, cases, text, spans);
    PoolMembers(rows, adjacent, cases, text, spans);
  }

  lemma PoolMembers(rows: seq<string>, adjacent: Adjacency, cases: Cases, text: string, spans: seq<Span>)
    requires TableFits(rows, adjacent)
    ensures var pool := Pool(adjacent, cases, text, spans);
            && (forall k :: IsEligible(rows, cases, text, spans, k) ==> CandidateFor(adjacent, cases, text, k) in pool)
            && forall c :: c in pool ==>
                 exists k :: IsEligible(rows, cases, text, spans, k) && CandidateAt(rows, cases, text, c, k)
  {
    PoolFits(rows, adjacent, cases, text, spans, |text|);
    var pool, spots := Pool(adjacent, cases, text, spans), SpotsUpTo(adjacent, cases, text, spans, |text|);
    forall k | IsEligible(rows, cases, text, spans, k) ensures CandidateFor(adjacent, cases, text, k) in pool {
      var m :| 0 <= m < |spots| && spots[m] == k;
      assert pool[m] == CandidateFor(adjacent, cases, text, k);
    }
    forall c | c in pool
      ensures exists k :: IsEligible(rows, cases, text, spans, k) && CandidateAt(rows, cases, text, c, k)
    {
      var m :| 0 <= m < |pool| && pool[m] == c;
      assert spots[m] in spots && CandidateAt(rows, cases, text, pool[m], spots[m]);
    }
  }

  ghost predicate ReplacedAt(rows: seq<string>, cases: Cases, text: string, replacements: map<nat, string>, k: int) {
    && 0 <= k < |text| && Offset(text, k) in replacements
    && |replacements[Offset(text, k)]| == 1 && Mistypes(rows, cases, text[k], replacements[Offset(text, k)][0])
  }

  /** The replacements stand at the picked positions. */
  ghost predicate Replaces(rows: seq<string>, cases: Cases, text: string, replacements: map<nat, string>,
                           picked: set<int>)
  {
    && (forall k :: k in picked ==> ReplacedAt(rows, cases, text, replacements, k))
    && (forall k :: 0 <= k < |text| && Offset(text, k) in replacements ==> k in picked)
  }

  // ---------------------------------------------------------------- sampling without replacement

  datatype Pick = Pick(candidate: Candidate, neighbor: char)

  /** One round of sampling: a place in the pool, and one among the neighbours there. */
  datatype Choice = Choice(place: nat, neighbor: nat)

  function Without<T>(s: seq<T>, i: nat): seq<T>
    requires i < |s|
  {
    s[..i] + s[i + 1..]
  }

  predicate HaveNeighbors(pool: seq<Candidate>) {
    forall m :: 0 <= m < |pool| ==> pool[m].neighbors != []
  }

  /** Each choice lies within the pool that the choices before it leave. */
  predicate Fits(pool: seq<Candidate>, choices: seq<Choice>)
    decreases |choices|
  {
    choices != [] ==>
      && choices[0].place < |pool| && choices[0].neighbor < |pool[choices[0].place].neighbors|
      && Fits(Without(pool, choices[0].place), choices[1..])
  }

  /** What the choices pick: a candidate leaves the pool once it is picked. */
  function Sample(pool: seq<Candidate>, choices: seq<Choice>): (picks: seq<Pick>)
    requires Fits(pool, choices)
    ensures |picks| == |choices|
    decreases |choices|
  {
    if choices == [] then []
    else
      var c := pool[choices[0].place];
      [Pick(c, c.neighbors[choices[0].neighbor])] + Sample(Without(pool, choices[0].place), choices[1..])
  }

  /** The choices that the draws from number `next` on make. */
  ghost function Choices(pool: seq<Candidate>, count: nat, draw: (nat, nat) -> nat, next: nat): (choices: seq<Choice>)
    requires InRange(draw) && count <= |pool| && HaveNeighbors(pool)
    ensures |choices| == count && Fits(pool, choices)
    decreases count
  {
    if count == 0 then []
    else
      var index := draw(next, |pool|);
      [Choice(index, draw(next + 1, |pool[index].neighbors|))]
      + Choices(Without(pool, index), count - 1, draw, next + 2)
  }

  predicate Allowed(pool: seq<Candidate>, wanted: seq<Pick>) {
    && (forall m :: 0 <= m < |wanted| ==>
        wanted[m].candidate in pool && wanted[m].neighbor in wanted[m].candidate.neighbors)
    && (forall m, n :: 0 <= m < n < |wanted| ==> wanted[m].candidate != wanted[n].candidate)
  }

  lemma WithoutMembers<T>(s: seq<T>, i: nat)
    requires Distinct(s) && i < |s|
    ensures Distinct(Without(s, i)) && forall x :: x in Without(s, i) <==> x in s && x != s[i]
  {
    var rest := Without(s, i);
    forall x | x in s && x != s[i] ensures x in rest {
      var m :| 0 <= m < |s| && s[m] == x;
      assert rest[if m < i then m else m - 1] == x;
    }
  }

  /** No sample picks a candidate twice. */
  lemma {:induction false} SamplesAreAllowed(pool: seq<Candidate>, choices: seq<Choice>)
    requires Fits(pool, choices) && Distinct(pool)
    ensures Allowed(pool, Sample(pool, choices))
    decreases |choices|
  {
    if choices != [] {
      var rest := Without(pool, choices[0].place);
      WithoutMembers(pool, choices[0].place);
      SamplesAreAllowed(rest, choices[1..]);
      var picks, later := Sample(pool, choices), Sample(rest, choices[1..]);
      assert forall m :: 0 < m < |picks| ==> picks[m] == later[m - 1] && picks[m].candidate in rest;
    }
  }

  /** And every sequence of picks of different candidates, with any of their neighbours, is a sample. */
  lemma {:induction false} EverySampleIsPossible(pool: seq<Candidate>, wanted: seq<Pick>) returns (choices: seq<Choice>)
    requires Distinct(pool) && Allowed(pool, wanted)
    ensures Fits(pool, choices) && Sample(pool, choices) == wanted
    decreases |wanted|
  {
    if wanted == [] {
      choices := [];
    } else {
      var first, later := wanted[0], wanted[1..];
      var place: nat :| place < |pool| && pool[place] == first.candidate;
      var neighbors := first.candidate.neighbors;
      var neighbor: nat :| neighbor < |neighbors| && neighbors[neighbor] == first.neighbor;
      WithoutMembers(pool, place);
      assert forall m :: 0 <= m < |later| ==> later[m] == wanted[m + 1];
      var rest := EverySampleIsPossible(Without(pool, place), later);
      choices := [Choice(place, neighbor)] + rest;
      assert choices[1..] == rest;
    }
  }

  /** The draw k / n picks number k of n, so that every choice has its draws. */
  lemma DrawHits(k: nat, n: nat)
    requires k < n
    ensures 0.0 <= k as real / n as real < 1.0 && Draw(k as real / n as real, n) == k
  {
    var q := k as real / n as real;
    assert q * n as real == k as real;
  }

  function Letter(cases: Cases, p: Pick): string {
    if p.candidate.upper then cases.upper(p.neighbor) else [p.neighbor]
  }

  /** The table from offsets to letters, with the picks entered one by one. */
  function Enter(cases: Cases, replacements: map<nat, string>, picks: seq<Pick>): map<nat, string>
    decreases |picks|
  {
    if picks == [] then replacements
    else Enter(cases, replacements[picks[0].candidate.index := Letter(cases, picks[0])], picks[1..])
  }

  /** The table of the sample that the draws choose. */
  ghost function DrawnTable(cases: Cases, pool: seq<Candidate>, replacements: map<nat, string>, count: nat,
                            draw: (nat, nat) -> nat, next: nat): map<nat, string>
    requires InRange(draw) && count <= |pool| && HaveNeighbors(pool)
  {
    Enter(cases, replacements, Sample(pool, Choices(pool, count, draw, next)))
  }

  method PickReplacements(cases: Cases, eligible: seq<Candidate>, count: nat, draw: (nat, nat) -> nat, drawn: nat)
    returns (replacements: map<nat, string>)
    requires InRange(draw) && count <= |eligible| && HaveNeighbors(eligible)
    ensures replacements == DrawnTable(cases, eligible, map[], count, draw, drawn)
  {
    var pool := eligible;
    replacements := map[];
    var changed, next := 0, drawn;
    while changed < count && pool != []
      invariant changed <= count <= changed + |pool| && HaveNeighbors(pool)
      invariant DrawnTable(cases, pool, replacements, count - changed, draw, next)
             == DrawnTable(cases, eligible, map[], count, draw, drawn)
    {
      var index := draw(next, |pool|);
      var candidate := pool[index];
      var neighbor := candidate.neighbors[draw(next + 1, |candidate.neighbors|)];
      RoundStep(cases, pool, replacements, count - changed, draw, next);
      pool := Without(pool, index);
      replacements := replacements[candidate.index := Letter(cases, Pick(candidate, neighbor))];
      next := next + 2;
      changed := changed + 1;
    }
  }

  lemma RoundStep(cases: Cases, pool: seq<Candidate>, replacements: map<nat, string>, count: nat,
                  draw: (nat, nat) -> nat, next: nat)
    requires InRange(draw) && 0 < count <= |pool| && HaveNeighbors(pool)
    ensures var index := draw(next, |pool|);
            var c := pool[index];
            var p := Pick(c, c.neighbors[draw(next + 1, |c.neighbors|)]);
            && HaveNeighbors(Without(pool, index))
            && DrawnTable(cases, pool, replacements, count, draw, next)
            == DrawnTable(cases, Without(pool, index), replacements[c.index := Letter(cases, p)],
                          count - 1, draw, next + 2)
  {
    var index := draw(next, |pool|);
    var choices, later := Choices(pool, count, draw, next), Choices(Without(pool, index), count - 1, draw, next + 2);
    assert choices[1..] == later;
    assert Sample(pool, choices)[1..] == Sample(Without(pool, index), later);
  }

  /** Any choices that fit pick as many different positions, and their letters are mistakes there. */
  lemma {:induction false} SampleReplaces(rows: seq<string>, cases: Cases, text: string, pool: seq<Candidate>,
                                          left: seq<int>, replacements: map<nat, string>, picked: set<int>,
                                          choices: seq<Choice>)
    returns (all: set<int>)
    requires CasesFit(rows, cases) && Candidates(rows, cases, text, pool, left) && Fits(pool, choices)
    requires Replaces(rows, cases, text, replacements, picked) && forall k :: k in picked ==> k !in left
    ensures Replaces(rows, cases, text, Enter(cases, replacements, Sample(pool, choices)), all)
    ensures |all| == |picked| + |choices| && forall k :: k in all ==> k in picked || k in left
    decreases |choices|
  {
    if choices == [] {
      all := picked;
    } else {
      var place := choices[0].place;
      var c, spot := pool[place], left[place];
      var p := Pick(c, c.neighbors[choices[0].neighbor]);
      ReplaceOne(rows, cases, text, replacements, picked, c, spot, p.neighbor, Letter(cases, p));
      SpliceOne(rows, cases, text, pool, left, place);
      assert spot in left;
      all := SampleReplaces(rows, cases, text, Without(pool, place), Without(left, place),
                            replacements[c.index := Letter(cases, p)], picked + {spot}, choices[1..]);
      assert Sample(pool, choices)[1..] == Sample(Without(pool, place), choices[1..]);
    }
  }

  lemma OffsetsDiffer(text: string, j: nat, k: nat)
    requires j < |text| && k < |text| && j != k
    ensures Offset(text, j) != Offset(text, k)
  {
    if j < k { OffsetsIncrease(text, j, k); } else { OffsetsIncrease(text, k, j); }
  }

  /** Candidates begin at different offsets, so that no pool holds one twice. */
  lemma CandidatesDiffer(rows: seq<string>, cases: Cases, text: string, pool: seq<Candidate>, spots: seq<int>)
    requires Candidates(rows, cases, text, pool, spots)
    ensures Distinct(pool)
  {
    forall i, j | 0 <= i < j < |pool| ensures pool[i] != pool[j] {
      assert CandidateAt(rows, cases, text, pool[i], spots[i]) && CandidateAt(rows, cases, text, pool[j], spots[j]);
      OffsetsDiffer(text, spots[i], spots[j]);
    }
  }

  lemma CandidateReplaced(rows: seq<string>, cases: Cases, text: string, replacements: map<nat, string>,
                          candidate: Candidate, spot: int, neighbor: char, replacement: string)
    requires CasesFit(rows, cases) && CandidateAt(rows, cases, text, candidate, spot) && neighbor in candidate.neighbors
    requires replacement == if candidate.upper then cases.upper(neighbor) else [neighbor]
    ensures ReplacedAt(rows, cases, text, replacements[candidate.index := replacement], spot)
  {
    NeighborsAreMutual(rows, cases.lower(text[spot])[0], neighbor);
    assert replacement == [replacement[0]];
  }

  lemma ReplaceOne(rows: seq<string>, cases: Cases, text: string, replacements: map<nat, string>, picked: set<int>,
                   candidate: Candidate, spot: int, neighbor: char, replacement: string)
    requires CasesFit(rows, cases) && Replaces(rows, cases, text, replacements, picked)
    requires CandidateAt(rows, cases, text, candidate, spot) && neighbor in candidate.neighbors
    requires replacement == if candidate.upper then cases.upper(neighbor) else [neighbor]
    ensures Replaces(rows, cases, text, replacements[candidate.index := replacement], picked + {spot})
  {
    var all := replacements[candidate.index := replacement];
    CandidateReplaced(rows, cases, text, replacements, candidate, spot, neighbor, replacement);
    forall k | k in picked && k != spot ensures ReplacedAt(rows, cases, text, all, k) {
      assert ReplacedAt(rows, cases, text, replacements, k);
      OffsetsDiffer(text, k, spot);
    }
    forall k | 0 <= k < |text| && Offset(text, k) in all ensures k in picked + {spot} {
      if k != spot { OffsetsDiffer(text, k, spot); }
    }
  }

  lemma SpliceOne(rows: seq<string>, cases: Cases, text: string, pool: seq<Candidate>, left: seq<int>, index: nat)
    requires Candidates(rows, cases, text, pool, left) && index < |pool|
    ensures Candidates(rows, cases, text, Without(pool, index), Without(left, index))
    ensures forall k :: k in Without(left, index) <==> k in left && k != left[index]
  {
    var rest := Without(left, index);
    forall k | k in left && k != left[index] ensures k in rest {
      var m :| 0 <= m < |left| && left[m] == k;
      assert rest[if m < index then m else m - 1] == k;
    }
  }

  /** Character k becomes r: a mistake at a picked position, itself elsewhere. */
  ghost predicate Becomes(rows: seq<string>, cases: Cases, text: string, picked: set<int>, k: int, r: char)
    requires 0 <= k < |text|
  {
    if k in picked then Mistypes(rows, cases, text[k], r) else r == text[k]
  }

  function Piece(replacements: map<nat, string>, offset: nat, c: char): string {
    if offset in replacements then replacements[offset] else [c]
  }

  lemma PieceBecomes(rows: seq<string>, cases: Cases, text: string, replacements: map<nat, string>, picked: set<int>,
                     k: nat)
    requires Replaces(rows, cases, text, replacements, picked) && k < |text|
    ensures var piece := Piece(replacements, Offset(text, k), text[k]);
            |piece| == 1 && Becomes(rows, cases, text, picked, k, piece[0])
  {
    assert k in picked ==> ReplacedAt(rows, cases, text, replacements, k);
  }

  function PieceAt(text: string, replacements: map<nat, string>, k: nat): string
    requires k < |text|
  {
    Piece(replacements, Offset(text, k), text[k])
  }

  /** The first n characters with the table applied. */
  function Mapped(text: string, replacements: map<nat, string>, n: nat): string
    requires n <= |text|
  {
    if n == 0 then "" else Mapped(text, replacements, n - 1) + PieceAt(text, replacements, n - 1)
  }

  method Rebuild(ghost rows: seq<string>, cases: Cases, text: string, replacements: map<nat, string>,
                 ghost picked: set<int>)
    returns (result: string)
    requires Replaces(rows, cases, text, replacements, picked)
    ensures result == Mapped(text, replacements, |text|) && |result| == |text|
    ensures forall k :: 0 <= k < |text| ==> Becomes(rows, cases, text, picked, k, result[k])
  {
    result := "";
    var offset: nat := 0;
    for i := 0 to |text|
      invariant |result| == i && offset == Offset(text, i) && result == Mapped(text, replacements, i)
      invariant forall k :: 0 <= k < i ==> Becomes(rows, cases, text, picked, k, result[k])
    {
      PieceBecomes(rows, cases, text, replacements, picked, i);
      result := result + Piece(replacements, offset, text[i]);
      offset := offset + Width(text[i]);
    }
  }

  predicate Skips(settings: Option<Settings>, r: real) {
    settings.None? || !settings.value.enabled || settings.value.probability <= 0.0
    || r * 100.0 >= settings.value.probability
  }

  lemma PoolHasNeighbors(adjacent: Adjacency, cases: Cases, text: string, spans: seq<Span>, n: nat)
    requires n <= |text|
    ensures HaveNeighbors(PoolUpTo(adjacent, cases, text, spans, n))
  {
  }

  /** What the generator makes of a text, for given draws. */
  ghost function Generated(adjacent: Adjacency, cases: Cases, text: string, spans: seq<Span>,
                           settings: Option<Settings>, random: nat -> real): string
    requires InUnit(random)
  {
    if Skips(settings, random(0)) then text
    else
      var pool := Pool(adjacent, cases, text, spans);
      PoolHasNeighbors(adjacent, cases, text, spans, |text|);
      LetterCountBounds(settings.value, |pool|, random(1));
      var count := LetterCount(settings.value, |pool|, random(1));
      Mapped(text, DrawnTable(cases, pool, map[], count, Draws(random), 2), |text|)
  }

  lemma {:induction false} NothingMapped(text: string, n: nat)
    requires n <= |text|
    ensures Mapped(text, map[], n) == text[..n]
  {
    if n > 0 {
      NothingMapped(text, n - 1);
      assert text[..n] == text[..n - 1] + [text[n - 1]];
    }
  }

  lemma GeneratedSkips(adjacent: Adjacency, cases: Cases, text: string, spans: seq<Span>, settings: Option<Settings>,
                       random: nat -> real)
    requires InUnit(random)
    requires Skips(settings, random(0))
             || LetterCount(settings.value, |Pool(adjacent, cases, text, spans)|, random(1)) == 0
    ensures Generated(adjacent, cases, text, spans, settings, random) == text
  {
    NothingMapped(text, |text|);
    assert text[..|text|] == text;
  }

  lemma GeneratedChanges(adjacent: Adjacency, cases: Cases, text: string, spans: seq<Span>, settings: Option<Settings>,
                         random: nat -> real, count: nat)
    requires InUnit(random) && !Skips(settings, random(0))
    requires LetterCount(settings.value, |Pool(adjacent, cases, text, spans)|, random(1)) == count
    ensures var pool := Pool(adjacent, cases, text, spans);
            && HaveNeighbors(pool) && count <= |pool|
            && Generated(adjacent, cases, text, spans, settings, random)
            == Mapped(text, DrawnTable(cases, pool, map[], count, Draws(random), 2), |text|)
  {
    PoolHasNeighbors(adjacent, cases, text, spans, |text|);
    LetterCountBounds(settings.value, |Pool(adjacent, cases, text, spans)|, random(1));
  }

  lemma Unchanged(text: string)
    ensures Changed(text, text) == {}
  {
  }

  /** The generator on any keyboard, with the table built for it. */
  method GenerateOn(ghost rows: seq<string>, adjacent: Adjacency, cases: Cases, text: string, spans: seq<Span>,
                    settings: Option<Settings>, random: nat -> real)
    returns (result: string)
    requires TableFits(rows, adjacent) && forall i :: 0 <= i < |rows| ==> NoDoubles(rows[i])
    requires CasesFit(rows, cases) && InUnit(random)
    ensures result == Generated(adjacent, cases, text, spans, settings, random)
    ensures |result| == |text|
    ensures Skips(settings, random(0)) ==> result == text
    ensures !Skips(settings, random(0)) ==>
              var eligible := EligibleSet(rows, cases, text, spans);
              && |Changed(text, result)| == LetterCount(settings.value, |eligible|, random(1))
              && Changed(text, result) <= eligible
              && forall k :: k in Changed(text, result) ==> Mistypes(rows, cases, text[k], result[k])
  {
    result := text;
    if Skips(settings, random(0)) {
      GeneratedSkips(adjacent, cases, text, spans, settings, random);
      return;
    }
    var eligible := FindEligible(rows, adjacent, cases, text, spans);
    LetterCountBounds(settings.value, |eligible|, random(1));
    Unchanged(text);
    if eligible == [] {
      GeneratedSkips(adjacent, cases, text, spans, settings, random);
      return;
    }
    var count := LetterCount(settings.value, |eligible|, random(1));
    if count == 0 {
      GeneratedSkips(adjacent, cases, text, spans, settings, random);
      return;
    }
    GeneratedChanges(adjacent, cases, text, spans, settings, random, count);
    result := ChangeLetters(rows, adjacent, cases, text, spans, eligible, count, random);
  }

  /** The part of the generator that changes letters. */
  method ChangeLetters(ghost rows: seq<string>, adjacent: Adjacency, cases: Cases, text: string, spans: seq<Span>,
                       eligible: seq<Candidate>, count: nat, random: nat -> real)
    returns (result: string)
    requires TableFits(rows, adjacent) && forall i :: 0 <= i < |rows| ==> NoDoubles(rows[i])
    requires CasesFit(rows, cases) && InUnit(random)
    requires eligible == Pool(adjacent, cases, text, spans) && count <= |eligible| && HaveNeighbors(eligible)
    ensures result == Mapped(text, DrawnTable(cases, eligible, map[], count, Draws(random), 2), |text|)
    ensures |result| == |text| && |Changed(text, result)| == count
    ensures Changed(text, result) <= EligibleSet(rows, cases, text, spans)
    ensures forall k :: k in Changed(text, result) ==> Mistypes(rows, cases, text[k], result[k])
  {
    ghost var spots := SpotsUpTo(adjacent, cases, text, spans, |text|);
    PoolFits(rows, adjacent, cases, text, spans, |text|);
    var replacements := PickReplacements(cases, eligible, count, Draws(random), 2);
    ghost var picked := SampleReplaces(rows, cases, text, eligible, spots, map[], {},
                                       Choices(eligible, count, Draws(random), 2));
    result := Rebuild(rows, cases, text, replacements, picked);
    ChangedArePicked(rows, cases, text, result, picked);
  }

  lemma SpotsAreEligible(rows: seq<string>, cases: Cases, text: string, spans: seq<Span>, spots: seq<int>)
    requires Distinct(spots) && forall k :: k in spots <==> IsEligible(rows, cases, text, spans, k)
    ensures |EligibleSet(rows, cases, text, spans)| == |spots|
  {
    DistinctSize(spots, EligibleSet(rows, cases, text, spans));
  }

  lemma {:induction false} DistinctSize(s: seq<int>, members: set<int>)
    requires Distinct(s) && forall x :: x in s <==> x in members
    ensures |members| == |s|
  {
    if s == [] {
      assert forall x :: x in members ==> x in s;
    } else {
      var last := s[|s| - 1];
      forall x | x in members - {last} ensures x in s[..|s| - 1] {
        var i :| 0 <= i < |s| && s[i] == x;
        assert s[..|s| - 1][i] == x;
      }
      assert last in members;
      DistinctSize(s[..|s| - 1], members - {last});
    }
  }

  lemma ChangedArePicked(rows: seq<string>, cases: Cases, text: string, result: string, picked: set<int>)
    requires CasesFit(rows, cases) && (forall i :: 0 <= i < |rows| ==> NoDoubles(rows[i])) && |result| == |text|
    requires forall k :: k in picked ==> 0 <= k < |text|
    requires forall k :: 0 <= k < |text| ==> Becomes(rows, cases, text, picked, k, result[k])
    ensures Changed(text, result) == picked
  {
    forall k | k in picked ensures k in Changed(text, result) {
      assert Becomes(rows, cases, text, picked, k, result[k]);
      MistakesDiffer(rows, cases, text[k], result[k]);
    }
  }

  /**
   Unless it skips, the generator changes exactly the drawn number of eligible characters, each
   to a different keyboard neighbour in the same case; every other character stays in place.
   */
  method GenerateNaturalMistakes(adjacent: Adjacency, cases: Cases, text: string, spans: seq<Span>,
                                 settings: Option<Settings>, random: nat -> real)
    returns (result: string)
    requires TableFits(KEYBOARD_ROWS, adjacent) && CasesFit(KEYBOARD_ROWS, cases) && InUnit(random)
    ensures result == Generated(adjacent, cases, text, spans, settings, random)
    ensures |result| == |text|
    ensures Skips(settings, random(0)) ==> result == text
    ensures !Skips(settings, random(0)) ==>
              var eligible := EligibleSet(KEYBOARD_ROWS, cases, text, spans);
              && |Changed(text, result)| == LetterCount(settings.value, |eligible|, random(1))
              && Changed(text, result) <= eligible
              && forall k :: k in Changed(text, result) ==> Mistypes(KEYBOARD_ROWS, cases, text[k], result[k])
  {
    KeyboardHasNoDoubles();
    result := GenerateOn(KEYBOARD_ROWS, adjacent, cases, text, spans, settings, random);
  }

  // ---------------------------------------------------------------- every choice can happen

  function Source(draws: seq<real>): nat -> real {
    (i: nat) => if i < |draws| then draws[i] else 0.0
  }

  predicate AllInUnit(draws: seq<real>) {
    forall i :: 0 <= i < |draws| ==> 0.0 <= draws[i] < 1.0
  }

  /** Draws that make given choices: each is the place picked as a fraction of the places there are. */
  function DrawsFor(pool: seq<Candidate>, choices: seq<Choice>): (draws: seq<real>)
    requires Fits(pool, choices)
    ensures |draws| == 2 * |choices| && AllInUnit(draws)
    decreases |choices|
  {
    if choices == [] then []
    else
      var place, neighbors := choices[0].place, pool[choices[0].place].neighbors;
      DrawHits(place, |pool|);
      DrawHits(choices[0].neighbor, |neighbors|);
      [place as real / |pool| as real, choices[0].neighbor as real / |neighbors| as real]
      + DrawsFor(Without(pool, place), choices[1..])
  }

  /** A fraction k / n as draw number i gives k out of n. */
  lemma FractionDraws(random: nat -> real, i: nat, k: nat, n: nat)
    requires InUnit(random) && k < n && random(i) == k as real / n as real
    ensures Draws(random)(i, n) == k
  {
    DrawHits(k, n);
  }

  /** A source that holds these draws from number `next` on makes exactly these choices. */
  lemma {:induction false} DrawsMake(pool: seq<Candidate>, choices: seq<Choice>, random: nat -> real, next: nat)
    requires InUnit(random) && Fits(pool, choices) && HaveNeighbors(pool)
    requires forall m: nat :: next <= m < next + 2 * |choices| ==> random(m) == DrawsFor(pool, choices)[m - next]
    ensures |choices| <= |pool| && Choices(pool, |choices|, Draws(random), next) == choices
    decreases |choices|
  {
    if choices != [] {
      var place, draws := choices[0].place, DrawsFor(pool, choices);
      var neighbors, rest, later := pool[place].neighbors, Without(pool, place), choices[1..];
      assert random(next) == draws[0] && random(next + 1) == draws[1];
      FractionDraws(random, next, place, |pool|);
      FractionDraws(random, next + 1, choices[0].neighbor, |neighbors|);
      assert draws[2..] == DrawsFor(rest, later);
      forall m: nat | next + 2 <= m < next + 2 + 2 * |later|
        ensures random(m) == DrawsFor(rest, later)[m - (next + 2)]
      {
        assert random(m) == draws[m - next] == draws[2..][m - next - 2];
      }
      DrawsMake(rest, later, random, next + 2);
      assert choices == [choices[0]] + later && choices[0] == Choice(place, choices[0].neighbor);
    }
  }

  /** The picks are what the table holds. */
  lemma {:induction false} EnterHolds(cases: Cases, replacements: map<nat, string>, picks: seq<Pick>, o: nat)
    requires forall m, n :: 0 <= m < n < |picks| ==> picks[m].candidate.index != picks[n].candidate.index
    ensures var table := Enter(cases, replacements, picks);
            && (forall m :: 0 <= m < |picks| && picks[m].candidate.index == o ==>
                o in table && table[o] == Letter(cases, picks[m]))
            && ((forall m :: 0 <= m < |picks| ==> picks[m].candidate.index != o) ==>
                  (o in table <==> o in replacements) && (o in table ==> table[o] == replacements[o]))
    decreases |picks|
  {
    if picks != [] {
      var p, rest := picks[0], picks[1..];
      assert forall m :: 0 <= m < |rest| ==> rest[m] == picks[m + 1];
      EnterHolds(cases, replacements[p.candidate.index := Letter(cases, p)], rest, o);
      assert forall m :: 0 < m < |picks| ==> rest[m - 1] == picks[m];
    }
  }

  /** The letter that stands at k once it has been mistyped as its neighbour n. */
  function Mistyped(cases: Cases, c: char, n: char): string {
    if IsUpper(cases, c) then cases.upper(n) else [n]
  }

  /** The text with the chosen mistakes, and nothing else, made. */
  ghost predicate IsChosen(cases: Cases, text: string, chosen: map<int, char>, result: string) {
    && |result| == |text|
    && forall k :: 0 <= k < |text| ==>
         [result[k]] == if k in chosen then Mistyped(cases, text[k], chosen[k]) else [text[k]]
  }

  /** Positions that may change, each with one of its neighbours. */
  ghost predicate Choosable(rows: seq<string>, cases: Cases, text: string, spans: seq<Span>, chosen: map<int, char>) {
    forall k :: k in chosen ==>
      IsEligible(rows, cases, text, spans, k) && IsNeighbor(rows, cases.lower(text[k])[0], chosen[k])
  }

  predicate IsLetter(cases: Cases, text: string, k: int) {
    0 <= k < |text| && |cases.lower(text[k])| == 1
  }

  /** The chosen positions in some order, each once. */
  ghost predicate InOrder(cases: Cases, text: string, chosen: map<int, char>, order: seq<int>) {
    && Distinct(order) && (forall k :: k in order <==> k in chosen)
    && forall m :: 0 <= m < |order| ==> order[m] in chosen && IsLetter(cases, text, order[m])
  }

  /** For each position in `order`, the pick of its chosen neighbour. */
  ghost function PicksFor(adjacent: Adjacency, cases: Cases, text: string, chosen: map<int, char>, order: seq<int>)
    : (r: seq<Pick>)
    requires InOrder(cases, text, chosen, order)
    ensures |r| == |order|
    ensures forall m :: 0 <= m < |r| ==> r[m] == Pick(CandidateFor(adjacent, cases, text, order[m]), chosen[order[m]])
  {
    seq(|order|, m requires 0 <= m < |order| => Pick(CandidateFor(adjacent, cases, text, order[m]), chosen[order[m]]))
  }

  lemma PicksDiffer(adjacent: Adjacency, cases: Cases, text: string, chosen: map<int, char>, order: seq<int>)
    requires InOrder(cases, text, chosen, order)
    ensures var picks := PicksFor(adjacent, cases, text, chosen, order);
            forall m, n :: 0 <= m < n < |picks| ==> picks[m].candidate.index != picks[n].candidate.index
  {
    var picks := PicksFor(adjacent, cases, text, chosen, order);
    forall m, n | 0 <= m < n < |picks| ensures picks[m].candidate.index != picks[n].candidate.index {
      assert IsLetter(cases, text, order[m]) && IsLetter(cases, text, order[n]);
      OffsetsDiffer(text, order[m], order[n]);
    }
  }

  lemma PicksAllowed(rows: seq<string>, adjacent: Adjacency, cases: Cases, text: string, spans: seq<Span>,
                     chosen: map<int, char>, order: seq<int>)
    requires TableFits(rows, adjacent) && Choosable(rows, cases, text, spans, chosen)
    requires InOrder(cases, text, chosen, order)
    ensures Distinct(Pool(adjacent, cases, text, spans))
    ensures Allowed(Pool(adjacent, cases, text, spans), PicksFor(adjacent, cases, text, chosen, order))
  {
    var pool, picks := Pool(adjacent, cases, text, spans), PicksFor(adjacent, cases, text, chosen, order);
    PoolFits(rows, adjacent, cases, text, spans, |text|);
    CandidatesDiffer(rows, cases, text, pool, SpotsUpTo(adjacent, cases, text, spans, |text|));
    PoolMembers(rows, adjacent, cases, text, spans);
    PicksDiffer(adjacent, cases, text, chosen, order);
    forall m | 0 <= m < |picks|
      ensures picks[m].candidate in pool && picks[m].neighbor in picks[m].candidate.neighbors
    {
      assert order[m] in chosen && IsEligible(rows, cases, text, spans, order[m]);
    }
  }

  /** What the table of the picks makes of character k. */
  lemma ChosenPiece(adjacent: Adjacency, cases: Cases, text: string, chosen: map<int, char>, order: seq<int>, k: nat)
    requires InOrder(cases, text, chosen, order) && k < |text|
    ensures PieceAt(text, Enter(cases, map[], PicksFor(adjacent, cases, text, chosen, order)), k)
         == if k in chosen then Mistyped(cases, text[k], chosen[k]) else [text[k]]
  {
    var picks := PicksFor(adjacent, cases, text, chosen, order);
    PicksDiffer(adjacent, cases, text, chosen, order);
    EnterHolds(cases, map[], picks, Offset(text, k));
    if k in chosen {
      var m :| 0 <= m < |order| && order[m] == k;
      assert picks[m].candidate.index == Offset(text, k);
    } else {
      forall m | 0 <= m < |picks| ensures picks[m].candidate.index != Offset(text, k) {
        assert IsLetter(cases, text, order[m]);
        OffsetsDiffer(text, order[m], k);
      }
    }
  }

  lemma {:induction false} MappedPieces(text: string, table: map<nat, string>, n: nat)
    requires n <= |text| && forall k: nat :: k < n ==> |PieceAt(text, table, k)| == 1
    ensures |Mapped(text, table, n)| == n
    ensures forall k: nat :: k < n ==> Mapped(text, table, n)[k] == PieceAt(text, table, k)[0]
  {
    if n > 0 {
      MappedPieces(text, table, n - 1);
      var init, piece := Mapped(text, table, n - 1), PieceAt(text, table, n - 1);
      assert Mapped(text, table, n) == init + piece && |piece| == 1;
    }
  }

  /** One letter, whatever happens to it. */
  lemma MistypedLength(rows: seq<string>, cases: Cases, text: string, spans: seq<Span>, chosen: map<int, char>, k: nat)
    requires CasesFit(rows, cases) && Choosable(rows, cases, text, spans, chosen) && k in chosen
    ensures k < |text| && |Mistyped(cases, text[k], chosen[k])| == 1
  {
    assert IsEligible(rows, cases, text, spans, k);
    NeighborsAreMutual(rows, cases.lower(text[k])[0], chosen[k]);
  }

  /** The generator's table makes exactly the chosen mistakes, if its picks are drawn. */
  lemma PicksMakeChosen(rows: seq<string>, adjacent: Adjacency, cases: Cases, text: string, spans: seq<Span>,
                        chosen: map<int, char>, order: seq<int>)
    requires CasesFit(rows, cases) && Choosable(rows, cases, text, spans, chosen) && InOrder(cases, text, chosen, order)
    ensures IsChosen(cases, text, chosen,
                     Mapped(text, Enter(cases, map[], PicksFor(adjacent, cases, text, chosen, order)), |text|))
  {
    var table := Enter(cases, map[], PicksFor(adjacent, cases, text, chosen, order));
    forall k: nat | k < |text|
      ensures PieceAt(text, table, k) == if k in chosen then Mistyped(cases, text[k], chosen[k]) else [text[k]]
      ensures |PieceAt(text, table, k)| == 1
    {
      ChosenPiece(adjacent, cases, text, chosen, order, k);
      if k in chosen { MistypedLength(rows, cases, text, spans, chosen, k); }
    }
    ChosenByPieces(cases, text, chosen, table);
  }

  lemma ChosenByPieces(cases: Cases, text: string, chosen: map<int, char>, table: map<nat, string>)
    requires forall k: nat :: k < |text| ==>
               && |PieceAt(text, table, k)| == 1
               && PieceAt(text, table, k) == if k in chosen then Mistyped(cases, text[k], chosen[k]) else [text[k]]
    ensures IsChosen(cases, text, chosen, Mapped(text, table, |text|))
  {
    MappedPieces(text, table, |text|);
    var r := Mapped(text, table, |text|);
    forall k: nat | k < |text|
      ensures [r[k]] == if k in chosen then Mistyped(cases, text[k], chosen[k]) else [text[k]]
    {
      assert [r[k]] == PieceAt(text, table, k);
    }
  }

  /**
   Nothing that may happen is out of reach: for every number of letters that the settings
   allow, every set of that many eligible positions and any neighbour for each, some draws
   make the generator return the text with exactly these mistakes.
   */
  lemma EveryChoiceCanHappen(rows: seq<string>, adjacent: Adjacency, cases: Cases, text: string, spans: seq<Span>,
                             settings: Settings, chosen: map<int, char>) returns (random: nat -> real)
    requires TableFits(rows, adjacent) && CasesFit(rows, cases) && Choosable(rows, cases, text, spans, chosen)
    requires settings.enabled && settings.probability > 0.0
    requires var n := |EligibleSet(rows, cases, text, spans)|;
             Minimum(settings, n) <= |chosen.Keys| <= Maximum(settings, n)
    ensures InUnit(random)
    ensures IsChosen(cases, text, chosen, Generated(adjacent, cases, text, spans, Some(settings), random))
  {
    var pool := Pool(adjacent, cases, text, spans);
    var order := Enumerate(chosen.Keys);
    OrderFits(rows, cases, text, spans, chosen, order);
    PoolSize(rows, adjacent, cases, text, spans);
    PicksAllowed(rows, adjacent, cases, text, spans, chosen, order);
    PoolHasNeighbors(adjacent, cases, text, spans, |text|);
    var picks := PicksFor(adjacent, cases, text, chosen, order);
    random := RandomFor(cases, pool, picks, settings);
    GeneratedChanges(adjacent, cases, text, spans, Some(settings), random, |picks|);
    PicksMakeChosen(rows, adjacent, cases, text, spans, chosen, order);
  }

  lemma OrderFits(rows: seq<string>, cases: Cases, text: string, spans: seq<Span>, chosen: map<int, char>,
                  order: seq<int>)
    requires Choosable(rows, cases, text, spans, chosen)
    requires Distinct(order) && forall k :: k in order <==> k in chosen.Keys
    ensures InOrder(cases, text, chosen, order)
  {
    forall m | 0 <= m < |order| ensures order[m] in chosen && IsLetter(cases, text, order[m]) {
      assert order[m] in order;
      assert IsEligible(rows, cases, text, spans, order[m]);
    }
  }

  /** Draws that apply the generator, and make it draw this number of letters and these picks. */
  lemma RandomFor(cases: Cases, pool: seq<Candidate>, picks: seq<Pick>, settings: Settings)
    returns (random: nat -> real)
    requires Distinct(pool) && Allowed(pool, picks) && HaveNeighbors(pool)
    requires settings.enabled && settings.probability > 0.0
    requires Minimum(settings, |pool|) <= |picks| <= Maximum(settings, |pool|)
    ensures InUnit(random) && !Skips(Some(settings), random(0)) && LetterCount(settings, |pool|, random(1)) == |picks|
    ensures |picks| <= |pool| && DrawnTable(cases, pool, map[], |picks|, Draws(random), 2) == Enter(cases, map[], picks)
  {
    var low, high := Minimum(settings, |pool|), Maximum(settings, |pool|);
    var choices := EverySampleIsPossible(pool, picks);
    var share := (|picks| - low) as real / (high - low + 1) as real;
    DrawHits(|picks| - low, high - low + 1);
    random := Source([0.0, share] + DrawsFor(pool, choices));
    SourceHolds(share, DrawsFor(pool, choices));
    DrawsMake(pool, choices, random, 2);
  }

  lemma SourceHolds(share: real, draws: seq<real>)
    requires 0.0 <= share < 1.0 && AllInUnit(draws)
    ensures var random := Source([0.0, share] + draws);
            && InUnit(random) && random(0) == 0.0 && random(1) == share
            && forall m: nat :: 2 <= m < 2 + |draws| ==> random(m) == draws[m - 2]
  {
  }
}
