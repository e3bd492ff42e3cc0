/** The settings of the mistakes generator in plain terms: how often it acts, on how many letters, and where. */
module MistakeBounds {
  import opened Numbers
  import opened Sequences
  import opened Strings
  import opened Mistakes

  /** It acts on the share of the draws that the settings give in per cent. */
  lemma ActsIff(settings: Option<Settings>, r: real)
    ensures !Skips(settings, r)
       <==> && settings.Some? && settings.value.enabled && settings.value.probability > 0.0
            && r < settings.value.probability / 100.0
  {
  }

  /**
   The numbers of letters that can be drawn, for every setting: at least `minLetters` or all there
   are, and at most `maxLetters`, unless that is below what must change anyway.
   */
  lemma CountsIff(s: Settings, eligible: nat, n: int)
    ensures (exists r :: 0.0 <= r < 1.0 && LetterCount(s, eligible, r) == n)
       <==> && 0 <= n <= eligible && (n >= s.minLetters || n == eligible)
            && (n <= s.maxLetters || n <= s.minLetters || n == 0)
  {
    var low, high := Minimum(s, eligible), Maximum(s, eligible);
    if r :| 0.0 <= r < 1.0 && LetterCount(s, eligible, r) == n {
      DrawBelow(r, high - low + 1);
    }
    if low <= n <= high {
      var r := (n - low) as real / (high - low + 1) as real;
      DrawHits(n - low, high - low + 1);
      assert LetterCount(s, eligible, r) == n;
    }
  }

  /** A character begins at as many units as there are characters before it, twice those beyond the basic plane. */
  lemma {:induction false} OffsetCounts(text: string, k: nat)
    requires k <= |text|
    ensures Offset(text, k) == k + Count((c: char) => c as int > 65535, text[..k])
  {
    if k > 0 {
      OffsetCounts(text, k - 1);
      CountAppend((c: char) => c as int > 65535, text[..k - 1], text[k - 1]);
      assert text[..k] == text[..k - 1] + [text[k - 1]];
    } else {
      assert text[..0] == [];
    }
  }

  /** Where text may change: at single letters with a neighbour, outside every protected stretch. */
  lemma EligibleIff(rows: seq<string>, cases: Cases, text: string, spans: seq<Span>, k: nat)
    requires k < |text|
    ensures var unit := k + Count((c: char) => c as int > 65535, text[..k]);
            IsEligible(rows, cases, text, spans, k)
            <==> && |cases.lower(text[k])| == 1 && (exists n :: IsNeighbor(rows, cases.lower(text[k])[0], n))
                 && forall m :: 0 <= m < |spans| ==> unit < spans[m].start || unit >= spans[m].start + spans[m].length
  {
    OffsetCounts(text, k);
  }

  /** What may stand there instead: a neighbour, in upper case if the letter is not in lower case. */
  lemma MistypesIff(rows: seq<string>, cases: Cases, c: char, r: char)
    ensures Mistypes(rows, cases, c, r)
       <==> && |cases.lower(c)| == 1
            && exists n :: IsNeighbor(rows, cases.lower(c)[0], n) && (if cases.lower(c) == [c] then r == n
                                                                      else cases.upper(n) == [r])
  {
    if Mistypes(rows, cases, c, r) {
      var n :| IsNeighbor(rows, cases.lower(c)[0], n) && [r] == if IsUpper(cases, c) then cases.upper(n) else [n];
      assert cases.lower(c) == [c] ==> [r][0] == [n][0];
    }
  }

  lemma RowNeighbors(i: nat, c: char)
    requires i < |KEYBOARD_ROWS| && c in KEYBOARD_ROWS[i]
    ensures exists n :: IsNeighbor(KEYBOARD_ROWS, c, n)
  {
    var row := KEYBOARD_ROWS[i];
    var j :| 0 <= j < |row| && row[j] == c;
    assert |row| >= 2;
    var n := if j > 0 then row[j - 1] else row[j + 1];
    assert NeighborAt(row, j, c, n);
    assert NeighborInRow(row, c, n);
    assert IsNeighbor(KEYBOARD_ROWS, c, n);
  }

  /** Every Latin letter and every digit can be mistyped. */
  lemma LatinIsCovered(c: char)
    requires 'a' <= c <= 'z' || '0' <= c <= '9'
    ensures exists n :: IsNeighbor(KEYBOARD_ROWS, c, n)
  {
    if c <= '9' {
      assert c in KEYBOARD_ROWS[0];
      RowNeighbors(0, c);
    } else {
      var i := if c in KEYBOARD_ROWS[1] then 1 else if c in KEYBOARD_ROWS[2] then 2 else 3;
      assert c in KEYBOARD_ROWS[i];
      RowNeighbors(i, c);
    }
  }
}
