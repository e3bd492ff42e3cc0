/** Strings, decimal numerals, and the joins that the services hash or use as map keys. */
module Strings {

  datatype Option<+T> = None | Some(value: T)

  /** A nullable string, with null read as the empty string. */
  function OrEmpty(s: Option<string>): string {
    if s.Some? then s.value else ""
  }

  /** `part` occurs in s. */
  predicate Includes(s: string, part: string) {
    exists i {:trigger s[i..]} :: 0 <= i <= |s| && part <= s[i..]
  }

  // ---------------------------------------------------------------- delimiters

  /**
   A delimiter that is absent from one left part cuts equal strings at the same place, if
   the other left part is free of it too or at least not longer.
   */
  lemma CutLeft(a: string, x: string, b: string, y: string, c: char)
    requires c !in a && (c !in b || |b| <= |a|)
    requires a + [c] + x == b + [c] + y
    ensures a == b && x == y
  {
    var s := a + [c] + x;
    assert s[|a|] == c && s[|b|] == c;
    assert forall i :: 0 <= i < |a| ==> s[i] == a[i] && s[i] != c;
    assert forall i :: 0 <= i < |b| ==> s[i] == b[i];
    assert |a| == |b|;
    assert a == s[..|a|] && b == s[..|b|];
    assert x == s[|a| + 1..] && y == s[|b| + 1..];
  }

  /** The same from the right. */
  lemma CutRight(a: string, x: string, b: string, y: string, c: char)
    requires c !in x && (c !in y || |y| <= |x|)
    requires a + [c] + x == b + [c] + y
    ensures a == b && x == y
  {
    var s := a + [c] + x;
    assert s[|s| - |y| - 1] == c by { assert s == b + [c] + y; }
    assert s[|a|] == c;
    assert forall i :: |a| < i < |s| ==> s[i] == x[i - |a| - 1] && s[i] != c;
    assert forall i :: |s| - |y| <= i < |s| ==> s[i] == y[i - (|s| - |y|)];
    assert |a| == |b|;
    assert a == s[..|a|] && b == s[..|b|];
    assert x == s[|a| + 1..] && y == s[|b| + 1..];
  }

  lemma CancelRight(a: string, b: string, s: string)
    requires a + s == b + s
    ensures a == b
  {
    assert a == (a + s)[..|a|] && b == (b + s)[..|b|];
  }

  lemma Assoc(a: string, b: string, c: string)
    ensures a + b + c == a + (b + c)
  {
  }

  lemma Assoc5(a: string, b: string, c: string, d: string, e: string)
    ensures a + b + c + d + e == a + (b + (c + d + e))
  {
    Assoc(a, b, c);
    Assoc(a, b + c, d);
    Assoc(a, b + c + d, e);
    Assoc(b, c, d);
    Assoc(b, c + d, e);
  }

  lemma Cancel(p: string, x: string, y: string)
    requires p + x == p + y
    ensures x == y
  {
    assert x == (p + x)[|p|..] && y == (p + y)[|p|..];
  }

  // ---------------------------------------------------------------- decimals

  predicate IsDigit(c: char) {
    '0' <= c <= '9'
  }

  /** One or more digits. */
  predicate IsDigits(s: string) {
    |s| > 0 && forall i :: 0 <= i < |s| ==> IsDigit(s[i])
  }

  function Digit(d: nat): (c: char)
    requires d < 10
    ensures IsDigit(c)
  {
    '0' + d as char
  }

  /** The number that digits stand for; leading zeros are allowed. */
  function Numeral(s: string): nat
    requires forall i :: 0 <= i < |s| ==> IsDigit(s[i])
  {
    if s == "" then 0 else assert IsDigit(s[|s| - 1]); Numeral(s[..|s| - 1]) * 10 + (s[|s| - 1] - '0') as int
  }

  /** A natural number in decimal. */
  function Decimal(n: nat): string {
    if n < 10 then [Digit(n)] else Decimal(n / 10) + [Digit(n % 10)]
  }

  /** An integer in decimal, with a minus sign if it is negative. */
  function Signed(n: int): string {
    if n < 0 then "-" + Decimal(-n) else Decimal(n)
  }

  lemma {:induction false} DecimalRoundTrip(n: nat)
    ensures IsDigits(Decimal(n)) && Numeral(Decimal(n)) == n
  {
    if n >= 10 {
      DecimalRoundTrip(n / 10);
      var s := Decimal(n);
      assert s[..|s| - 1] == Decimal(n / 10);
    } else {
      assert Decimal(n)[..0] == "";
    }
  }

  /** A hexadecimal digit, in lower case. */
  function HexDigit(d: nat): char
    requires d < 16
  {
    if d < 10 then '0' + d as char else 'a' + (d - 10) as char
  }

  predicate IsHexDigit(c: char) {
    '0' <= c <= '9' || 'a' <= c <= 'f' || 'A' <= c <= 'F'
  }

  function HexDigitValue(c: char): (d: nat)
    requires IsHexDigit(c)
    ensures d < 16
  {
    if '0' <= c <= '9' then (c - '0') as int
    else if 'a' <= c <= 'f' then (c - 'a') as int + 10
    else (c - 'A') as int + 10
  }

  lemma HexDigitReads(d: nat)
    requires d < 16
    ensures IsHexDigit(HexDigit(d)) && HexDigitValue(HexDigit(d)) == d
  {
  }

  /** Digits without leading zeros. */
  predicate IsCanonical(s: string) {
    IsDigits(s) && (s[0] != '0' || s == "0")
  }

  lemma DigitOf(c: char, q: nat)
    requires IsDigit(c)
    ensures var d := (c - '0') as int;
            d < 10 && Digit(d) == c && (d == 0 ==> c == '0') && (q * 10 + d) / 10 == q && (q * 10 + d) % 10 == d
  {
  }

  /** Canonical digits are what their number prints as. */
  lemma {:induction false} CanonicalRoundTrip(s: string)
    requires IsCanonical(s)
    ensures Decimal(Numeral(s)) == s && (s != "0" ==> Numeral(s) > 0)
  {
    var n := |s| - 1;
    var init := s[..n];
    DigitOf(s[n], Numeral(init));
    assert s == init + [s[n]];
    if n > 0 {
      assert init != "0" ==> init[0] == s[0];
      CanonicalRoundTrip(init);
    } else {
      assert init == "" && Numeral(init) == 0;
    }
  }

  /** A numeral consists of digits, after an optional minus sign. */
  lemma SignedShape(n: int)
    ensures |Signed(n)| > 0
    ensures Signed(n)[0] == '-' <==> n < 0
    ensures forall i :: 0 <= i < |Signed(n)| ==> IsDigit(Signed(n)[i]) || Signed(n)[i] == '-'
  {
    DecimalRoundTrip(if n < 0 then -n else n);
    assert n >= 0 ==> IsDigit(Signed(n)[0]);
  }

  lemma SignedInjective(m: int, n: int)
    requires Signed(m) == Signed(n)
    ensures m == n
  {
    SignedShape(m);
    SignedShape(n);
    DecimalRoundTrip(if m < 0 then -m else m);
    DecimalRoundTrip(if n < 0 then -n else n);
    if n < 0 {
      assert Signed(m)[1..] == Decimal(-m) && Signed(n)[1..] == Decimal(-n);
    }
  }

  predicate IsNumeral(s: string) {
    IsDigits(s) || (|s| > 1 && s[0] == '-' && IsDigits(s[1..]))
  }

  /** The number a numeral stands for. */
  function BigIntOf(s: string): int
    requires IsNumeral(s)
  {
    if IsDigits(s) then Numeral(s) else var n: int := Numeral(s[1..]); -n
  }

  lemma SignedRoundTrip(n: int)
    ensures IsNumeral(Signed(n)) && BigIntOf(Signed(n)) == n
  {
    DecimalRoundTrip(if n < 0 then -n else n);
    if n < 0 {
      assert Signed(n)[1..] == Decimal(-n);
      assert !IsDigit(Signed(n)[0]);
    }
  }

  // ---------------------------------------------------------------- parts

  /** One more character in front of the first part. */
  function Grow(c: char, parts: seq<string>): seq<string>
    requires parts != []
  {
    if c == '|' then [""] + parts else [[c] + parts[0]] + parts[1..]
  }

  /** The pieces of a text between its bars. */
  function Parts(s: string): (parts: seq<string>)
    ensures parts != []
  {
    if s == "" then [""] else Grow(s[0], Parts(s[1..]))
  }

  lemma GrowConcat(c: char, a: seq<string>, b: seq<string>)
    requires a != []
    ensures Grow(c, a + b) == Grow(c, a) + b
  {
    assert (a + b)[0] == a[0] && (a + b)[1..] == a[1..] + b;
  }

  lemma {:induction false} PartsConcat(x: string, y: string)
    ensures Parts(x + ("|" + y)) == Parts(x) + Parts(y)
  {
    if x == "" {
      assert x + ("|" + y) == "|" + y && ("|" + y)[1..] == y;
    } else {
      PartsConcat(x[1..], y);
      assert (x + ("|" + y))[1..] == x[1..] + ("|" + y);
      GrowConcat(x[0], Parts(x[1..]), Parts(y));
    }
  }

  lemma {:induction false} PartsOne(x: string)
    requires '|' !in x
    ensures Parts(x) == [x]
  {
    if x != "" {
      PartsOne(x[1..]);
      assert [x[0]] + x[1..] == x;
    }
  }
}
