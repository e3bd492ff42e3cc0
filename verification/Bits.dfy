/** Natural numbers bit by bit, and as hexadecimal digits. */
module Bits {
  import opened Strings

  // ---------------------------------------------------------------- bits of natural numbers

  function Pow2(k: nat): (r: nat)
    ensures r > 0
  {
    if k == 0 then 1 else 2 * Pow2(k - 1)
  }

  /** Bitwise and. */
  function And(a: nat, b: nat): nat {
    if a == 0 || b == 0 then 0 else (a % 2) * (b % 2) + 2 * And(a / 2, b / 2)
  }

  /** Bitwise exclusive or. */
  function Xor(a: nat, b: nat): nat
    decreases a + b
  {
    if a == 0 && b == 0 then 0 else (if a % 2 == b % 2 then 0 else 1) + 2 * Xor(a / 2, b / 2)
  }

  /** Bitwise or. */
  function Or(a: nat, b: nat): nat
    decreases a + b
  {
    if a == 0 && b == 0 then 0 else (if a % 2 == 0 && b % 2 == 0 then 0 else 1) + 2 * Or(a / 2, b / 2)
  }

  function PopCount(n: nat): nat {
    if n == 0 then 0 else n % 2 + PopCount(n / 2)
  }

  lemma {:induction false} AndSelf(a: nat)
    ensures And(a, a) == a
  {
    if a != 0 { AndSelf(a / 2); }
  }

  /** Masking a number with its predecessor clears exactly one bit. */
  lemma {:induction false} ClearLowestBit(d: nat)
    requires d > 0
    ensures PopCount(And(d, d - 1)) == PopCount(d) - 1
  {
    var e := d / 2;
    if d == 1 {
    } else if d % 2 == 1 {
      AndSelf(e);
      assert (d - 1) % 2 == 0 && (d - 1) / 2 == e;
      EvenCount(e);
    } else {
      ClearLowestBit(e);
      assert (d - 1) % 2 == 1 && (d - 1) / 2 == e - 1;
      EvenCount(And(e, e - 1));
    }
  }

  lemma EvenCount(n: nat)
    ensures PopCount(2 * n) == PopCount(n)
  {
    assert (2 * n) / 2 == n && (2 * n) % 2 == 0;
  }

  lemma {:induction false} PopCountBound(n: nat, k: nat)
    requires n < Pow2(k)
    ensures PopCount(n) <= k
  {
    if n > 0 { PopCountBound(n / 2, k - 1); }
  }

  lemma {:induction false} XorBound(a: nat, b: nat, k: nat)
    requires a < Pow2(k) && b < Pow2(k)
    ensures Xor(a, b) < Pow2(k)
  {
    if k > 0 { XorBound(a / 2, b / 2, k - 1); }
  }

  lemma {:induction false} XorSymmetric(a: nat, b: nat)
    ensures Xor(a, b) == Xor(b, a)
    decreases a + b
  {
    if a > 0 || b > 0 { XorSymmetric(a / 2, b / 2); }
  }

  /** The number of differing bits is 0 only for equal values. */
  lemma {:induction false} NoDifferenceIff(a: nat, b: nat)
    ensures PopCount(Xor(a, b)) == 0 <==> a == b
    decreases a + b
  {
    if a > 0 || b > 0 {
      NoDifferenceIff(a / 2, b / 2);
      PopCountStep(a, b);
    }
  }

  /** Differing bits, one position at a time. */
  lemma PopCountStep(a: nat, b: nat)
    ensures PopCount(Xor(a, b)) == (if a % 2 == b % 2 then 0 else 1) + PopCount(Xor(a / 2, b / 2))
  {
    var x := Xor(a / 2, b / 2);
    if a > 0 || b > 0 {
      assert Xor(a, b) / 2 == x;
    }
  }

  lemma {:induction false} DistanceTriangle(a: nat, b: nat, c: nat)
    ensures PopCount(Xor(a, c)) <= PopCount(Xor(a, b)) + PopCount(Xor(b, c))
    decreases a + b + c
  {
    if a > 0 || b > 0 || c > 0 {
      DistanceTriangle(a / 2, b / 2, c / 2);
      PopCountStep(a, b);
      PopCountStep(b, c);
      PopCountStep(a, c);
    }
  }

  // ---------------------------------------------------------------- hexadecimal

  predicate AllHex(s: string) {
    forall i :: 0 <= i < |s| ==> IsHexDigit(s[i])
  }

  /** Sixteen hexadecimal digits in either case. */
  predicate IsFingerprint(s: string) {
    |s| == 16 && AllHex(s)
  }

  /** The number that hexadecimal digits stand for. */
  function HexValue(s: string): nat
    requires AllHex(s)
  {
    if s == "" then 0
    else
      assert IsHexDigit(s[|s| - 1]);
      HexValue(s[..|s| - 1]) * 16 + HexDigitValue(s[|s| - 1])
  }

  /** A number in hexadecimal. */
  function Hex(n: nat): string {
    if n < 16 then [HexDigit(n)] else Hex(n / 16) + [HexDigit(n % 16)]
  }

  function Zeros(n: nat): string {
    if n == 0 then "" else ['0'] + Zeros(n - 1)
  }

  /** Leading zeros up to the given width. */
  function PadStart(s: string, width: nat): string {
    if |s| >= width then s else Zeros(width - |s|) + s
  }

  function Pow16(k: nat): (r: nat)
    ensures r > 0
  {
    if k == 0 then 1 else 16 * Pow16(k - 1)
  }

  lemma {:induction false} HexRoundTrip(n: nat, k: nat)
    requires k > 0 && n < Pow16(k)
    ensures AllHex(Hex(n))
    ensures HexValue(Hex(n)) == n && 0 < |Hex(n)| <= k
  {
    HexDigitReads(n % 16);
    if n >= 16 {
      assert k > 1 by { assert Pow16(1) == 16 * Pow16(0); }
      HexRoundTrip(n / 16, k - 1);
      assert Hex(n)[..|Hex(n)| - 1] == Hex(n / 16);
    } else {
      assert Hex(n)[..0] == "";
    }
  }

  lemma {:induction false} LeadingZero(s: string)
    requires AllHex(s)
    ensures AllHex(['0'] + s)
    ensures HexValue(['0'] + s) == HexValue(s)
  {
    var z := ['0'] + s;
    if s == "" {
      assert z[..0] == "" && HexDigitValue(z[0]) == 0;
    } else {
      LeadingZero(s[..|s| - 1]);
      assert z[..|z| - 1] == ['0'] + s[..|s| - 1];
      assert z[|z| - 1] == s[|s| - 1];
    }
  }

  lemma {:induction false} ZerosKeepValue(n: nat, s: string)
    requires AllHex(s)
    ensures |Zeros(n)| == n
    ensures AllHex(Zeros(n) + s)
    ensures HexValue(Zeros(n) + s) == HexValue(s)
  {
    if n == 0 {
      assert Zeros(0) + s == s;
    } else {
      ZerosKeepValue(n - 1, s);
      LeadingZero(Zeros(n - 1) + s);
      Assoc(['0'], Zeros(n - 1), s);
    }
  }

  lemma PaddedRoundTrip(n: nat, k: nat)
    requires k > 0 && n < Pow16(k)
    ensures |PadStart(Hex(n), k)| == k
    ensures AllHex(PadStart(Hex(n), k))
    ensures HexValue(PadStart(Hex(n), k)) == n
  {
    HexRoundTrip(n, k);
    ZerosKeepValue(k - |Hex(n)|, Hex(n));
    assert Zeros(0) + Hex(n) == Hex(n);
  }

  /** The stored form of a value of 4k bits has k digits and reads back as the value. */
  lemma StoredFormRoundTrip(n: nat, k: nat)
    requires k > 0 && n < Pow2(4 * k)
    ensures |PadStart(Hex(n), k)| == k
    ensures AllHex(PadStart(Hex(n), k))
    ensures HexValue(PadStart(Hex(n), k)) == n
  {
    PowersAgree(k);
    PaddedRoundTrip(n, k);
  }

  lemma {:induction false} PowersAgree(k: nat)
    ensures Pow16(k) == Pow2(4 * k)
  {
    if k > 0 {
      PowersAgree(k - 1);
      var j := 4 * (k - 1);
      assert Pow2(j + 4) == 2 * Pow2(j + 3) == 4 * Pow2(j + 2) == 8 * Pow2(j + 1) == 16 * Pow2(j);
    }
  }

  lemma {:induction false} HexBound(s: string)
    requires AllHex(s)
    ensures HexValue(s) < Pow16(|s|)
  {
    if s != "" { HexBound(s[..|s| - 1]); }
  }

  predicate LowerHex(s: string) {
    forall i :: 0 <= i < |s| ==> '0' <= s[i] <= '9' || 'a' <= s[i] <= 'f'
  }

  lemma {:induction false} HexIsLower(n: nat)
    ensures LowerHex(Hex(n))
  {
    if n >= 16 { HexIsLower(n / 16); }
  }

  lemma {:induction false} ZerosAreLower(n: nat)
    ensures LowerHex(Zeros(n))
  {
    if n > 0 { ZerosAreLower(n - 1); }
  }

  /** The stored form has digits and lower-case letters. */
  lemma LowerCaseDigits(n: nat, width: nat)
    ensures LowerHex(PadStart(Hex(n), width))
  {
    HexIsLower(n);
    if |Hex(n)| < width { ZerosAreLower(width - |Hex(n)|); }
  }

  /** Hexadecimal digits have the values 0 to 15, in either case, and count sixteenfold to the left. */
  lemma HexPlaces(s: string, c: char)
    requires AllHex(s) && IsHexDigit(c)
    ensures AllHex(s + [c])
    ensures HexValue(s + [c]) == 16 * HexValue(s) + if c <= '9' then c as int - 48
                                                    else if c <= 'F' then c as int - 55 else c as int - 87
  {
    assert (s + [c])[..|s|] == s;
  }

  // ---------------------------------------------------------------- single bits

  predicate BitAt(n: nat, k: nat) {
    if k == 0 then n % 2 == 1 else BitAt(n / 2, k - 1)
  }

  /** Bit k is the parity of the number divided by the k-th power of two. */
  lemma {:induction false} BitIsQuotient(n: nat, k: nat)
    ensures BitAt(n, k) <==> (n / Pow2(k)) % 2 == 1
  {
    if k > 0 {
      BitIsQuotient(n / 2, k - 1);
      DivideTwice(n, Pow2(k - 1));
    }
  }

  lemma DivideTwice(n: nat, p: nat)
    requires p > 0
    ensures n / (2 * p) == (n / 2) / p
  {
    var q, r := (n / 2) / p, (n / 2) % p;
    assert n / 2 == q * p + r && n == 2 * (n / 2) + n % 2;
    assert n == q * (2 * p) + (2 * r + n % 2) && 2 * r + n % 2 < 2 * p by { MulTwo(q, p); }
    QuotientIs(n, 2 * p, q, 2 * r + n % 2);
  }

  lemma MulTwo(q: nat, p: nat)
    ensures q * (2 * p) == 2 * (q * p)
  {
  }

  lemma NextMultiple(a: nat, b: nat, d: nat)
    requires a < b
    ensures a * d + d <= b * d
  {
    var c := b - a - 1;
    assert b * d == (a + 1 + c) * d == a * d + d + c * d;
  }

  lemma QuotientIs(n: nat, d: nat, q: nat, r: nat)
    requires d > 0 && n == q * d + r && r < d
    ensures n / d == q
  {
    var q' := n / d;
    assert q' * d <= n < q' * d + d by { assert n == d * q' + n % d; }
    if q' < q {
      NextMultiple(q', q, d);
    } else if q < q' {
      NextMultiple(q, q', d);
    }
  }

  /** Masking with a power of two reads one bit. */
  lemma {:induction false} MaskReadsBit(n: nat, k: nat)
    ensures And(n, Pow2(k)) != 0 <==> BitAt(n, k)
  {
    if n == 0 {
      NoBits(k);
    } else if k > 0 {
      MaskReadsBit(n / 2, k - 1);
      assert Pow2(k) % 2 == 0 && Pow2(k) / 2 == Pow2(k - 1);
    } else {
      assert And(n, 1) == n % 2 + 2 * And(n / 2, 0);
    }
  }

  lemma {:induction false} NoBits(k: nat)
    ensures !BitAt(0, k)
  {
    if k > 0 { NoBits(k - 1); }
  }

  /** In how many of the n lowest bits two numbers differ. */
  function Differing(a: nat, b: nat, n: nat): nat {
    if n == 0 then 0 else Differing(a, b, n - 1) + if BitAt(a, n - 1) != BitAt(b, n - 1) then 1 else 0
  }

  lemma {:induction false} DifferingHalves(a: nat, b: nat, n: nat)
    ensures Differing(a, b, n + 1) == (if a % 2 == b % 2 then 0 else 1) + Differing(a / 2, b / 2, n)
  {
    if n > 0 {
      DifferingHalves(a, b, n - 1);
    } else {
      assert Differing(a, b, 0) == 0;
    }
  }

  /** Counting the set bits of the exclusive or counts the bits that differ. */
  lemma {:induction false} DistanceCounts(a: nat, b: nat, n: nat)
    requires a < Pow2(n) && b < Pow2(n)
    ensures PopCount(Xor(a, b)) == Differing(a, b, n)
  {
    if n > 0 {
      DistanceCounts(a / 2, b / 2, n - 1);
      PopCountStep(a, b);
      DifferingHalves(a, b, n - 1);
    }
  }

  // ---------------------------------------------------------------- bytes

  type Byte = n: nat | n < 256

  /** The number that bytes stand for, the first being the highest. */
  function BigEndian(bytes: seq<Byte>): nat {
    if bytes == [] then 0 else BigEndian(bytes[..|bytes| - 1]) * 256 + bytes[|bytes| - 1]
  }

  lemma {:induction false} LowBits(v: nat, b: nat, w: nat, k: nat)
    requires b < Pow2(w) && k < w
    ensures BitAt(v * Pow2(w) + b, k) <==> BitAt(b, k)
  {
    ShiftedHalf(v, b, w);
    if k > 0 { LowBits(v, b / 2, w - 1, k - 1); }
  }

  lemma {:induction false} HighBits(v: nat, b: nat, w: nat, k: nat)
    requires b < Pow2(w)
    ensures BitAt(v * Pow2(w) + b, w + k) <==> BitAt(v, k)
  {
    if w > 0 {
      ShiftedHalf(v, b, w);
      HighBits(v, b / 2, w - 1, k);
    } else {
      assert v * Pow2(0) + b == v;
    }
  }

  lemma ShiftedHalf(v: nat, b: nat, w: nat)
    requires w > 0 && b < Pow2(w)
    ensures (v * Pow2(w) + b) / 2 == v * Pow2(w - 1) + b / 2 && (v * Pow2(w) + b) % 2 == b % 2 && b / 2 < Pow2(w - 1)
  {
    MulTwo(v, Pow2(w - 1));
    assert v * Pow2(w) + b == 2 * (v * Pow2(w - 1)) + b;
  }

  /** Bit i from the top of a sequence of bytes is bit i modulo 8 from the top of byte i / 8. */
  lemma {:induction false} BytesBit(bytes: seq<Byte>, i: nat)
    requires i < 8 * |bytes|
    ensures BitAt(BigEndian(bytes), 8 * |bytes| - 1 - i) <==> BitAt(bytes[i / 8], 7 - i % 8)
  {
    var n := |bytes| - 1;
    var init, last := bytes[..n], bytes[n];
    assert Pow2(8) == 256 by { assert Pow2(4) == 16; }
    if i < 8 * n {
      BytesBit(init, i);
      HighBits(BigEndian(init), last, 8, 8 * n - 1 - i);
      assert init[i / 8] == bytes[i / 8];
    } else {
      LowBits(BigEndian(init), last, 8, 7 - i % 8);
      assert i / 8 == n && 8 * |bytes| - 1 - i == 7 - i % 8;
    }
  }
}
