/** The 64-bit similarity fingerprint of outbound texts, and the distance between two of them. */
module Fingerprint {
  import opened Bits
  import opened Strings

  // ---------------------------------------------------------------- similarity

  /** The number of bits in which two fingerprints differ. */
  function Distance(left: string, right: string): nat
    requires IsFingerprint(left) && IsFingerprint(right)
  {
    PopCount(Xor(HexValue(left), HexValue(right)))
  }

  lemma DistanceBound(left: string, right: string)
    requires IsFingerprint(left) && IsFingerprint(right)
    ensures Distance(left, right) <= 64
  {
    HexBound(left);
    HexBound(right);
    PowersAgree(16);
    XorBound(HexValue(left), HexValue(right), 64);
    PopCountBound(Xor(HexValue(left), HexValue(right)), 64);
  }

  lemma DistanceDiffers(left: string, right: string)
    requires IsFingerprint(left) && IsFingerprint(right)
    ensures Distance(left, right) == Differing(HexValue(left), HexValue(right), 64)
  {
    HexBound(left);
    HexBound(right);
    PowersAgree(16);
    DistanceCounts(HexValue(left), HexValue(right), 64);
  }

  /** `fingerprintSimilarityPercent`: the loop runs once per differing bit. */
  method SimilarityPercent(left: string, right: string) returns (percent: real)
    ensures !IsFingerprint(left) || !IsFingerprint(right) ==> percent == 0.0
    ensures IsFingerprint(left) && IsFingerprint(right) ==>
              && percent == (64 - Distance(left, right)) as real / 64.0 * 100.0
              && percent == (64 - Differing(HexValue(left), HexValue(right), 64)) as real / 64.0 * 100.0
              && 0.0 <= percent <= 100.0
              && (percent == 100.0 <==> HexValue(left) == HexValue(right))
  {
    if !IsFingerprint(left) || !IsFingerprint(right) { return 0.0; }
    var difference, differentBits := Xor(HexValue(left), HexValue(right)), 0;
    while difference != 0
      invariant differentBits + PopCount(difference) == Distance(left, right)
      decreases PopCount(difference)
    {
      ClearLowestBit(difference);
      difference := And(difference, difference - 1);
      differentBits := differentBits + 1;
    }
    DistanceBound(left, right);
    DistanceDiffers(left, right);
    NoDifferenceIff(HexValue(left), HexValue(right));
    percent := (64 - differentBits) as real / 64.0 * 100.0;
  }

  /** Similarity does not depend on the order of its arguments. */
  lemma DistanceSymmetric(left: string, right: string)
    requires IsFingerprint(left) && IsFingerprint(right)
    ensures Distance(left, right) == Distance(right, left)
  {
    XorSymmetric(HexValue(left), HexValue(right));
  }

  // ---------------------------------------------------------------- creation

  /** The bits of a digest count from the highest bit of its first byte. */
  predicate DigestBit(digest: seq<Byte>, bit: nat)
    requires |digest| == 32 && bit < 64
  {
    And(digest[bit / 8], Pow2(7 - bit % 8)) != 0
  }

  ghost predicate DigestSized(digest: string -> seq<Byte>) {
    forall s :: |digest(s)| == 32
  }

  function Vote(digest: string -> seq<Byte>, text: string, bit: nat): int
    requires |digest(text)| == 32 && bit < 64
  {
    if DigestBit(digest(text), bit) then 1 else -1
  }

  /** The trigrams of a text, with repetitions. */
  function Trigrams(s: string): (r: seq<string>)
    ensures |r| == if |s| < 3 then 0 else |s| - 2
  {
    if |s| < 3 then [] else seq(|s| - 2, i requires 0 <= i < |s| - 2 => s[i..i + 3])
  }

  /** The votes of all trigrams on one bit. */
  ghost function Tally(digest: string -> seq<Byte>, texts: seq<string>, bit: nat): int
    requires DigestSized(digest) && bit < 64
  {
    if texts == [] then 0
    else Tally(digest, texts[..|texts| - 1], bit) + Vote(digest, texts[|texts| - 1], bit)
  }

  // ---------------------------------------------------------------- majorities

  /** Bit k of a number. */
  predicate BitSet(n: nat, k: nat) {
    (n / Pow2(k)) % 2 == 1
  }

  /** The first 64 bits of a digest. */
  function FirstBits(digest: seq<Byte>): nat
    requires |digest| == 32
  {
    BigEndian(digest[..8])
  }

  /** How many of the first n stretches of three characters have bit k set in their digest. */
  ghost function Supporters(digest: string -> seq<Byte>, text: string, k: nat, n: nat): nat
    requires DigestSized(digest) && (n == 0 || n + 2 <= |text|)
  {
    if n == 0 then 0
    else Supporters(digest, text, k, n - 1) + if BitSet(FirstBits(digest(text[n - 1..n + 2])), k) then 1 else 0
  }

  lemma DigestBitIs(digest: seq<Byte>, k: nat)
    requires |digest| == 32 && k < 64
    ensures DigestBit(digest, 63 - k) <==> BitSet(FirstBits(digest), k)
  {
    var bit := 63 - k;
    MaskReadsBit(digest[bit / 8], 7 - bit % 8);
    BytesBit(digest[..8], bit);
    assert digest[..8][bit / 8] == digest[bit / 8];
    BitIsQuotient(FirstBits(digest), k);
  }

  lemma {:induction false} TallyCounts(digest: string -> seq<Byte>, text: string, k: nat, n: nat)
    requires DigestSized(digest) && k < 64 && (n == 0 || n + 2 <= |text|)
    ensures n <= |Trigrams(text)|
    ensures Tally(digest, Trigrams(text)[..n], 63 - k) == 2 * Supporters(digest, text, k, n) - n
  {
    if n > 0 {
      TallyCounts(digest, text, k, n - 1);
      assert Trigrams(text)[..n][..n - 1] == Trigrams(text)[..n - 1];
      DigestBitIs(digest(text[n - 1..n + 2]), k);
    }
  }

  /** The vote on a bit is not lost exactly if at least half of the stretches support it. */
  lemma MajorityIff(digest: string -> seq<Byte>, text: string, k: nat)
    requires DigestSized(digest) && k < 64 && |text| >= 3
    ensures Tally(digest, Trigrams(text), 63 - k) >= 0 <==> 2 * Supporters(digest, text, k, |text| - 2) >= |text| - 2
  {
    TallyCounts(digest, text, k, |text| - 2);
    assert Trigrams(text)[..|text| - 2] == Trigrams(text);
  }

  datatype Feature = Feature(text: string, count: nat)

  ghost function WeightedTally(digest: string -> seq<Byte>, features: seq<Feature>, bit: nat): int
    requires DigestSized(digest) && bit < 64
  {
    if features == [] then 0
    else
      var f := features[|features| - 1];
      WeightedTally(digest, features[..|features| - 1], bit) + f.count * Vote(digest, f.text, bit)
  }

  lemma {:induction false} CountOneMore(digest: string -> seq<Byte>, features: seq<Feature>, i: nat, bit: nat)
    requires DigestSized(digest) && bit < 64 && i < |features|
    ensures var f := features[i];
            WeightedTally(digest, features[i := f.(count := f.count + 1)], bit)
            == WeightedTally(digest, features, bit) + Vote(digest, f.text, bit)
  {
    var n, f := |features| - 1, features[i];
    var after := features[i := f.(count := f.count + 1)];
    if i < n {
      CountOneMore(digest, features[..n], i, bit);
      assert after[..n] == features[..n][i := f.(count := f.count + 1)];
    } else {
      assert after[..n] == features[..n];
    }
  }

  lemma CountNew(digest: string -> seq<Byte>, features: seq<Feature>, text: string, bit: nat)
    requires DigestSized(digest) && bit < 64
    ensures WeightedTally(digest, features + [Feature(text, 1)], bit)
         == WeightedTally(digest, features, bit) + Vote(digest, text, bit)
  {
    assert (features + [Feature(text, 1)])[..|features|] == features;
  }

  method FindFeature(features: seq<Feature>, text: string) returns (r: Option<nat>)
    ensures r.Some? ==> r.value < |features| && features[r.value].text == text
    ensures r.None? ==> forall f :: f in features ==> f.text != text
  {
    for i := 0 to |features|
      invariant forall k :: 0 <= k < i ==> features[k].text != text
    {
      if features[i].text == text { return Some(i); }
    }
    return None;
  }

  /** Counting equal trigrams first does not change any vote. */
  method CollectFeatures(padded: string, ghost digest: string -> seq<Byte>) returns (features: seq<Feature>)
    requires DigestSized(digest)
    ensures forall bit: nat :: bit < 64 ==> WeightedTally(digest, features, bit) == Tally(digest, Trigrams(padded), bit)
  {
    features := [];
    var texts := Trigrams(padded);
    for i := 0 to |texts|
      invariant forall bit: nat :: bit < 64 ==> WeightedTally(digest, features, bit) == Tally(digest, texts[..i], bit)
    {
      var found := FindFeature(features, texts[i]);
      ghost var before := features;
      assert texts[..i + 1][..i] == texts[..i];
      match found {
        case Some(k) =>
          forall bit: nat | bit < 64
            ensures WeightedTally(digest, before[k := before[k].(count := before[k].count + 1)], bit)
                 == WeightedTally(digest, before, bit) + Vote(digest, texts[i], bit)
          {
            CountOneMore(digest, before, k, bit);
          }
          features := features[k := features[k].(count := features[k].count + 1)];
        case None =>
          forall bit: nat | bit < 64
            ensures WeightedTally(digest, before + [Feature(texts[i], 1)], bit)
                 == WeightedTally(digest, before, bit) + Vote(digest, texts[i], bit)
          {
            CountNew(digest, before, texts[i], bit);
          }
          features := features + [Feature(texts[i], 1)];
      }
    }
    assert texts[..|texts|] == texts;
  }

  /** One feature votes, with its count, on all bits. */
  method AddVotes(weights: array<int>, f: Feature, digest: string -> seq<Byte>)
    requires DigestSized(digest) && weights.Length == 64
    modifies weights
    ensures forall bit: nat :: bit < 64 ==> weights[bit] == old(weights[bit]) + f.count * Vote(digest, f.text, bit)
  {
    var d := digest(f.text);
    for bit := 0 to 64
      invariant forall b: nat :: b < bit ==> weights[b] == old(weights[b]) + f.count * Vote(digest, f.text, b)
      invariant forall b: nat :: bit <= b < 64 ==> weights[b] == old(weights[b])
    {
      if DigestBit(d, bit) {
        weights[bit] := weights[bit] + f.count;
      } else {
        weights[bit] := weights[bit] - f.count;
      }
    }
  }

  /** The `weights` array after all features have voted. */
  method AccumulateWeights(features: seq<Feature>, digest: string -> seq<Byte>) returns (weights: array<int>)
    requires DigestSized(digest)
    ensures fresh(weights) && weights.Length == 64
    ensures forall bit: nat :: bit < 64 ==> weights[bit] == WeightedTally(digest, features, bit)
  {
    weights := new int[64](_ => 0);
    for k := 0 to |features|
      invariant forall bit: nat :: bit < 64 ==> weights[bit] == WeightedTally(digest, features[..k], bit)
    {
      assert features[..k + 1][..k] == features[..k];
      AddVotes(weights, features[k], digest);
    }
    assert features[..|features|] == features;
  }

  /** The number whose bits, from the highest, are the signs of the weights. */
  function SignsValue(weights: seq<int>): nat {
    if weights == [] then 0
    else 2 * SignsValue(weights[..|weights| - 1]) + if weights[|weights| - 1] >= 0 then 1 else 0
  }

  lemma Halves(v: nat, b: nat)
    requires b < 2
    ensures (2 * v + b) / 2 == v && (2 * v + b) % 2 == b
  {
  }

  lemma {:induction false} SignsBit(weights: seq<int>, i: nat)
    requires i < |weights|
    ensures BitAt(SignsValue(weights), |weights| - 1 - i) <==> weights[i] >= 0
  {
    var n := |weights| - 1;
    var init := weights[..n];
    Halves(SignsValue(init), if weights[n] >= 0 then 1 else 0);
    if i < n {
      SignsBit(init, i);
      assert init[i] == weights[i] && n - i - 1 == |init| - 1 - i;
    }
  }

  lemma {:induction false} SignsBound(weights: seq<int>)
    ensures SignsValue(weights) < Pow2(|weights|)
  {
    if weights != [] { SignsBound(weights[..|weights| - 1]); }
  }

  lemma {:induction false} OrZero(a: nat)
    ensures Or(a, 0) == a
  {
    if a != 0 { OrZero(a / 2); }
  }

  /** Setting a bit below all set bits adds it. */
  lemma {:induction false} OrLowBit(q: nat, k: nat)
    ensures Or(q * Pow2(k + 1), Pow2(k)) == q * Pow2(k + 1) + Pow2(k)
  {
    var a, b := q * Pow2(k + 1), Pow2(k);
    var half := q * Pow2(k);
    assert a == 2 * half by { Twice(q, Pow2(k)); }
    if k == 0 {
      OrZero(half);
    } else {
      OrLowBit(q, k - 1);
      assert b == 2 * Pow2(k - 1);
      assert Or(a, b) == 2 * Or(half, Pow2(k - 1));
    }
  }

  lemma Twice(q: nat, p: nat)
    ensures q * (2 * p) == 2 * (q * p) == (2 * q) * p
    ensures (2 * q + 1) * p == 2 * (q * p) + p
  {
  }

  /** One round of packing: shift the value up, and set the next bit or not. */
  lemma PackStep(q: nat, k: nat)
    ensures q * Pow2(k + 1) == (2 * q) * Pow2(k)
    ensures Or(q * Pow2(k + 1), Pow2(k)) == (2 * q + 1) * Pow2(k)
  {
    OrLowBit(q, k);
    Twice(q, Pow2(k));
  }

  /** The loop that sets bit `63 - bit` where the weight is not negative. */
  method PackSigns(weights: array<int>) returns (fingerprint: nat)
    ensures fingerprint == SignsValue(weights[..])
  {
    fingerprint := 0;
    var n := weights.Length;
    for bit := 0 to n
      invariant fingerprint == SignsValue(weights[..bit]) * Pow2(n - bit)
    {
      assert weights[..bit + 1][..bit] == weights[..bit];
      PackStep(SignsValue(weights[..bit]), n - 1 - bit);
      if weights[bit] >= 0 {
        fingerprint := Or(fingerprint, Pow2(n - 1 - bit));
      }
    }
    assert weights[..n] == weights[..];
  }

  /**
   `createSimilarityFingerprint` on a normalised text: 16 hexadecimal digits whose bits are
   the majority votes of all its trigrams.
   */
  method CreateFingerprint(normalized: string, digest: string -> seq<Byte>) returns (r: Option<string>)
    requires DigestSized(digest)
    ensures r.None? <==> normalized == ""
    ensures r.Some? ==>
              && IsFingerprint(r.value)
              && forall bit: nat :: bit < 64 ==>
                   (BitAt(HexValue(r.value), 63 - bit)
                    <==> Tally(digest, Trigrams("  " + normalized + "  "), bit) >= 0)
    ensures r.Some? ==>
              var padded := "  " + normalized + "  ";
              forall k: nat :: k < 64 ==>
                (BitSet(HexValue(r.value), k) <==> 2 * Supporters(digest, padded, k, |padded| - 2) >= |padded| - 2)
    ensures r.Some? ==> forall i :: 0 <= i < 16 ==> '0' <= r.value[i] <= '9' || 'a' <= r.value[i] <= 'f'
  {
    if normalized == "" { return None; }
    var features := CollectFeatures("  " + normalized + "  ", digest);
    var weights := AccumulateWeights(features, digest);
    var fingerprint := PackSigns(weights);
    VotesReadBack(weights[..]);
    r := Some(PadStart(Hex(fingerprint), 16));
    LowerCaseDigits(fingerprint, 16);
    BitsReadBack(r.value, "  " + normalized + "  ", digest);
  }

  lemma BitsReadBack(stored: string, padded: string, digest: string -> seq<Byte>)
    requires DigestSized(digest) && IsFingerprint(stored) && |padded| >= 3
    requires forall bit: nat :: bit < 64 ==>
               (BitAt(HexValue(stored), 63 - bit) <==> Tally(digest, Trigrams(padded), bit) >= 0)
    ensures forall k: nat :: k < 64 ==>
              (BitSet(HexValue(stored), k) <==> 2 * Supporters(digest, padded, k, |padded| - 2) >= |padded| - 2)
  {
    forall k: nat | k < 64
      ensures BitSet(HexValue(stored), k) <==> 2 * Supporters(digest, padded, k, |padded| - 2) >= |padded| - 2
    {
      MajorityIff(digest, padded, k);
      BitIsQuotient(HexValue(stored), k);
      assert BitAt(HexValue(stored), 63 - (63 - k)) <==> Tally(digest, Trigrams(padded), 63 - k) >= 0;
    }
  }

  /** For any number of digits: the stored form reads back to the signs. */
  lemma SignsReadBack(weights: seq<int>, k: nat, bit: nat)
    requires k > 0 && |weights| == 4 * k && bit < |weights|
    ensures var stored := PadStart(Hex(SignsValue(weights)), k);
            && |stored| == k && AllHex(stored)
            && (BitAt(HexValue(stored), |weights| - 1 - bit) <==> weights[bit] >= 0)
  {
    SignsBound(weights);
    StoredFormRoundTrip(SignsValue(weights), k);
    SignsBit(weights, bit);
  }

  lemma VotesReadBack(weights: seq<int>)
    requires |weights| == 64
    ensures IsFingerprint(PadStart(Hex(SignsValue(weights)), 16))
    ensures forall bit: nat :: bit < 64 ==>
              (BitAt(HexValue(PadStart(Hex(SignsValue(weights)), 16)), 63 - bit) <==> weights[bit] >= 0)
  {
    SignsReadBack(weights, 16, 0);
    forall bit: nat | bit < 64
      ensures BitAt(HexValue(PadStart(Hex(SignsValue(weights)), 16)), 63 - bit) <==> weights[bit] >= 0
    {
      SignsReadBack(weights, 16, bit);
    }
  }
}
