/** The uncompressed hash of a word (HashTable.getHashVal): a fold of the
    word's characters into a signed 64-bit accumulator that wraps on overflow,
    reduced at the end with Java's truncating remainder. */
module Hashing {

  /** Multiplier applied to the accumulator at every step. */
  const A: bv64 := 54059
  /** Multiplier applied to each character code. */
  const B: bv64 := 76963
  /** Final modulus; the uncompressed hash lies strictly between -C and C. */
  const C: int := 86969
  /** Initial accumulator value. */
  const Seed: bv64 := 37

  /** 2^63 and 2^64, for reading a 64-bit pattern as a Java long. */
  const TwoTo63: int := 0x8000_0000_0000_0000
  const TwoTo64: int := 0x1_0000_0000_0000_0000

  /** The Java long whose two's-complement bit pattern is h. */
  function ToSigned(h: bv64): (r: int)
    ensures -TwoTo63 <= r < TwoTo63
    ensures r % TwoTo64 == h as int
  {
    var x := h as int;
    assert 0 <= x < TwoTo64;
    if x < TwoTo63 then
      SmallMod(x);
      x
    else
      var r := x - TwoTo64;
      WrapMod(x, r);
      r
  }

  /** A value already in [0, 2^64) is its own residue. */
  lemma SmallMod(x: int)
    requires 0 <= x < TwoTo64
    ensures x % TwoTo64 == x
  {
  }

  /** Subtracting 2^64 once leaves the residue modulo 2^64 unchanged. */
  lemma WrapMod(x: int, r: int)
    requires 0 <= x < TwoTo64 && r == x - TwoTo64
    ensures r % TwoTo64 == x
  {
    assert r == (-1) * TwoTo64 + x;
  }

  /** Java's `/` on integers (section 15.17.2 of the Java Language
      Specification): the quotient is rounded toward zero. */
  function JavaDiv(a: int, b: int): (q: int)
    requires b > 0
    ensures a >= 0 ==> 0 <= a - q * b < b
    ensures a < 0 ==> -b < a - q * b <= 0
  {
    if a >= 0 then a / b else -((-a) / b)
  }

  /** Java's `%` on integers (section 15.17.3 of the Java Language
      Specification): the remainder truncates toward zero, so it takes the
      sign of the dividend and (a / b) * b + a % b == a. Dafny's own `%` is
      Euclidean and differs on negative dividends. */
  function JavaRem(a: int, b: int): (r: int)
    requires b > 0
    ensures -b < r < b
    ensures a >= 0 ==> r >= 0
    ensures a <= 0 ==> r <= 0
    ensures JavaDiv(a, b) * b + r == a
  {
    if a >= 0 then a % b
    else
      var q := (-a) / b;
      assert -a == q * b + (-a) % b;
      assert (-q) * b == -(q * b);
      -((-a) % b)
  }

  /** One step of the fold: ((hash * A) ^ (c * B)) << 5, all in 64 bits, so
      the multiplication and the shift discard the bits that overflow
      (sections 15.17.1 and 15.19 of the Java Language Specification).
      A character's code is its code point. */
  function Step(h: bv64, c: char): (r: bv64)
    ensures r & 31 == 0
  {
    ((h * A) ^ ((c as int as bv64) * B)) << 5
  }

  /** The accumulator after folding every character of w, left to right. */
  function Accumulate(w: string): (r: bv64)
    ensures |w| > 0 ==> r & 31 == 0
  {
    if |w| == 0 then Seed else Step(Accumulate(w[..|w| - 1]), w[|w| - 1])
  }

  /** The uncompressed hash value of a word. It can be negative, because the
      accumulator is read as a signed long before the truncating remainder. */
  function HashVal(w: string): (r: int)
    ensures -C < r < C
    ensures ToSigned(Accumulate(w)) >= 0 ==> r >= 0
    ensures ToSigned(Accumulate(w)) <= 0 ==> r <= 0
    ensures JavaDiv(ToSigned(Accumulate(w)), C) * C + r == ToSigned(Accumulate(w))
  {
    JavaRem(ToSigned(Accumulate(w)), C)
  }

  /** getHashVal as the source writes it: a counted loop over the characters. */
  method GetHashVal(word: string) returns (r: int)
    ensures r == HashVal(word)
    ensures -C < r < C
  {
    var hash := Seed;
    for i := 0 to |word|
      invariant hash == Accumulate(word[..i])
    {
      assert word[..i + 1][..i] == word[..i];
      hash := Step(hash, word[i]);
    }
    assert word[..|word|] == word;
    r := JavaRem(ToSigned(hash), C);
  }

  /** The empty word hashes to the seed, 37. */
  lemma HashOfEmptyWord()
    ensures HashVal("") == 37
  {
  }

  /** A one-letter word: for "a" the accumulator is
      ((37 * 54059) ^ (97 * 76963)) << 5 = 233676416. */
  lemma AccumulateA()
    ensures Accumulate("a") == 233676416
  {
    assert "a"[..0] == "";
    StepA();
  }

  /** One fold step from the seed over 'a' (code 97): 37 * 54059 = 2000183,
      97 * 76963 = 7465411, and their xor shifted left by five. */
  lemma StepA()
    ensures Step(Seed, 'a') == 233676416
  {
    var code := 'a' as int as bv64;
    assert code == 97;
    assert Seed * A == 2000183;
    assert code * B == 7465411;
    assert (2000183 as bv64 ^ 7465411) << 5 == 233676416;
  }

  /** The hash of "a" is 233676416 % 86969 = 77682. */
  lemma HashOfA()
    ensures HashVal("a") == 77682
  {
    AccumulateA();
    assert ToSigned(233676416) == 233676416;
  }
}
