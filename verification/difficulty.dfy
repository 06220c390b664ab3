/**
 * The proof-of-work condition. Minting and verifying phrase "the first
 * `bits` bits of the SHA-1 digest are zero" in two different ways; both
 * are modelled as written and shown to mean the same thing.
 */
module Difficulty {
  import opened Wrappers
  import opened RubyText

  const DigestBits: nat := 160

  /** A SHA-1 digest as its 160 bits, most significant first (the order of `unpack('B*')`). */
  type Digest = s: seq<bool> | |s| == DigestBits witness seq(DigestBits, i => false)

  /** The digest function; SHA-1 itself is not modelled. */
  type Hash = string -> Digest

  /** The first `n` bits of the digest are zero (all 160 of them when `n` exceeds 160). */
  predicate ZeroPrefix(d: Digest, n: int) {
    forall i :: 0 <= i < n && i < |d| ==> !d[i]
  }

  /** `unpack('B*')[0]`: the bits as a string of `'0'` and `'1'` characters. */
  function BitString(s: seq<bool>): (r: string)
    ensures |r| == |s|
  {
    if s == [] then [] else [if s[0] then '1' else '0'] + BitString(s[1..])
  }

  /** The mint-side test: `digest.unpack('B*')[0][0, bits].to_i == 0`. */
  predicate MintTest(d: Digest, bits: int) {
    ToIOpt(Slice(BitString(d), 0, bits)) == 0
  }

  function Pow2(k: nat): (p: nat)
    ensures p >= 1
  {
    if k == 0 then 1 else 2 * Pow2(k - 1)
  }

  /** The value of a bit sequence read as a binary numeral, most significant bit first. */
  function BitsValue(s: seq<bool>): nat
  {
    if s == [] then 0 else 2 * BitsValue(s[..|s| - 1]) + (if s[|s| - 1] then 1 else 0)
  }

  /** Ruby's `Integer#>>`; a negative count shifts to the left. */
  function ShiftRight(x: nat, k: int): int
  {
    if k >= 0 then x / Pow2(k) else x * Pow2(-k)
  }

  /** The verify-side test: `hexdigest.hex >> (160 - bits) == 0`. */
  predicate VerifyTest(d: Digest, bits: int) {
    ShiftRight(BitsValue(d), DigestBits - bits) == 0
  }

  // ---- Lemmas ----

  lemma {:induction false} BitStringAt(s: seq<bool>, i: nat)
    requires i < |s|
    ensures BitString(s)[i] == if s[i] then '1' else '0'
  {
    if i > 0 {
      BitStringAt(s[1..], i - 1);
    }
  }

  /** The mint-side test holds exactly when the first `bits` bits are zero. */
  lemma MintTestZeroPrefix(d: Digest, bits: int)
    ensures MintTest(d, bits) <==> ZeroPrefix(d, bits)
  {
    if bits >= 0 {
      var b := BitString(d);
      var m := if bits <= |b| then bits else |b|;
      var t := b[0..m];
      assert Slice(b, 0, bits) == Some(t);
      forall i | 0 <= i < m
        ensures t[i] == if d[i] then '1' else '0'
      {
        BitStringAt(d, i);
      }
      assert AllDigits(t);
      ToIOfDigits(t);
      NatValueZero(t);
    }
  }

  lemma {:induction false} BitsValueBound(s: seq<bool>)
    ensures BitsValue(s) < Pow2(|s|)
  {
    if s != [] {
      BitsValueBound(s[..|s| - 1]);
    }
  }

  lemma {:induction false} BitsValueZero(s: seq<bool>)
    ensures BitsValue(s) == 0 <==> forall i :: 0 <= i < |s| ==> !s[i]
  {
    if s != [] {
      var init := s[..|s| - 1];
      BitsValueZero(init);
      assert forall i :: 0 <= i < |init| ==> init[i] == s[i];
    }
  }

  lemma {:induction false} BitsValueAppend(a: seq<bool>, b: seq<bool>)
    ensures BitsValue(a + b) == BitsValue(a) * Pow2(|b|) + BitsValue(b)
  {
    if b == [] {
      assert a + b == a;
    } else {
      var b' := b[..|b| - 1];
      var x := if b[|b| - 1] then 1 else 0;
      assert (a + b)[..|a + b| - 1] == a + b';
      BitsValueAppend(a, b');
      assert BitsValue(a + b) == 2 * BitsValue(a + b') + x;
      assert BitsValue(b) == 2 * BitsValue(b') + x;
      AppendDigit(BitsValue(a), Pow2(|b'|), BitsValue(b'), x);
    }
  }

  /** Appending one binary digit below `hi * p + lo` doubles both parts. */
  lemma AppendDigit(hi: nat, p: nat, lo: nat, x: nat)
    ensures 2 * (hi * p + lo) + x == hi * (2 * p) + (2 * lo + x)
  {
  }

  lemma MulMonotone(u: int, v: int, p: nat)
    ensures u >= v ==> u * p >= v * p
  {
    if u >= v {
      assert u * p - v * p == (u - v) * p;
    }
  }

  /** Euclidean division recovers the high part of `a * p + b` when `b < p`. */
  lemma DivOfHighPart(a: nat, p: nat, b: nat)
    requires 0 <= b < p
    ensures (a * p + b) / p == a
  {
    var x := a * p + b;
    var q := x / p;
    assert q * p <= x < q * p + p;
    MulMonotone(q, a + 1, p);
    MulMonotone(a, q + 1, p);
  }

  lemma {:induction false} Pow2Monotone(j: nat, k: nat)
    requires j <= k
    ensures Pow2(j) <= Pow2(k)
  {
    if j < k {
      Pow2Monotone(j, k - 1);
    }
  }

  /** Shifting by the bit length or more leaves nothing (160 bits for a digest). */
  lemma ShiftPastEnd(s: seq<bool>, k: int)
    requires k >= |s|
    ensures ShiftRight(BitsValue(s), k) == 0
  {
    BitsValueBound(s);
    Pow2Monotone(|s|, k);
    DivOfHighPart(0, Pow2(k), BitsValue(s));
  }

  /** Shifting right by 160 - n leaves the value of the first n bits. */
  lemma ShiftKeepsPrefix(d: Digest, n: nat)
    requires n <= DigestBits
    ensures ShiftRight(BitsValue(d), DigestBits - n) == BitsValue(d[..n])
  {
    var hi, lo := d[..n], d[n..];
    assert d == hi + lo;
    BitsValueAppend(hi, lo);
    BitsValueBound(lo);
    DivOfHighPart(BitsValue(hi), Pow2(|lo|), BitsValue(lo));
  }

  /** The verify-side shift test holds exactly when the first `bits` bits are zero. */
  lemma VerifyTestZeroPrefix(d: Digest, bits: int)
    ensures VerifyTest(d, bits) <==> ZeroPrefix(d, bits)
  {
    if bits <= 0 {
      ShiftPastEnd(d, DigestBits - bits);
    } else if bits <= DigestBits {
      ShiftKeepsPrefix(d, bits);
      var hi := d[..bits];
      BitsValueZero(hi);
      assert forall i :: 0 <= i < bits ==> hi[i] == d[i];
    } else {
      BitsValueZero(d);
      assert ShiftRight(BitsValue(d), DigestBits - bits) == BitsValue(d) * Pow2(bits - DigestBits);
    }
  }

  /**
   * The two difficulty tests agree for every bit count: in particular a
   * counter the mint search accepts passes verification at the same bits.
   */
  lemma DifficultyTestsAgree(d: Digest, bits: int)
    ensures MintTest(d, bits) <==> VerifyTest(d, bits)
  {
    MintTestZeroPrefix(d, bits);
    VerifyTestZeroPrefix(d, bits);
  }

  /** Passing at a difficulty implies passing at every lower one. */
  lemma VerifyTestMonotone(d: Digest, n: int, m: int)
    requires m <= n && VerifyTest(d, n)
    ensures VerifyTest(d, m)
  {
    VerifyTestZeroPrefix(d, n);
    VerifyTestZeroPrefix(d, m);
  }

  /** A difficulty of zero bits (or fewer) accepts every digest. */
  lemma ZeroBitsAlwaysPass(d: Digest, bits: int)
    requires bits <= 0
    ensures MintTest(d, bits) && VerifyTest(d, bits)
  {
    MintTestZeroPrefix(d, bits);
    VerifyTestZeroPrefix(d, bits);
  }
}
