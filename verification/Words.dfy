/**
 Machine words as natural numbers below 2^64, with the bit operations the program uses.
 Bit vectors list the most significant bit first, as the program's converters do.
 */
module Words {
  const WORD_BITS: nat := 64

  function Pow2(k: nat): (r: nat)
    ensures r > 0
  {
    if k == 0 then 1 else 2 * Pow2(k - 1)
  }

  lemma {:induction false} Pow2Monotone(j: nat, k: nat)
    requires j <= k
    ensures Pow2(j) <= Pow2(k)
  {
    if j < k { Pow2Monotone(j, k - 1); }
  }

  predicate Bit(x: nat, b: nat) {
    if b == 0 then x % 2 == 1 else Bit(x / 2, b - 1)
  }

  function And(x: nat, y: nat): nat {
    if x == 0 then 0 else 2 * And(x / 2, y / 2) + (if x % 2 == 1 && y % 2 == 1 then 1 else 0)
  }

  function Xor(x: nat, y: nat): nat {
    if x == 0 then y else 2 * Xor(x / 2, y / 2) + (if x % 2 != y % 2 then 1 else 0)
  }

  function Popcount(x: nat): nat {
    if x == 0 then 0 else x % 2 + Popcount(x / 2)
  }

  function Shr(x: nat, k: nat): nat {
    if k == 0 then x else Shr(x / 2, k - 1)
  }

  /** The low n bits of x, that is, x modulo 2^n (see LowIsRemainder). */
  function Low(x: nat, n: nat): nat {
    if n == 0 then 0 else 2 * Low(x / 2, n - 1) + x % 2
  }

  /** Shift left in a 64-bit word: bits beyond the word are lost. */
  function Shl(x: nat, k: nat): nat {
    if k == 0 then x else Low(2 * Shl(x, k - 1), WORD_BITS)
  }

  /** Shift left by one in a 64-bit word, then or a bit into the freed position. */
  function ShiftIn(x: nat, b: bool): nat {
    Shl(x, 1) + (if b then 1 else 0)
  }

  /** An unbounded shift to the left: x times 2^k (see ScaleIsProduct). */
  function Scale(x: nat, k: nat): nat {
    if k == 0 then x else 2 * Scale(x, k - 1)
  }

  lemma {:induction false} ScaleIsProduct(x: nat, k: nat)
    ensures Scale(x, k) == x * Pow2(k)
  {
    if k > 0 {
      ScaleIsProduct(x, k - 1);
      assert x * (2 * Pow2(k - 1)) == 2 * (x * Pow2(k - 1));
    }
  }

  // ----- Bit vectors -----

  /** Bits [offset, offset + n) of x. */
  function Bits(x: nat, offset: nat, n: nat): (v: seq<bool>)
    ensures |v| == n && forall i :: 0 <= i < n ==> v[i] == Bit(x, offset + n - 1 - i)
  {
    seq(n, i requires 0 <= i < n => Bit(x, offset + n - 1 - i))
  }

  function Value(v: seq<bool>): nat {
    if v == [] then 0 else 2 * Value(v[..|v| - 1]) + (if v[|v| - 1] then 1 else 0)
  }

  lemma ValueSplit(v: seq<bool>)
    requires v != []
    ensures Value(v) / 2 == Value(v[..|v| - 1]) && (Value(v) % 2 == 1 <==> v[|v| - 1])
  {}

  lemma {:induction false} ValueBound(v: seq<bool>)
    ensures Value(v) < Pow2(|v|)
  {
    if v != [] { ValueBound(v[..|v| - 1]); }
  }

  lemma {:induction false} ValueInjective(u: seq<bool>, v: seq<bool>)
    requires |u| == |v| && Value(u) == Value(v)
    ensures u == v
  {
    if v != [] {
      var n := |v| - 1;
      ValueInjective(u[..n], v[..n]);
      assert u == u[..n] + [u[n]] && v == v[..n] + [v[n]];
    }
  }

  lemma {:induction false} ValueOfBits(x: nat, n: nat)
    ensures Value(Bits(x, 0, n)) == Low(x, n)
  {
    if n > 0 {
      ValueOfBits(x / 2, n - 1);
      assert Bits(x, 0, n)[..n - 1] == Bits(x / 2, 0, n - 1);
    }
  }

  lemma DoubleProduct(p: nat, q: nat)
    ensures 2 * p * q == 2 * (p * q)
  {}

  lemma {:induction false} LowIsRemainder(x: nat, n: nat)
    ensures Low(x, n) < Pow2(n) && x == Pow2(n) * Shr(x, n) + Low(x, n)
  {
    if n > 0 {
      LowIsRemainder(x / 2, n - 1);
      DoubleProduct(Pow2(n - 1), Shr(x, n));
    }
  }

  lemma {:induction false} LowOfSmall(x: nat, n: nat)
    requires x < Pow2(n)
    ensures Low(x, n) == x
  {
    if n > 0 { LowOfSmall(x / 2, n - 1); }
  }

  /** Shifting right drops the last bits of a vector. */
  lemma {:induction false} ValueShr(u: seq<bool>, w: seq<bool>)
    ensures Shr(Value(u + w), |w|) == Value(u)
  {
    if w == [] {
      assert u + w == u;
    } else {
      var k := |w| - 1;
      assert (u + w)[..|u + w| - 1] == u + w[..k];
      ValueShr(u, w[..k]);
    }
  }

  function XorBits(u: seq<bool>, v: seq<bool>): (w: seq<bool>)
    requires |u| == |v|
    ensures |w| == |u| && forall i :: 0 <= i < |u| ==> w[i] == (u[i] != v[i])
  {
    seq(|u|, i requires 0 <= i < |u| => u[i] != v[i])
  }

  lemma {:induction false} ValueXor(u: seq<bool>, v: seq<bool>)
    requires |u| == |v|
    ensures Xor(Value(u), Value(v)) == Value(XorBits(u, v))
  {
    if u != [] {
      var n := |u| - 1;
      ValueXor(u[..n], v[..n]);
      var w := XorBits(u, v);
      assert w[..n] == XorBits(u[..n], v[..n]);
      ValueSplit(u);
      ValueSplit(v);
      XorUnfold(Value(u), Value(v));
    }
  }

  lemma {:induction false} XorUnfold(x: nat, y: nat)
    ensures Xor(x, y) == 2 * Xor(x / 2, y / 2) + (if x % 2 != y % 2 then 1 else 0)
    ensures Xor(x, y) / 2 == Xor(x / 2, y / 2) && (Xor(x, y) % 2 == 1 <==> x % 2 != y % 2)
  {
    if x == 0 { assert Xor(0, y / 2) == y / 2; }
  }

  /** While the vector is shorter than a word, shifting a bit in appends it. */
  lemma {:induction false} ShiftInAppends(v: seq<bool>, b: bool)
    requires |v| < WORD_BITS
    ensures ShiftIn(Value(v), b) == Value(v + [b])
  {
    ValueBound(v);
    Pow2Monotone(|v| + 1, WORD_BITS);
    LowOfSmall(2 * Value(v), WORD_BITS);
    assert Shl(Value(v), 1) == Low(2 * Shl(Value(v), 0), WORD_BITS);
    assert (v + [b])[..|v|] == v;
  }

  lemma {:induction false} ZeroHasNoBits(b: nat)
    ensures !Bit(0, b)
  {
    if b > 0 { ZeroHasNoBits(b - 1); }
  }

  lemma {:induction false} ShrBit(x: nat, k: nat, b: nat)
    ensures Bit(Shr(x, k), b) == Bit(x, k + b)
  {
    if k > 0 { ShrBit(x / 2, k - 1, b); }
  }
}
