/**
 The affine placement policy: each matrix row is a word, an output bit is the parity of the
 address bits that the row selects, and the offset vector is xored in at the end.
 */
module AffinePolicies {
  import opened BitMatrix
  import opened AffineSolver
  import opened Words

  datatype AffinePolicy = AffinePolicy(matrix: seq<nat>, vector: nat, offsetBits: nat)

  predicate Odd(row: nat, address: nat) {
    Popcount(And(row, address)) % 2 == 1
  }

  function Parities(matrix: seq<nat>, address: nat): (v: seq<bool>)
    ensures |v| == |matrix| && forall i :: 0 <= i < |v| ==> v[i] == Odd(matrix[i], address)
  {
    seq(|matrix|, i requires 0 <= i < |matrix| => Odd(matrix[i], address))
  }

  /** The set an address maps to. */
  function Index(p: AffinePolicy, address: nat): nat {
    Shr(Xor(Value(Parities(p.matrix, address)), p.vector), p.offsetBits)
  }

  method Apply(p: AffinePolicy, address: nat) returns (set_: nat)
    requires |p.matrix| <= WORD_BITS
    ensures set_ == Index(p, address)
  {
    set_ := 0;
    for i := 0 to |p.matrix|
      invariant set_ == Value(Parities(p.matrix, address)[..i])
    {
      ghost var done := Parities(p.matrix, address)[..i];
      ShiftInAppends(done, Odd(p.matrix[i], address));
      assert done + [Odd(p.matrix[i], address)] == Parities(p.matrix, address)[..i + 1];
      set_ := ShiftIn(set_, Odd(p.matrix[i], address));
    }
    assert Parities(p.matrix, address)[..|p.matrix|] == Parities(p.matrix, address);
    set_ := Shr(Xor(set_, p.vector), p.offsetBits);
  }

  // ----- Parity of a packed row is a dot product -----

  lemma {:induction false} DotPrefix(a: Vector, x: Vector, a': Vector, x': Vector, n: nat)
    requires n <= |a| && n <= |x| && n <= |a'| && n <= |x'|
    requires forall i :: 0 <= i < n ==> a[i] == a'[i] && x[i] == x'[i]
    ensures Dot(a, x, n) == Dot(a', x', n)
  {
    if n > 0 { DotPrefix(a, x, a', x', n - 1); }
  }

  lemma OddUnfold(row: nat, address: nat)
    ensures Odd(row, address) == (Odd(row / 2, address / 2) != (row % 2 == 1 && address % 2 == 1))
  {
    var rest := And(row / 2, address / 2);
    assert And(row, address) / 2 == rest;
    assert row == 0 ==> And(0, address / 2) == 0;
  }

  lemma {:induction false} PackedRow(v: Vector, address: nat)
    ensures Odd(Value(v), address) == Dot(v, Bits(address, 0, |v|), |v|)
  {
    if v != [] {
      var n := |v| - 1;
      PackedRow(v[..n], address / 2);
      ValueSplit(v);
      OddUnfold(Value(v), address);
      DotPrefix(v, Bits(address, 0, n + 1), v[..n], Bits(address / 2, 0, n), n);
    }
  }

  /** A vector followed by zeros. */
  function Pad(a: Vector, zeros: nat): (v: Vector)
    ensures |v| == |a| + zeros && forall i :: 0 <= i < |v| ==> v[i] == (i < |a| && a[i])
  {
    seq(|a| + zeros, i requires 0 <= i < |a| + zeros => i < |a| && a[i])
  }

  lemma {:induction false} ZeroTail(v: Vector, x: Vector, m: nat, n: nat)
    requires m <= n <= |v| && n <= |x|
    requires forall i :: m <= i < n ==> !v[i]
    ensures Dot(v, x, n) == Dot(v, x, m)
  {
    if m < n { ZeroTail(v, x, m, n - 1); }
  }

  lemma ReadsAboveOffset(v: Vector, a: Vector, offset: nat, address: nat)
    requires |v| == |a| + offset && forall i :: 0 <= i < |v| ==> v[i] == (i < |a| && a[i])
    ensures Odd(Value(v), address) == Dot(a, Bits(address, offset, |a|), |a|)
  {
    var n := |v|;
    PackedRow(v, address);
    ZeroTail(v, Bits(address, 0, n), |a|, n);
    DotPrefix(v, Bits(address, 0, n), a, Bits(address, offset, |a|), |a|);
  }

  /** A row padded with the offset bits reads exactly the address bits above the offset. */
  lemma PaddedRow(a: Vector, offset: nat, address: nat)
    ensures Odd(Value(Pad(a, offset)), address) == Dot(a, Bits(address, offset, |a|), |a|)
  {
    ReadsAboveOffset(Pad(a, offset), a, offset, address);
  }

  // ----- Affine maps on addresses -----

  /** The output bits of the affine map (a, t) on d address bits above the offset. */
  function MapBits(a: Matrix, t: Vector, d: nat, offset: nat, address: nat): (v: Vector)
    requires Shape(a, |t|, d)
    ensures |v| == |t| && forall i :: 0 <= i < |t| ==> v[i] == Affine(a[i], t[i], Bits(address, offset, d))
  {
    seq(|t|, i requires 0 <= i < |t| => Affine(a[i], t[i], Bits(address, offset, d)))
  }

  /** The same, as a set number. */
  function MapIndex(a: Matrix, t: Vector, d: nat, offset: nat, address: nat): nat
    requires Shape(a, |t|, d)
  {
    Value(MapBits(a, t, d, offset, address))
  }

  /** Rows and offset vector of an affine map, padded by the offset bits and packed into words. */
  ghost predicate Packs(p: AffinePolicy, a: Matrix, t: Vector, d: nat, offset: nat)
    requires Shape(a, |t|, d)
  {
    && p.offsetBits == offset
    && |p.matrix| == |t| + offset
    && (forall i :: 0 <= i < |t| ==> p.matrix[i] == Value(Pad(a[i], offset)))
    && (forall i :: |t| <= i < |p.matrix| ==> p.matrix[i] == 0)
    && p.vector == Value(Pad(t, offset))
  }

  /** Packing keeps the meaning: the policy evaluates to the affine map, on every address. */
  lemma PackedMeaning(p: AffinePolicy, a: Matrix, t: Vector, d: nat, offset: nat, address: nat)
    requires Shape(a, |t|, d) && Packs(p, a, t, d, offset)
    ensures Index(p, address) == MapIndex(a, t, d, offset, address)
  {
    var u, v, w := Parities(p.matrix, address), Pad(t, offset), MapBits(a, t, d, offset, address);
    forall i | 0 <= i < |t| ensures XorBits(u, v)[i] == w[i] {
      PaddedRow(a[i], offset, address);
    }
    ShiftedXor(u, v, w, offset);
  }

  /** Shifting the offset bits out of an exclusive or leaves its leading bits. */
  lemma ShiftedXor(u: Vector, v: Vector, w: Vector, offset: nat)
    requires |u| == |v| == |w| + offset && forall i :: 0 <= i < |w| ==> XorBits(u, v)[i] == w[i]
    ensures Shr(Xor(Value(u), Value(v)), offset) == Value(w)
  {
    ValueXor(u, v);
    var x := XorBits(u, v);
    assert x == w + x[|w|..];
    ValueShr(w, x[|w|..]);
  }
}
