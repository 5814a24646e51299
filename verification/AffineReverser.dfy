/**
 The placement reverser: it collects address-to-set mappings while they stay independent and
 recovers the affine placement function from them.
 */
module AffineReversers {
  import opened Collections
  import opened Gf2Determinant
  import opened BitMatrix
  import opened AffineSolver
  import opened Words
  import opened AffinePolicies

  /** Bits [offset, offset + bits) of each number, as vectors. */
  function Vectors(numbers: seq<nat>, offset: nat, bits: nat): (vs: seq<Vector>)
    ensures |vs| == |numbers| && forall k :: 0 <= k < |vs| ==> vs[k] == Bits(numbers[k], offset, bits)
  {
    seq(|numbers|, k requires 0 <= k < |numbers| => Bits(numbers[k], offset, bits))
  }

  /** What the reverser insists on for the addresses it holds. */
  predicate Held(addresses: seq<nat>, offset: nat) {
    && (|addresses| == 1 ==> Low(Shr(addresses[0], offset), 2) != 0)
    && (|addresses| == 2 ==> LinearlyIndependent(Vectors(addresses, offset, 2)))
    && (|addresses| > 2 ==> AffinelyIndependent(Vectors(addresses, offset, |addresses| - 1)))
  }

  // ----- The first addresses -----

  /** One of the two lowest bits above the offset is set. */
  predicate Marked(x: nat, offset: nat) { Bit(x, offset) || Bit(x, offset + 1) }

  /** The two numbers agree in those bits. */
  predicate SameMarks(x: nat, y: nat, offset: nat) {
    Bit(x, offset) == Bit(y, offset) && Bit(x, offset + 1) == Bit(y, offset + 1)
  }

  lemma HeldOne(x: nat, offset: nat)
    ensures Held([x], offset) <==> Marked(x, offset)
  {
    ShrBit(x, offset, 0);
    ShrBit(x, offset, 1);
    LowTwo(Shr(x, offset));
  }

  lemma LowTwo(x: nat)
    ensures Low(x, 2) != 0 <==> Bit(x, 0) || Bit(x, 1)
  {
    assert Low(x, 2) == 2 * Low(x / 2, 1) + x % 2 && Low(x / 2, 1) == 2 * Low(x / 2 / 2, 0) + x / 2 % 2;
    assert Bit(x, 1) == Bit(x / 2, 0);
  }

  lemma DetOfOne(m: Table, i: nat, c: nat)
    requires i < 2
    ensures Det(m, 2, {i}, [c]) == m(i, c)
  {
    assert {i} - {i} == {} && [c][1..] == [];
    assert Expand(m, 2, {i}, [c], 1) == (i == 0 && m(0, c));
    assert Expand(m, 2, {i}, [c], 2) == (Expand(m, 2, {i}, [c], 1) != (i == 1 && m(1, c)));
  }

  lemma DetOfTwo(m: Table)
    ensures Det(m, 2, UpTo(2), Numbers(2)) == ((m(0, 0) && m(1, 1)) != (m(1, 0) && m(0, 1)))
  {
    var rows, cols := UpTo(2), Numbers(2);
    assert cols == [0, 1] && cols[1..] == [1];
    assert rows - {0} == {1} && rows - {1} == {0};
    DetOfOne(m, 1, 1);
    DetOfOne(m, 0, 1);
    assert Expand(m, 2, rows, cols, 1) == (m(0, 0) && m(1, 1));
  }

  lemma TwoIndependent(u: Vector, v: Vector)
    requires |u| == |v| == 2
    ensures LinearlyIndependent([u, v]) <==> (u[0] && v[1]) != (u[1] && v[0])
  {
    DetOfTwo(Entry(HStack([u, v], 2)));
  }

  /** Two addresses are held if both are marked, and differently. */
  lemma HeldTwo(x: nat, y: nat, offset: nat)
    ensures Held([x, y], offset) <==> Marked(x, offset) && Marked(y, offset) && !SameMarks(x, y, offset)
  {
    var vs := Vectors([x, y], offset, 2);
    assert vs == [vs[0], vs[1]];
    TwoIndependent(vs[0], vs[1]);
  }

  /** With two addresses held, an unmarked one is independent of them. */
  lemma HeldThree(x: nat, y: nat, z: nat, offset: nat)
    requires Held([x, y], offset) && !Marked(z, offset)
    ensures Held([x, y, z], offset)
  {
    HeldTwo(x, y, offset);
    var vs := Vectors([x, y, z], offset, 2);
    var ds := Differences(vs);
    assert ds == [ds[0], ds[1]];
    TwoIndependent(ds[0], ds[1]);
  }

  lemma FirstTwo(held: seq<nat>, x: nat, offset: nat)
    requires Held(held, offset)
    ensures |held| == 0 ==> (Held(held + [x], offset) <==> Marked(x, offset))
    ensures |held| == 1 ==> (Held(held + [x], offset) <==> Marked(x, offset) && !SameMarks(x, held[0], offset))
  {
    if |held| == 0 {
      assert held + [x] == [x];
      HeldOne(x, offset);
    } else if |held| == 1 {
      assert held == [held[0]] && held + [x] == [held[0], x];
      HeldOne(held[0], offset);
      HeldTwo(held[0], x, offset);
    }
  }

  lemma {:induction false} ShrNext(x: nat, k: nat)
    ensures Shr(x, k + 1) == Shr(x, k) / 2
  {
    if k > 0 { ShrNext(x / 2, k - 1); }
  }

  method UintToBitVector(number: nat, offset: nat, bits: nat) returns (v: Vector)
    requires offset + bits <= WORD_BITS
    ensures v == Bits(number, offset, bits)
  {
    var vec := new bool[bits];
    var num := Shr(number, offset);
    for b := 0 to bits
      invariant num == Shr(number, offset + b)
      invariant forall i :: bits - b <= i < bits ==> vec[i] == Bit(number, offset + bits - 1 - i)
    {
      ShrBit(number, offset + b, 0);
      ShrNext(number, offset + b);
      vec[bits - b - 1] := num % 2 == 1;
      num := num / 2;
    }
    v := vec[..];
  }

  method BitVectorToUint(vec: Vector) returns (value: nat)
    requires |vec| <= WORD_BITS
    ensures value == Value(vec)
  {
    value := 0;
    for i := 0 to |vec|
      invariant value == Value(vec[..i])
    {
      ShiftInAppends(vec[..i], vec[i]);
      assert vec[..i] + [vec[i]] == vec[..i + 1];
      value := ShiftIn(value, vec[i]);
    }
    assert vec[..|vec|] == vec;
  }

  class AffineReverser {
    const offsetBits: nat
    const indexBits: nat
    var addresses: seq<nat>
    var sets: seq<nat>

    constructor (offsetBits: nat, indexBits: nat)
      ensures this.offsetBits == offsetBits && this.indexBits == indexBits
      ensures Valid() && addresses == []
    {
      this.offsetBits, this.indexBits := offsetBits, indexBits;
      addresses, sets := [], [];
    }

    ghost predicate Valid()
      reads this
    {
      |addresses| == |sets| && Held(addresses, offsetBits)
    }

    /** Whether the stored addresses, the new one last, pass the test for their number. */
    method Passes() returns (ok: bool)
      requires |addresses| >= 2
      requires offsetBits + (if |addresses| == 2 then 2 else |addresses| - 1) <= WORD_BITS
      ensures ok == Held(addresses, offsetBits)
    {
      var bits := if |addresses| == 2 then 2 else |addresses| - 1;
      var vectors: seq<Vector> := [];
      for k := 0 to |addresses|
        invariant vectors == Vectors(addresses, offsetBits, bits)[..k]
      {
        var v := UintToBitVector(addresses[k], offsetBits, bits);
        vectors := vectors + [v];
      }
      assert vectors == Vectors(addresses, offsetBits, bits);
      if |addresses| == 2 {
        ok := Determinant(HStack(vectors, 2));
      } else {
        ok := Determinant(HStack(Differences(vectors), bits));
      }
    }

    /** A mapping is stored exactly when the addresses stay independent; the first is never reported. */
    method FeedMapping(address: nat, set_: nat) returns (accepted: bool)
      requires Valid()
      requires Low(address, offsetBits) == 0
      requires offsetBits + (if |addresses| <= 1 then 2 else |addresses|) <= WORD_BITS
      modifies this
      ensures Valid()
      ensures accepted == (old(addresses) != [] && Held(old(addresses) + [address], offsetBits))
      ensures if Held(old(addresses) + [address], offsetBits)
              then addresses == old(addresses) + [address] && sets == old(sets) + [set_]
              else addresses == old(addresses) && sets == old(sets)
      ensures |old(addresses)| == 0 ==> (addresses == [address] <==> Marked(address, offsetBits))
      ensures |old(addresses)| == 1 ==>
                (accepted <==> Marked(address, offsetBits) && !SameMarks(address, old(addresses)[0], offsetBits))
    {
      FirstTwo(addresses, address, offsetBits);
      if addresses == [] {
        if Low(Shr(address, offsetBits), 2) != 0 {
          addresses, sets := addresses + [address], sets + [set_];
        }
        return false;
      }
      addresses := addresses + [address];
      var ok := Passes();
      if !ok {
        addresses := addresses[..|addresses| - 1];
        return false;
      }
      sets := sets + [set_];
      return true;
    }

    function ReversedBits(): nat
      reads this
    {
      if |addresses| <= 2 then 0 else |addresses| - 1
    }

    /**
     The recovered policy reproduces every stored mapping and, on every address, equals any
     affine function of the reversed bits that does so too.
     */
    method Reverse() returns (p: AffinePolicy)
      requires Valid() && ReversedBits() > 0
      requires offsetBits + ReversedBits() <= WORD_BITS && offsetBits + indexBits <= WORD_BITS
      ensures forall k :: 0 <= k < |addresses| ==> Index(p, addresses[k]) == Low(sets[k], indexBits)
      ensures forall H: Matrix, h: Vector {:trigger Shape(H, |h|, ReversedBits())} ::
                |h| == indexBits && Shape(H, |h|, ReversedBits())
                && Agrees(H, h, ReversedBits(), offsetBits, addresses, sets)
                ==> forall x: nat :: Index(p, x) == MapIndex(H, h, ReversedBits(), offsetBits, x)
    {
      var d, o := ReversedBits(), indexBits;
      var inputs, outputs: seq<Vector> := [], [];
      for k := 0 to |addresses|
        invariant inputs == Vectors(addresses, offsetBits, d)[..k]
        invariant outputs == Vectors(sets, 0, o)[..k]
      {
        var x := UintToBitVector(addresses[k], offsetBits, d);
        var y := UintToBitVector(sets[k], 0, o);
        inputs, outputs := inputs + [x], outputs + [y];
      }
      assert inputs == Vectors(addresses, offsetBits, d) && outputs == Vectors(sets, 0, o);
      IndependentIffSolvable(inputs, d);
      var A, t := Solve(inputs, outputs, d, o);
      var matrix := PackRows(A, d, offsetBits);
      var vector := BitVectorToUint(Pad(t, offsetBits));
      p := AffinePolicy(matrix, vector, offsetBits);
      Reproduces(p, A, t, d, offsetBits, addresses, sets);
      IdentifiesAll(p, A, t, d, offsetBits, addresses, sets);
    }
  }

  /** The rows with zero columns for the offset bits, then zero rows for them, as words. */
  method PackRows(A: Matrix, d: nat, offset: nat) returns (matrix: seq<nat>)
    requires Shape(A, |A|, d) && d + offset <= WORD_BITS
    ensures |matrix| == |A| + offset
    ensures forall i :: 0 <= i < |A| ==> matrix[i] == Value(Pad(A[i], offset))
    ensures forall i :: |A| <= i < |matrix| ==> matrix[i] == 0
  {
    matrix := [];
    for i := 0 to |A|
      invariant |matrix| == i && forall i' :: 0 <= i' < i ==> matrix[i'] == Value(Pad(A[i'], offset))
    {
      var row := BitVectorToUint(Pad(A[i], offset));
      matrix := matrix + [row];
    }
    ghost var top := matrix;
    for i := 0 to offset
      invariant |matrix| == |A| + i && top <= matrix && forall i' :: |A| <= i' < |A| + i ==> matrix[i'] == 0
    {
      var row := BitVectorToUint(Pad([], d + offset));
      ValueOfZeros(d + offset);
      matrix := matrix + [row];
    }
  }

  lemma IdentifiesAll(
    p: AffinePolicy, a: Matrix, t: Vector, d: nat, offset: nat, addresses: seq<nat>, sets: seq<nat>)
    requires d > 1 && |addresses| == d + 1 == |sets| && Held(addresses, offset)
    requires Shape(a, |t|, d) && Packs(p, a, t, d, offset) && Agrees(a, t, d, offset, addresses, sets)
    ensures forall H: Matrix, h: Vector {:trigger Shape(H, |h|, d)} ::
              |h| == |t| && Shape(H, |h|, d) && Agrees(H, h, d, offset, addresses, sets)
              ==> forall x: nat :: Index(p, x) == MapIndex(H, h, d, offset, x)
  {
    forall H: Matrix, h: Vector | |h| == |t| && Shape(H, |h|, d) && Agrees(H, h, d, offset, addresses, sets)
      ensures forall x: nat :: Index(p, x) == MapIndex(H, h, d, offset, x)
    {
      Identifies(p, a, t, H, h, d, offset, addresses, sets);
    }
  }

  lemma {:induction false} ValueOfZeros(n: nat)
    ensures Value(Pad([], n)) == 0
  {
    if n > 0 {
      ValueOfZeros(n - 1);
      assert Pad([], n)[..n - 1] == Pad([], n - 1);
    }
  }

  /** The affine map (a, t) sends every address to its set, as far as the index bits go. */
  ghost predicate Agrees(a: Matrix, t: Vector, d: nat, offset: nat, addresses: seq<nat>, sets: seq<nat>)
    requires Shape(a, |t|, d) && |addresses| == |sets|
  {
    forall k :: 0 <= k < |addresses| ==> MapIndex(a, t, d, offset, addresses[k]) == Low(sets[k], |t|)
  }

  lemma ReproducesOne(p: AffinePolicy, a: Matrix, t: Vector, d: nat, offset: nat, x: nat, y: nat)
    requires Shape(a, |t|, d) && Packs(p, a, t, d, offset)
    requires forall i :: 0 <= i < |t| ==> Affine(a[i], t[i], Bits(x, offset, d)) == Bits(y, 0, |t|)[i]
    ensures MapIndex(a, t, d, offset, x) == Low(y, |t|) == Index(p, x)
  {
    assert MapBits(a, t, d, offset, x) == Bits(y, 0, |t|);
    ValueOfBits(y, |t|);
    PackedMeaning(p, a, t, d, offset, x);
  }

  lemma Reproduces(
    p: AffinePolicy, a: Matrix, t: Vector, d: nat, offset: nat, addresses: seq<nat>, sets: seq<nat>)
    requires Shape(a, |t|, d) && |addresses| == |sets| && Packs(p, a, t, d, offset)
    requires forall i, k :: 0 <= i < |t| && 0 <= k < |addresses| ==>
               Affine(a[i], t[i], Bits(addresses[k], offset, d)) == Bits(sets[k], 0, |t|)[i]
    ensures Agrees(a, t, d, offset, addresses, sets)
    ensures forall k :: 0 <= k < |addresses| ==> Index(p, addresses[k]) == Low(sets[k], |t|)
  {
    forall k | 0 <= k < |addresses|
      ensures MapIndex(a, t, d, offset, addresses[k]) == Low(sets[k], |t|) == Index(p, addresses[k])
    {
      ReproducesOne(p, a, t, d, offset, addresses[k], sets[k]);
    }
  }

  /** Exact identification: agreement on the held addresses is agreement everywhere. */
  lemma Identifies(
    p: AffinePolicy, a: Matrix, t: Vector, H: Matrix, h: Vector, d: nat, offset: nat,
    addresses: seq<nat>, sets: seq<nat>)
    requires d > 1 && |addresses| == d + 1 == |sets| && Held(addresses, offset)
    requires |h| == |t| && Shape(a, |t|, d) && Shape(H, |h|, d)
    requires Packs(p, a, t, d, offset)
    requires Agrees(a, t, d, offset, addresses, sets) && Agrees(H, h, d, offset, addresses, sets)
    ensures a == H && t == h
    ensures forall x: nat :: Index(p, x) == MapIndex(H, h, d, offset, x)
  {
    var inputs := Vectors(addresses, offset, d);
    IndependentIffSolvable(inputs, d);
    forall i | 0 <= i < |t| ensures a[i] == H[i] && t[i] == h[i] {
      forall k | 0 <= k <= d ensures Affine(a[i], t[i], inputs[k]) == Affine(H[i], h[i], inputs[k]) {
        ValueInjective(MapBits(a, t, d, offset, addresses[k]), MapBits(H, h, d, offset, addresses[k]));
        assert MapBits(a, t, d, offset, addresses[k])[i] == MapBits(H, h, d, offset, addresses[k])[i];
      }
      Unique(inputs, d, a[i], t[i], H[i], h[i]);
    }
    assert a == H && t == h;
    forall x: nat ensures Index(p, x) == MapIndex(H, h, d, offset, x) {
      PackedMeaning(p, a, t, d, offset, x);
    }
  }

  // ----- Feeding never gets stuck -----

  function Flip(x: nat, b: nat): nat { Xor(x, Pow2(b)) }

  lemma {:induction false} HalfOfDouble(x: nat)
    ensures (2 * x) % 2 == 0 && (2 * x) / 2 == x
  {}

  lemma {:induction false} Pow2Halves(b: nat)
    ensures if b == 0 then Pow2(b) == 1 else Pow2(b) % 2 == 0 && Pow2(b) / 2 == Pow2(b - 1)
  {
    if b > 0 { HalfOfDouble(Pow2(b - 1)); }
  }

  lemma {:induction false} FlipBit(x: nat, b: nat, c: nat)
    ensures Bit(Flip(x, b), c) == (Bit(x, c) != (c == b))
  {
    XorUnfold(x, Pow2(b));
    Pow2Halves(b);
    if b > 0 && c > 0 {
      FlipBit(x / 2, b - 1, c - 1);
    } else if c > 0 {
      XorZero(x / 2);
    }
  }

  lemma {:induction false} XorZero(x: nat)
    ensures Xor(x, 0) == x
  {
    if x > 0 { XorZero(x / 2); }
  }

  /** The neighbour of a word-sized aligned address is one too. */
  lemma {:induction false} FlipStaysAligned(x: nat, b: nat, offset: nat)
    requires offset <= b
    ensures Low(Flip(x, b), offset) == Low(x, offset)
  {
    if offset > 0 {
      XorUnfold(x, Pow2(b));
      Pow2Halves(b);
      FlipStaysAligned(x / 2, b - 1, offset - 1);
    }
  }

  lemma {:induction false} FlipStaysInWord(x: nat, b: nat, n: nat)
    requires b < n && x < Pow2(n)
    ensures Flip(x, b) < Pow2(n)
  {
    XorUnfold(x, Pow2(b));
    Pow2Halves(b);
    Pow2Halves(n);
    if b > 0 { FlipStaysInWord(x / 2, b - 1, n - 1); } else { XorZero(x / 2); }
  }

  /** The differences of all addresses from the first one, on the given bits. */
  function DifferenceMatrix(addresses: seq<nat>, offset: nat, bits: nat): (e: Matrix)
    requires |addresses| > 0
    ensures Shape(e, bits, |addresses| - 1)
    ensures forall i, c :: 0 <= i < bits && 0 <= c < |addresses| - 1 ==>
              e[i][c] == (Bit(addresses[c + 1], offset + bits - 1 - i) != Bit(addresses[0], offset + bits - 1 - i))
  {
    HStack(Differences(Vectors(addresses, offset, bits)), bits)
  }

  /** Columns of e; then, at k, its last column with the top entry flipped; then a unit column. */
  function WithFlip(e: Matrix, k: nat): Table
    requires k > 0
  {
    (i: nat, c: nat) =>
      if c < k then Entry(e)(i, c) else (c == k && Entry(e)(i, k - 1)) != (i == 0)
  }

  /** Flipping the top right entry flips the determinant exactly when its cofactor is one. */
  lemma {:induction false} FlippedCorner(e: Matrix, e': Matrix, k: nat)
    requires k > 0 && Shape(e, k, k) && Shape(e', k, k)
    requires forall i, c :: 0 <= i < k && 0 <= c < k ==> e'[i][c] == (e[i][c] != (i == 0 && c == k - 1))
    ensures Gf2Det(e') == (Gf2Det(e) != Det(Entry(e), k, UpTo(k) - {0}, Numbers(k - 1)))
  {
    var m, cols, rows := WithFlip(e, k), Numbers(k), UpTo(k);
    ColumnAdditive(m, k, rows, cols, k - 1, k - 1, k + 1, k);
    assert cols[k - 1 := k - 1] == cols;
    SameEntries(m, cols, Entry(e), cols, k, rows);
    SameEntries(m, cols[k - 1 := k], Entry(e'), cols, k, rows);
    assert cols[k - 1 := k + 1] == Numbers(k - 1) + [k + 1];
    UnitLastColumn(m, k, rows, Numbers(k - 1), k + 1, 0);
    SameEntries(m, Numbers(k - 1), Entry(e), Numbers(k - 1), k, rows - {0});
  }

  lemma BelowZeros(h: Matrix, n: nat) returns (g: Matrix)
    requires Shape(h, n, n)
    ensures Shape(g, n + 1, n) && forall i :: 0 < i <= n ==> g[i] == h[i - 1]
    ensures Det(Entry(g), n + 1, UpTo(n + 1) - {0}, Numbers(n)) == Gf2Det(h)
  {
    g := [seq(n, c => false)] + h;
    RemovedRow(g, n, 0);
    assert RemoveRow(g, 0) == h;
  }

  /** The cofactor of the top right entry is the determinant without its row and column. */
  lemma {:induction false} CornerCofactor(e: Matrix, h: Matrix, k: nat)
    requires k > 0 && Shape(e, k, k) && Shape(h, k - 1, k - 1)
    requires forall i, c :: 0 <= i < k - 1 && 0 <= c < k - 1 ==> e[i + 1][c] == h[i][c]
    ensures Det(Entry(e), k, UpTo(k) - {0}, Numbers(k - 1)) == Gf2Det(h)
  {
    var g := BelowZeros(h, k - 1);
    var m, m', cols := Entry(e), Entry(g), Numbers(k - 1);
    forall i, c | i in UpTo(k) - {0} && 0 <= c < k - 1 ensures m(i, cols[c]) == m'(i, cols[c]) {
      assert e[(i - 1) + 1][c] == h[i - 1][c];
    }
    SameEntries(m, cols, m', cols, k, UpTo(k) - {0});
  }

  lemma HeldAsDeterminant(addresses: seq<nat>, offset: nat, k: nat)
    requires |addresses| == k + 1 >= 3
    ensures Held(addresses, offset) == Gf2Det(DifferenceMatrix(addresses, offset, k))
  {}

  lemma NeighbourDifferences(addresses: seq<nat>, offset: nat, x: nat, k: nat, i: nat, c: nat)
    requires |addresses| == k > 0 && i < k && c < k
    ensures var x' := Flip(x, offset + k - 1);
            DifferenceMatrix(addresses + [x'], offset, k)[i][c]
              == (DifferenceMatrix(addresses + [x], offset, k)[i][c] != (i == 0 && c == k - 1))
  {
    FlipBit(x, offset + k - 1, offset + k - 1 - i);
  }

  lemma FlippedCornerCofactor(e: Matrix, e': Matrix, h: Matrix, k: nat)
    requires k > 0 && Shape(e, k, k) && Shape(e', k, k) && Shape(h, k - 1, k - 1)
    requires forall i, c :: 0 <= i < k && 0 <= c < k ==> e'[i][c] == (e[i][c] != (i == 0 && c == k - 1))
    requires forall i, c :: 0 <= i < k - 1 && 0 <= c < k - 1 ==> e[i + 1][c] == h[i][c]
    ensures Gf2Det(e') == (Gf2Det(e) != Gf2Det(h))
  {
    FlippedCorner(e, e', k);
    CornerCofactor(e, h, k);
  }

  lemma ShrunkDifferences(addresses: seq<nat>, offset: nat, x: nat, k: nat, i: nat, c: nat)
    requires |addresses| == k && i < k - 1 && c < k - 1
    ensures DifferenceMatrix(addresses + [x], offset, k)[i + 1][c] == DifferenceMatrix(addresses, offset, k - 1)[i][c]
  {}

  /** The three tests differ by the corner entry, whose cofactor is the test of the held addresses. */
  lemma NeighbourCofactor(addresses: seq<nat>, offset: nat, x: nat, x': nat, k: nat, e: Matrix, e': Matrix, h: Matrix)
    requires |addresses| == k > 1 && x' == Flip(x, offset + k - 1)
    requires e == DifferenceMatrix(addresses + [x], offset, k)
    requires e' == DifferenceMatrix(addresses + [x'], offset, k)
    requires h == DifferenceMatrix(addresses, offset, k - 1)
    ensures Gf2Det(e') == (Gf2Det(e) != Gf2Det(h))
  {
    forall i, c | 0 <= i < k && 0 <= c < k ensures e'[i][c] == (e[i][c] != (i == 0 && c == k - 1)) {
      NeighbourDifferences(addresses, offset, x, k, i, c);
    }
    forall i, c | 0 <= i < k - 1 && 0 <= c < k - 1 ensures e[i + 1][c] == h[i][c] {
      ShrunkDifferences(addresses, offset, x, k, i, c);
    }
    FlippedCornerCofactor(e, e', h, k);
  }

  lemma TestsDiffer(held: seq<nat>, here: seq<nat>, there: seq<nat>, offset: nat, k: nat)
    requires |held| == k >= 3 && |here| == |there| == k + 1 && Held(held, offset)
    requires Gf2Det(DifferenceMatrix(there, offset, k))
          == (Gf2Det(DifferenceMatrix(here, offset, k)) != Gf2Det(DifferenceMatrix(held, offset, k - 1)))
    ensures Held(here, offset) != Held(there, offset)
  {
    HeldAsDeterminant(held, offset, k - 1);
    HeldAsDeterminant(here, offset, k);
    HeldAsDeterminant(there, offset, k);
  }

  /** Of an address and its neighbour in the next unexplored bit, exactly one is accepted. */
  lemma NeighbourDecides(addresses: seq<nat>, offset: nat, x: nat)
    requires |addresses| >= 3 && Held(addresses, offset)
    ensures Held(addresses + [x], offset) != Held(addresses + [Flip(x, offset + |addresses| - 1)], offset)
  {
    var k := |addresses|;
    var x' := Flip(x, offset + k - 1);
    NeighbourCofactor(addresses, offset, x, x', k, DifferenceMatrix(addresses + [x], offset, k),
                      DifferenceMatrix(addresses + [x'], offset, k), DifferenceMatrix(addresses, offset, k - 1));
    TestsDiffer(addresses, addresses + [x], addresses + [x'], offset, k);
  }

  /** Feeding never gets stuck: the neighbour is aligned and in the word if the address is. */
  lemma FeedingProgresses(addresses: seq<nat>, offset: nat, x: nat)
    requires |addresses| >= 3 && Held(addresses, offset)
    ensures var x' := Flip(x, offset + |addresses| - 1);
            && Held(addresses + [x], offset) != Held(addresses + [x'], offset)
            && Low(x', offset) == Low(x, offset)
            && forall n: nat :: offset + |addresses| <= n && x < Pow2(n) ==> x' < Pow2(n)
  {
    var b := offset + |addresses| - 1;
    NeighbourDecides(addresses, offset, x);
    FlipStaysAligned(x, b, offset);
    forall n: nat | b < n && x < Pow2(n) ensures Flip(x, b) < Pow2(n) { FlipStaysInWord(x, b, n); }
  }

  // ----- Feeding reaches every number of addresses -----

  lemma OneBit(b: nat, offset: nat)
    requires offset <= b < WORD_BITS
    ensures var x := Flip(0, b);
            Low(x, offset) == 0 && x < Pow2(WORD_BITS) && forall c: nat :: Bit(x, c) <==> c == b
  {
    FlipStaysAligned(0, b, offset);
    LowOfZero(offset);
    FlipStaysInWord(0, b, WORD_BITS);
    forall c: nat ensures Bit(Flip(0, b), c) <==> c == b {
      FlipBit(0, b, c);
      ZeroHasNoBits(c);
    }
  }

  lemma {:induction false} LowOfZero(n: nat)
    ensures Low(0, n) == 0
  {
    if n > 0 { LowOfZero(n - 1); }
  }

  lemma SomeOfFirstTwo(addresses: seq<nat>, offset: nat) returns (x: nat)
    requires Held(addresses, offset) && |addresses| <= 1 && offset + 2 <= WORD_BITS
    ensures Held(addresses + [x], offset) && Low(x, offset) == 0 && x < Pow2(WORD_BITS)
  {
    OneBit(offset, offset);
    OneBit(offset + 1, offset);
    x := if |addresses| == 1 && !Bit(addresses[0], offset + 1) then Flip(0, offset + 1) else Flip(0, offset);
    FirstTwo(addresses, x, offset);
  }

  lemma ZeroIsThird(addresses: seq<nat>, offset: nat)
    requires Held(addresses, offset) && |addresses| == 2
    ensures Held(addresses + [0], offset)
  {
    ZeroHasNoBits(offset);
    ZeroHasNoBits(offset + 1);
    assert addresses == [addresses[0], addresses[1]] && addresses + [0] == [addresses[0], addresses[1], 0];
    HeldThree(addresses[0], addresses[1], 0, offset);
  }

  /** From every state in which another address can be fed, some aligned address in the word is stored. */
  lemma SomeIsStored(addresses: seq<nat>, offset: nat) returns (x: nat)
    requires Held(addresses, offset)
    requires offset + (if |addresses| <= 1 then 2 else |addresses|) <= WORD_BITS
    ensures Held(addresses + [x], offset) && Low(x, offset) == 0 && x < Pow2(WORD_BITS)
  {
    LowOfZero(offset);
    if |addresses| <= 1 {
      x := SomeOfFirstTwo(addresses, offset);
    } else if |addresses| == 2 {
      x := 0;
      ZeroIsThird(addresses, offset);
    } else {
      x := 0;
      FeedingProgresses(addresses, offset, x);
      if !Held(addresses + [x], offset) { x := Flip(0, offset + |addresses| - 1); }
    }
  }

  /** Fed one after another, all of them are stored. */
  predicate AllStored(addresses: seq<nat>, more: seq<nat>, offset: nat) {
    more == [] ||
    (var k := |more| - 1;
     && AllStored(addresses, more[..k], offset) && Held(addresses + more, offset)
     && Low(more[k], offset) == 0 && more[k] < Pow2(WORD_BITS))
  }

  lemma AppendSplits(addresses: seq<nat>, more: seq<nat>, x: nat) returns (all: seq<nat>)
    ensures all == more + [x] && |all| == |more| + 1 && all[..|more|] == more && all[|more|] == x
    ensures addresses + all == addresses + more + [x]
  {
    all := more + [x];
  }

  lemma {:induction false} StoredMore(addresses: seq<nat>, more: seq<nat>, x: nat, offset: nat, all: seq<nat>)
    requires |all| == |more| + 1 && all[..|more|] == more && all[|more|] == x
    requires AllStored(addresses, more, offset) && Held(addresses + all, offset)
    requires Low(x, offset) == 0 && x < Pow2(WORD_BITS)
    ensures AllStored(addresses, all, offset)
  {}

  lemma StoredNext(addresses: seq<nat>, more: seq<nat>, offset: nat) returns (next: seq<nat>)
    requires AllStored(addresses, more, offset) && Held(addresses + more, offset)
    requires offset + (if |addresses + more| <= 1 then 2 else |addresses + more|) <= WORD_BITS
    ensures |next| == |more| + 1 && AllStored(addresses, next, offset) && Held(addresses + next, offset)
  {
    var held := addresses + more;
    var x := SomeIsStored(held, offset);
    next := AppendSplits(addresses, more, x);
    StoredMore(addresses, more, x, offset, next);
  }

  /** So feeding reaches every number of addresses that the word allows, from every state. */
  lemma {:induction false} FeedingReaches(addresses: seq<nat>, offset: nat, n: nat) returns (more: seq<nat>)
    requires Held(addresses, offset) && |addresses| <= n
    requires offset + (if n <= 2 then 2 else n - 1) <= WORD_BITS
    ensures |addresses + more| == n && AllStored(addresses, more, offset) && Held(addresses + more, offset)
    decreases n - |addresses|
  {
    if n == |addresses| {
      more := [];
      assert addresses + more == addresses;
    } else {
      var before := FeedingReaches(addresses, offset, n - 1);
      more := StoredNext(addresses, before, offset);
    }
  }
}
