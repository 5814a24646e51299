/**
 Bit matrices, the determinant as the program computes it (an integer determinant reduced
 modulo two), independence tests, and the affine solver, which is Cramer's rule over GF(2)
 without signs and without a division.
 */
module BitMatrix {
  import opened Collections
  import opened Parity
  import opened Gf2Determinant
  import opened Words

  type Vector = seq<bool>
  type Matrix = seq<seq<bool>>

  predicate Shape<T>(a: seq<seq<T>>, rows: nat, cols: nat) {
    |a| == rows && forall i :: 0 <= i < rows ==> |a[i]| == cols
  }

  function Entry(a: Matrix): Table {
    (i: nat, c: nat) => i < |a| && c < |a[i]| && a[i][c]
  }

  function Gf2Det(a: Matrix): bool {
    Det(Entry(a), |a|, UpTo(|a|), Numbers(|a|))
  }

  // ----- The integer determinant -----

  function Tails(a: seq<seq<int>>): (b: seq<seq<int>>)
    requires forall i :: 0 <= i < |a| ==> |a[i]| > 0
    ensures |b| == |a| && forall i :: 0 <= i < |a| ==> b[i] == a[i][1..]
  {
    if a == [] then [] else [a[0][1..]] + Tails(a[1..])
  }

  function Minor(a: seq<seq<int>>, n: nat, p: nat): (b: seq<seq<int>>)
    requires Shape(a, n, n) && p < n
    ensures Shape(b, n - 1, n - 1)
    ensures forall i :: 0 <= i < n - 1 ==> b[i] == a[if i < p then i else i + 1][1..]
  {
    Tails(a[..p] + a[p + 1..])
  }

  function Total(k: nat, c: nat -> int): int {
    if k == 0 then 0 else Total(k - 1, c) + c(k - 1)
  }

  function IntDet(a: seq<seq<int>>, n: nat): int
    requires Shape(a, n, n)
    decreases n, 1, 0
  {
    if n == 0 then 1 else Total(n, (p: nat) => if p < n then Cofactor(a, n, p) else 0)
  }

  function Cofactor(a: seq<seq<int>>, n: nat, p: nat): int
    requires Shape(a, n, n) && p < n
    decreases n, 0, p
  {
    Signed(p, a[p][0] * IntDet(Minor(a, n, p), n - 1))
  }

  function Signed(p: nat, term: int): int {
    if p % 2 == 0 then term else -term
  }

  lemma ZeroOneProduct(e: int, d: int)
    requires e == 0 || e == 1
    ensures e * d == if e == 1 then d else 0
  {}

  lemma SignedParity(p: nat, term: int)
    ensures Signed(p, term) % 2 == term % 2
  {}

  lemma SumParity(x: int, y: int)
    ensures (x + y) % 2 == 1 <==> (x % 2 == 1) != (y % 2 == 1)
  {}

  /** The parity of the signed integer determinant of a 0/1 matrix is the unsigned GF(2) determinant. */
  lemma {:induction false} LaplaceParity(a: seq<seq<int>>, n: nat, m: Table, bound: nat, ids: seq<nat>, cols: seq<nat>)
    requires Shape(a, n, n) && |ids| == |cols| == n
    requires forall p :: 0 <= p < n ==> ids[p] < bound
    requires forall p, q :: 0 <= p < q < n ==> ids[p] != ids[q]
    requires forall p, c :: 0 <= p < n && 0 <= c < n ==> a[p][c] == (if m(ids[p], cols[c]) then 1 else 0)
    ensures IntDet(a, n) % 2 == 1 <==> Det(m, bound, Members(ids), cols)
    decreases n, 1, 0
  {
    var rows := Members(ids);
    if n > 0 {
      var f := Terms(m, bound, rows, cols[0], cols[1..]);
      var g := (p: nat) => p < n && f(ids[p]);
      var c := (p: nat) => if p < n then Cofactor(a, n, p) else 0;
      forall p: nat | p < n ensures g(p) <==> c(p) % 2 == 1 {
        CofactorParity(a, n, p, m, bound, ids, cols);
      }
      TotalParity(n, c, g);
      OverMembers(ids, bound, f, g, f);
      Laplace(m, bound, rows, cols);
    }
  }

  lemma {:induction false} TotalParity(k: nat, c: nat -> int, g: nat -> bool)
    requires forall p: nat :: p < k ==> (g(p) <==> c(p) % 2 == 1)
    ensures Total(k, c) % 2 == 1 <==> Sum(k, g)
  {
    if k > 0 {
      TotalParity(k - 1, c, g);
      SumParity(Total(k - 1, c), c(k - 1));
    }
  }

  lemma {:induction false} CofactorParity(
    a: seq<seq<int>>, n: nat, p: nat, m: Table, bound: nat, ids: seq<nat>, cols: seq<nat>)
    requires Shape(a, n, n) && |ids| == |cols| == n && p < n
    requires forall q :: 0 <= q < n ==> ids[q] < bound
    requires forall q, r :: 0 <= q < r < n ==> ids[q] != ids[r]
    requires forall q, c :: 0 <= q < n && 0 <= c < n ==> a[q][c] == (if m(ids[q], cols[c]) then 1 else 0)
    ensures Cofactor(a, n, p) % 2 == 1
       <==> m(ids[p], cols[0]) && Det(m, bound, Members(ids) - {ids[p]}, cols[1..])
    decreases n, 0, p
  {
    var ids' := WithoutPosition(ids, p);
    LaplaceParity(Minor(a, n, p), n - 1, m, bound, ids', cols[1..]);
    SignedProduct(a, n, p, m(ids[p], cols[0]));
  }

  lemma WithoutPosition(ids: seq<nat>, p: nat) returns (rest: seq<nat>)
    requires p < |ids| && forall q, r :: 0 <= q < r < |ids| ==> ids[q] != ids[r]
    ensures |rest| == |ids| - 1 && forall q :: 0 <= q < |rest| ==> rest[q] == ids[if q < p then q else q + 1]
    ensures Members(rest) == Members(ids) - {ids[p]}
  {
    rest := ids[..p] + ids[p + 1..];
    assert forall x :: x in ids <==> x in rest || x == ids[p];
    assert ids[p] !in rest;
  }

  lemma SignedProduct(a: seq<seq<int>>, n: nat, p: nat, e: bool)
    requires Shape(a, n, n) && p < n && a[p][0] == if e then 1 else 0
    ensures Cofactor(a, n, p) % 2 == 1 <==> e && IntDet(Minor(a, n, p), n - 1) % 2 == 1
  {
    var e', d := a[p][0], IntDet(Minor(a, n, p), n - 1);
    ZeroOneProduct(e', d);
    SignedParity(p, e' * d);
  }

  lemma NumbersMembers(n: nat)
    ensures Members(Numbers(n)) == UpTo(n)
  {
    forall i | i in UpTo(n) ensures i in Numbers(n) { assert Numbers(n)[i] == i; }
  }

  function AsIntegers(a: Matrix): (b: seq<seq<int>>)
    ensures |b| == |a| && forall i :: 0 <= i < |a| ==> |b[i]| == |a[i]|
    ensures forall i, c :: 0 <= i < |a| && 0 <= c < |a[i]| ==> b[i][c] == if a[i][c] then 1 else 0
  {
    seq(|a|, i requires 0 <= i < |a| =>
      seq(|a[i]|, c requires 0 <= c < |a[i]| => if a[i][c] then 1 else 0))
  }

  lemma MatrixParity(a: Matrix)
    requires Shape(a, |a|, |a|)
    ensures IntDet(AsIntegers(a), |a|) % 2 == 1 <==> Gf2Det(a)
  {
    var n, b := |a|, AsIntegers(a);
    forall p, c | 0 <= p < n && 0 <= c < n ensures b[p][c] == if Entry(a)(Numbers(n)[p], Numbers(n)[c]) then 1 else 0 {
      assert b[p][c] == if a[p][c] then 1 else 0;
    }
    LaplaceParity(b, n, Entry(a), n, Numbers(n), Numbers(n));
    NumbersMembers(n);
  }

  /** Picking distinct rows of a bigger matrix, in any order, selects them in its row set. */
  lemma SelectedRows(a: Matrix, e: Matrix, ids: seq<nat>)
    requires Shape(a, |ids|, |ids|)
    requires forall p :: 0 <= p < |ids| ==> ids[p] < |e| && e[ids[p]] == a[p]
    requires forall p, q :: 0 <= p < q < |ids| ==> ids[p] != ids[q]
    ensures Gf2Det(a) == Det(Entry(e), |e|, Members(ids), Numbers(|a|))
  {
    var n, b := |ids|, AsIntegers(a);
    forall p, c | 0 <= p < n && 0 <= c < n ensures b[p][c] == if Entry(e)(ids[p], Numbers(n)[c]) then 1 else 0 {
      assert b[p][c] == if a[p][c] then 1 else 0;
    }
    LaplaceParity(b, n, Entry(e), |e|, ids, Numbers(n));
    MatrixParity(a);
  }

  /** The matrix is copied into exact integers, whose determinant is reduced modulo two. */
  method Determinant(matrix: Matrix) returns (d: bool)
    requires |matrix| > 1 && Shape(matrix, |matrix|, |matrix|)
    ensures d == Gf2Det(matrix)
  {
    var n := |matrix|;
    var copy: seq<seq<int>> := [];
    for r := 0 to n
      invariant copy == AsIntegers(matrix)[..r]
    {
      var row: seq<int> := [];
      for c := 0 to n
        invariant row == AsIntegers(matrix)[r][..c]
      {
        row := row + [if matrix[r][c] then 1 else 0];
      }
      assert row == AsIntegers(matrix)[r];
      copy := copy + [row];
    }
    var det := IntDet(copy, n);
    // A truncating remainder: its sign follows the dividend, but only zero matters.
    var remainder := if det < 0 then -((-det) % 2) else det % 2;
    assert copy == AsIntegers(matrix);
    MatrixParity(matrix);
    return remainder != 0;
  }

  // ----- Independence -----

  /** The vectors as the columns of a matrix with the given number of rows. */
  function HStack(vectors: seq<Vector>, rows: nat): (a: Matrix)
    requires forall k :: 0 <= k < |vectors| ==> |vectors[k]| == rows
    ensures Shape(a, rows, |vectors|)
    ensures forall i, k :: 0 <= i < rows && 0 <= k < |vectors| ==> a[i][k] == vectors[k][i]
  {
    seq(rows, i requires 0 <= i < rows =>
      seq(|vectors|, k requires 0 <= k < |vectors| => vectors[k][i]))
  }

  predicate LinearlyIndependent(vectors: seq<Vector>)
    requires forall k :: 0 <= k < |vectors| ==> |vectors[k]| == |vectors|
  {
    Gf2Det(HStack(vectors, |vectors|))
  }

  function Differences(vectors: seq<Vector>): (ds: seq<Vector>)
    requires |vectors| > 0 && forall k :: 0 <= k < |vectors| ==> |vectors[k]| == |vectors[0]|
    ensures |ds| == |vectors| - 1
    ensures forall k :: 0 <= k < |ds| ==> ds[k] == XorBits(vectors[k + 1], vectors[0])
  {
    seq(|vectors| - 1, k requires 0 <= k < |vectors| - 1 => XorBits(vectors[k + 1], vectors[0]))
  }

  predicate AffinelyIndependent(vectors: seq<Vector>)
    requires |vectors| > 1 && forall k :: 0 <= k < |vectors| ==> |vectors[k]| == |vectors| - 1
  {
    LinearlyIndependent(Differences(vectors))
  }
}

module AffineSolver {
  import opened Collections
  import opened Parity
  import opened Gf2Determinant
  import opened BitMatrix

  /** The d-dimensional inputs as columns, over a row of ones. */
  function Bordered(inputs: seq<Vector>, d: nat): (b: Matrix)
    requires |inputs| == d + 1 && forall k :: 0 <= k <= d ==> |inputs[k]| == d
    ensures Shape(b, d + 1, d + 1)
    ensures forall j, k :: 0 <= j < d && 0 <= k <= d ==> b[j][k] == inputs[k][j]
    ensures forall k :: 0 <= k <= d ==> b[d][k]
  {
    HStack(inputs, d) + [seq(d + 1, k => true)]
  }

  function RemoveRow(e: Matrix, j: nat): (a: Matrix)
    requires j < |e|
    ensures |a| == |e| - 1 && forall i :: 0 <= i < |a| ==> a[i] == e[if i < j then i else i + 1]
  {
    e[..j] + e[j + 1..]
  }

  /** Row r over B without its row j: the matrix whose determinant is entry (r, j). */
  function Replaced(b: Matrix, r: Vector, j: nat): (a: Matrix)
    requires j < |b| && Shape(b, |b|, |b|) && |r| == |b|
    ensures Shape(a, |b|, |b|)
  {
    RemoveRow([r] + b, j + 1)
  }

  /** The first n products of two vectors, summed. */
  function Dot(a: Vector, x: Vector, n: nat): bool
    requires n <= |a| && n <= |x|
  {
    n > 0 && Dot(a, x, n - 1) != (a[n - 1] && x[n - 1])
  }

  /** One output bit of the affine map with matrix row a and offset bit t. */
  function Affine(a: Vector, t: bool, x: Vector): bool
    requires |a| == |x|
  {
    Dot(a, x, |a|) != t
  }

  // ----- Cramer's rule -----

  /** The numbers up to n without j, in order. */
  function AllBut(n: nat, j: nat): (ids: seq<nat>)
    requires j <= n
    ensures |ids| == n && forall p :: 0 <= p < n ==> ids[p] == if p < j then p else p + 1
  {
    seq(n, p => if p < j then p else p + 1)
  }

  lemma AllButMembers(n: nat, j: nat)
    requires j <= n
    ensures Members(AllBut(n, j)) == UpTo(n + 1) - {j}
  {
    var ids := AllBut(n, j);
    forall x | x in UpTo(n + 1) - {j} ensures x in ids {
      assert ids[if x < j then x else x - 1] == x;
    }
  }

  lemma RemovedRow(e: Matrix, n: nat, j: nat)
    requires Shape(e, n + 1, n) && j <= n
    ensures Det(Entry(e), n + 1, UpTo(n + 1) - {j}, Numbers(n)) == Gf2Det(RemoveRow(e, j))
  {
    SelectedRows(RemoveRow(e, j), e, AllBut(n, j));
    AllButMembers(n, j);
  }

  /** A term of the expansion of n + 1 rows along a copy of their column k. */
  lemma BorderTerm(e: Matrix, n: nat, k: nat, i: nat)
    requires Shape(e, n + 1, n) && k < n && i <= n
    ensures Terms(Entry(e), n + 1, UpTo(n + 1), k, Numbers(n))(i) == (e[i][k] && Gf2Det(RemoveRow(e, i)))
  {
    RemovedRow(e, n, i);
  }

  /** With a copy of its column k on the left, e has two equal columns; the expansion along the copy vanishes. */
  lemma {:induction false} BorderedCramer(e: Matrix, n: nat, k: nat, f: nat -> bool)
    requires Shape(e, n + 1, n) && k < n
    requires forall j: nat :: j < n ==> f(j) == (e[j + 1][k] && Gf2Det(RemoveRow(e, j + 1)))
    ensures Sum(n, f) == (e[0][k] && Gf2Det(RemoveRow(e, 0)))
  {
    var terms := Terms(Entry(e), n + 1, UpTo(n + 1), k, Numbers(n));
    BorderVanishes(Entry(e), n, k);
    forall j: nat | j < n ensures f(j) == terms(j + 1) { BorderTerm(e, n, k, j + 1); }
    BorderTerm(e, n, k, 0);
    Front(n + 1, terms, f);
  }

  lemma OnTop(b: Matrix, r: Vector) returns (e: Matrix)
    requires Shape(b, |b|, |b|) && |r| == |b|
    ensures Shape(e, |b| + 1, |b|) && e[0] == r && RemoveRow(e, 0) == b
    ensures forall j: nat :: j < |b| ==> e[j + 1] == b[j] && RemoveRow(e, j + 1) == Replaced(b, r, j)
  {
    e := [r] + b;
  }

  /** Cramer's rule without signs or division: B with r on top, expanded along a copy of column k. */
  lemma Cramer(b: Matrix, r: Vector, k: nat, f: nat -> bool)
    requires Shape(b, |b|, |b|) && |r| == |b| && k < |b|
    requires forall j: nat :: j < |b| ==> f(j) == (b[j][k] && Gf2Det(Replaced(b, r, j)))
    ensures Sum(|b|, f) == (r[k] && Gf2Det(b))
  {
    var e := OnTop(b, r);
    BorderedCramer(e, |b|, k, f);
  }

  lemma BorderVanishes(m: Table, n: nat, k: nat)
    requires k < n
    ensures !Sum(n + 1, Terms(m, n + 1, UpTo(n + 1), k, Numbers(n)))
  {
    var cols := [k] + Numbers(n);
    EqualColumns(m, n + 1, UpTo(n + 1), cols, 0, k + 1);
    assert cols[1..] == Numbers(n);
    Laplace(m, n + 1, UpTo(n + 1), cols);
  }

  /** The source's solver: M is filled cell by cell with determinants, then split. */
  method Solve(inputs: seq<Vector>, outputs: seq<Vector>, d: nat, o: nat) returns (A: Matrix, t: Vector)
    requires d > 0 && |inputs| == |outputs| == d + 1
    requires forall k :: 0 <= k <= d ==> |inputs[k]| == d && |outputs[k]| == o
    requires Gf2Det(Bordered(inputs, d))
    ensures Shape(A, o, d) && |t| == o
    ensures forall i, k :: 0 <= i < o && 0 <= k <= d ==> Affine(A[i], t[i], inputs[k]) == outputs[k][i]
  {
    var B := Bordered(inputs, d);
    A, t := [], [];
    for i := 0 to o
      invariant Shape(A, i, d) && |t| == i
      invariant forall i', k :: 0 <= i' < i && 0 <= k <= d ==> Affine(A[i'], t[i'], inputs[k]) == outputs[k][i']
    {
      var R := HStack(outputs, o)[i];
      var M: Vector := [];
      for j := 0 to d + 1
        invariant |M| == j && forall j' :: 0 <= j' < j ==> M[j'] == Gf2Det(Replaced(B, R, j'))
      {
        var entry := Determinant(Replaced(B, R, j));
        M := M + [entry];
      }
      forall k | 0 <= k <= d ensures Affine(M[..d], M[d], inputs[k]) == outputs[k][i] {
        RowSolves(inputs, d, R, M, k);
      }
      A, t := A + [M[..d]], t + [M[d]];
    }
  }

  lemma RowSolves(inputs: seq<Vector>, d: nat, r: Vector, cells: Vector, k: nat)
    requires |inputs| == d + 1 && |r| == d + 1 && |cells| == d + 1 && k <= d
    requires forall l :: 0 <= l <= d ==> |inputs[l]| == d
    requires Gf2Det(Bordered(inputs, d))
    requires forall j :: 0 <= j <= d ==> cells[j] == Gf2Det(Replaced(Bordered(inputs, d), r, j))
    ensures Affine(cells[..d], cells[d], inputs[k]) == r[k]
  {
    var B := Bordered(inputs, d);
    var f := (j: nat) => j <= d && B[j][k] && cells[j];
    Cramer(B, r, k, f);
    DotAsSum(cells[..d], inputs[k], d, f);
  }

  lemma {:induction false} DotAsSum(a: Vector, x: Vector, n: nat, f: nat -> bool)
    requires n <= |a| && n <= |x|
    requires forall j: nat :: j < n ==> f(j) == (a[j] && x[j])
    ensures Dot(a, x, n) == Sum(n, f)
  {
    if n > 0 { DotAsSum(a, x, n - 1, f); }
  }

  // ----- Uniqueness -----

  lemma {:induction false} CombineIsDot(
    b: Matrix, a: Vector, a': Vector, weight: nat -> bool, x: Vector, k: nat, n: nat)
    requires n <= |a| == |a'| == |x| && |x| < |b| && k < |b|
    requires Shape(b, |b|, |b|)
    requires forall j :: 0 <= j < |x| ==> b[j][k] == x[j]
    requires forall j: nat :: j < |x| ==> weight(j) == (a[j] != a'[j])
    ensures Combine(Entry(b), weight, n, k) == (Dot(a, x, n) != Dot(a', x, n))
  {
    if n > 0 { CombineIsDot(b, a, a', weight, x, k, n - 1); }
  }

  /** At affinely independent points an affine function is determined by its values. */
  lemma Unique(inputs: seq<Vector>, d: nat, a: Vector, t: bool, a': Vector, t': bool)
    requires |inputs| == d + 1 && forall k :: 0 <= k <= d ==> |inputs[k]| == d
    requires Gf2Det(Bordered(inputs, d))
    requires |a| == |a'| == d
    requires forall k :: 0 <= k <= d ==> Affine(a, t, inputs[k]) == Affine(a', t', inputs[k])
    ensures a == a' && t == t'
  {
    var B, n := Bordered(inputs, d), d + 1;
    var weight := (j: nat) => if j < d then a[j] != a'[j] else t != t';
    forall c | c in Numbers(n) ensures !Combine(Entry(B), weight, n, c) {
      CombineIsDot(B, a, a', weight, inputs[c], c, d);
      assert Entry(B)(d, c);
    }
    forall j: nat | j < n ensures !weight(j) {
      RowsIndependent(Entry(B), n, Numbers(n), weight, j);
    }
    assert !weight(d);
    forall j | 0 <= j < d ensures a[j] == a'[j] { assert !weight(j); }
  }

  // ----- Affine independence is solvability -----

  /** Columns 0..d of B, then at d+k the difference of columns k and 0. */
  function WithDifferences(b: Matrix, d: nat): Table {
    (i: nat, c: nat) => if c <= d then Entry(b)(i, c) else Entry(b)(i, c - d) != Entry(b)(i, 0)
  }

  /** Column 0, the first k differences, then the remaining columns of B. */
  function Stage(d: nat, k: nat): seq<nat> {
    seq(d + 1, p => if 0 < p <= k then d + p else p)
  }

  lemma {:induction false} SubtractFirstColumn(b: Matrix, d: nat, k: nat)
    requires Shape(b, d + 1, d + 1) && k <= d
    ensures Det(WithDifferences(b, d), d + 1, UpTo(d + 1), Stage(d, k)) == Gf2Det(b)
  {
    var m, n, rows := WithDifferences(b, d), d + 1, UpTo(d + 1);
    if k == 0 {
      SameEntries(m, Stage(d, 0), Entry(b), Numbers(n), n, rows);
    } else {
      SubtractFirstColumn(b, d, k - 1);
      var cols := Stage(d, k - 1);
      ColumnAdditive(m, n, rows, cols, k, k, 0, d + k);
      assert cols[k := k] == cols && cols[k := d + k] == Stage(d, k);
      EqualColumns(m, n, rows, cols[k := 0], 0, k);
    }
  }

  /** The independence test that guards feeding is the solver's solvability condition. */
  lemma IndependentIffSolvable(inputs: seq<Vector>, d: nat)
    requires d > 0 && |inputs| == d + 1 && forall k :: 0 <= k <= d ==> |inputs[k]| == d
    ensures AffinelyIndependent(inputs) == Gf2Det(Bordered(inputs, d))
  {
    var b := Bordered(inputs, d);
    var m, n, rows, cols := WithDifferences(b, d), d + 1, UpTo(d + 1), Stage(d, d);
    SubtractFirstColumn(b, d, d);
    var terms := Terms(m, n, rows, cols[0], cols[1..]);
    forall i: nat | i < d ensures !terms(i) {
      ZeroRow(m, n, rows - {i}, cols[1..], d);
    }
    Single(n, d, terms);
    Laplace(m, n, rows, cols);
    assert rows - {d} == UpTo(d);
    var diffs := HStack(Differences(inputs), d);
    SameEntries(m, cols[1..], Entry(diffs), Numbers(d), n, UpTo(d));
    AnyBound(Entry(diffs), d, n, UpTo(d), Numbers(d));
  }
}
