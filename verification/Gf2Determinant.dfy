/**
 Determinants over GF(2). Without signs the Laplace expansion does not depend on the order
 of the rows, so the rows still to be used form a set of row numbers; the columns are a list
 of column numbers, expanded from the front. Repeating a column number in that list, or adding
 a row number, gives bordered matrices without building them.
 */
module Gf2Determinant {
  import opened Collections
  import opened Parity

  type Table = (nat, nat) -> bool

  function Det(m: Table, n: nat, rows: set<nat>, cols: seq<nat>): bool
    decreases |cols|, 1, 0
  {
    if cols == [] then rows == {} else Expand(m, n, rows, cols, n)
  }

  /** The first k terms of the expansion along the first column. */
  function Expand(m: Table, n: nat, rows: set<nat>, cols: seq<nat>, k: nat): bool
    requires cols != []
    decreases |cols|, 0, k
  {
    k > 0 &&
    Expand(m, n, rows, cols, k - 1) != (k - 1 in rows && m(k - 1, cols[0]) && Det(m, n, rows - {k - 1}, cols[1..]))
  }

  lemma {:induction false} ExpandAsSum(m: Table, n: nat, rows: set<nat>, cols: seq<nat>, k: nat, f: nat -> bool)
    requires cols != []
    requires forall i: nat :: i < k ==> f(i) == (i in rows && m(i, cols[0]) && Det(m, n, rows - {i}, cols[1..]))
    ensures Expand(m, n, rows, cols, k) == Sum(k, f)
  {
    if k > 0 { ExpandAsSum(m, n, rows, cols, k - 1, f); }
  }

  /** The expansion of Det(m, n, rows, [c] + rest) as a sum over row numbers. */
  function Terms(m: Table, n: nat, rows: set<nat>, c: nat, rest: seq<nat>): nat -> bool {
    i => i in rows && m(i, c) && Det(m, n, rows - {i}, rest)
  }

  lemma Laplace(m: Table, n: nat, rows: set<nat>, cols: seq<nat>)
    requires cols != []
    ensures Det(m, n, rows, cols) == Sum(n, Terms(m, n, rows, cols[0], cols[1..]))
  {
    ExpandAsSum(m, n, rows, cols, n, Terms(m, n, rows, cols[0], cols[1..]));
  }

  /** Only the entries that the row and column numbers select matter. */
  lemma {:induction false} SameEntries(m: Table, cols: seq<nat>, m': Table, cols': seq<nat>, n: nat, rows: set<nat>)
    requires |cols| == |cols'|
    requires forall i, c :: i in rows && 0 <= c < |cols| ==> m(i, cols[c]) == m'(i, cols'[c])
    ensures Det(m, n, rows, cols) == Det(m', n, rows, cols')
  {
    if cols != [] {
      var f, g := Terms(m, n, rows, cols[0], cols[1..]), Terms(m', n, rows, cols'[0], cols'[1..]);
      forall i: nat | i < n ensures f(i) == g(i) {
        SameEntries(m, cols[1..], m', cols'[1..], n, rows - {i});
      }
      Congruent(n, f, g);
      Laplace(m, n, rows, cols);
      Laplace(m', n, rows, cols');
    }
  }

  /** The bound on the row numbers is only a bound. */
  lemma {:induction false} AnyBound(m: Table, n: nat, n': nat, rows: set<nat>, cols: seq<nat>)
    requires n <= n'
    requires forall i :: i in rows ==> i < n
    ensures Det(m, n, rows, cols) == Det(m, n', rows, cols)
  {
    if cols != [] {
      var f, g := Terms(m, n, rows, cols[0], cols[1..]), Terms(m, n', rows, cols[0], cols[1..]);
      forall i: nat | i < n' ensures f(i) == g(i) {
        if i in rows { AnyBound(m, n, n', rows - {i}, cols[1..]); }
      }
      Congruent(n, f, g);
      Extend(n, n', g);
      Laplace(m, n, rows, cols);
      Laplace(m, n', rows, cols);
    }
  }

  // ----- Columns -----

  /** The expansion along the first two columns, as a table indexed by the two rows used. */
  function PairTerms(m: Table, n: nat, rows: set<nat>, a: nat, b: nat, rest: seq<nat>): Table {
    (i, j) => i in rows && j in rows && i != j && m(i, a) && m(j, b) && Det(m, n, rows - {i, j}, rest)
  }

  lemma TwoColumns(m: Table, n: nat, rows: set<nat>, a: nat, b: nat, rest: seq<nat>)
    ensures Det(m, n, rows, [a, b] + rest) == TableSum(n, n, PairTerms(m, n, rows, a, b, rest))
  {
    var cols := [a, b] + rest;
    assert cols[1..] == [b] + rest && ([b] + rest)[1..] == rest;
    var f := Terms(m, n, rows, a, [b] + rest);
    var p := PairTerms(m, n, rows, a, b, rest);
    Laplace(m, n, rows, cols);
    forall i: nat | i < n ensures f(i) == RowSum(i, n, p) {
      var inner := Terms(m, n, rows - {i}, b, rest);
      Laplace(m, n, rows - {i}, [b] + rest);
      var g := (j: nat) => p(i, j);
      forall j: nat | j < n ensures g(j) == ((i in rows && m(i, a)) && inner(j)) {
        assert rows - {i} - {j} == rows - {i, j};
      }
      Scaled(n, i in rows && m(i, a), inner, g);
      RowAsSum(i, n, p, g);
    }
    TableAsSum(n, n, p, f);
  }

  lemma SwapFirstColumns(m: Table, n: nat, rows: set<nat>, a: nat, b: nat, rest: seq<nat>)
    ensures Det(m, n, rows, [a, b] + rest) == Det(m, n, rows, [b, a] + rest)
  {
    TwoColumns(m, n, rows, a, b, rest);
    TwoColumns(m, n, rows, b, a, rest);
    var f, g := PairTerms(m, n, rows, a, b, rest), PairTerms(m, n, rows, b, a, rest);
    forall i: nat, j: nat | i < n && j < n ensures g(j, i) == f(i, j) {
      assert {i, j} == {j, i};
    }
    Fubini(n, n, f, g);
  }

  lemma EqualFirstColumns(m: Table, n: nat, rows: set<nat>, a: nat, rest: seq<nat>)
    ensures !Det(m, n, rows, [a, a] + rest)
  {
    TwoColumns(m, n, rows, a, a, rest);
    var f := PairTerms(m, n, rows, a, a, rest);
    forall i: nat, j: nat | i < n && j < n ensures f(i, j) == f(j, i) {
      assert {i, j} == {j, i};
    }
    SymmetricCancels(n, f);
  }

  lemma {:induction false} SwapColumns(m: Table, n: nat, rows: set<nat>, cols: seq<nat>, k: nat)
    requires k + 1 < |cols|
    ensures Det(m, n, rows, cols) == Det(m, n, rows, cols[k := cols[k + 1]][k + 1 := cols[k]])
  {
    var swapped := cols[k := cols[k + 1]][k + 1 := cols[k]];
    if k == 0 {
      assert cols == [cols[0], cols[1]] + cols[2..];
      assert swapped == [cols[1], cols[0]] + cols[2..];
      SwapFirstColumns(m, n, rows, cols[0], cols[1], cols[2..]);
    } else {
      var f, g := Terms(m, n, rows, cols[0], cols[1..]), Terms(m, n, rows, cols[0], swapped[1..]);
      forall i: nat | i < n ensures f(i) == g(i) {
        SwapColumns(m, n, rows - {i}, cols[1..], k - 1);
        assert swapped[1..] == cols[1..][k - 1 := cols[k + 1]][k := cols[k]];
      }
      Congruent(n, f, g);
      Laplace(m, n, rows, cols);
      Laplace(m, n, rows, swapped);
    }
  }

  /** A determinant with a repeated column vanishes. */
  lemma {:induction false} EqualColumns(m: Table, n: nat, rows: set<nat>, cols: seq<nat>, p: nat, q: nat)
    requires p < q < |cols| && cols[p] == cols[q]
    ensures !Det(m, n, rows, cols)
    decreases |cols|, q
  {
    if p > 0 {
      var f := Terms(m, n, rows, cols[0], cols[1..]);
      forall i: nat | i < n ensures !f(i) {
        EqualColumns(m, n, rows - {i}, cols[1..], p - 1, q - 1);
      }
      Zero(n, f);
      Laplace(m, n, rows, cols);
    } else if q == 1 {
      assert cols == [cols[0], cols[0]] + cols[2..];
      EqualFirstColumns(m, n, rows, cols[0], cols[2..]);
    } else {
      SwapColumns(m, n, rows, cols, q - 1);
      EqualColumns(m, n, rows, cols[q - 1 := cols[q]][q := cols[q - 1]], 0, q - 1);
    }
  }

  /** The determinant is additive in each column. */
  lemma {:induction false} ColumnAdditive(
    m: Table, n: nat, rows: set<nat>, cols: seq<nat>, k: nat, u: nat, v: nat, w: nat)
    requires k < |cols|
    requires forall i :: i in rows ==> m(i, w) == (m(i, u) != m(i, v))
    ensures Det(m, n, rows, cols[k := w]) == (Det(m, n, rows, cols[k := u]) != Det(m, n, rows, cols[k := v]))
  {
    var cu, cv, cw := cols[k := u], cols[k := v], cols[k := w];
    var fu, fv := Terms(m, n, rows, cu[0], cu[1..]), Terms(m, n, rows, cv[0], cv[1..]);
    var fw := Terms(m, n, rows, cw[0], cw[1..]);
    forall i: nat | i < n ensures fw(i) == (fu(i) != fv(i)) {
      if k > 0 {
        ColumnAdditive(m, n, rows - {i}, cols[1..], k - 1, u, v, w);
        assert cu[1..] == cols[1..][k - 1 := u] && cv[1..] == cols[1..][k - 1 := v] && cw[1..] == cols[1..][k - 1 := w];
      } else {
        assert cu[1..] == cols[1..] == cv[1..] == cw[1..];
      }
    }
    Additive(n, fu, fv, fw);
    Laplace(m, n, rows, cu);
    Laplace(m, n, rows, cv);
    Laplace(m, n, rows, cw);
  }

  /** A last column with its only one in row z leaves the cofactor of that entry. */
  lemma {:induction false} UnitLastColumn(m: Table, n: nat, rows: set<nat>, cols: seq<nat>, e: nat, z: nat)
    requires z in rows && forall i :: i in rows ==> i < n && m(i, e) == (i == z)
    ensures Det(m, n, rows, cols + [e]) == Det(m, n, rows - {z}, cols)
  {
    if cols == [] {
      var f := Terms(m, n, rows, e, []);
      Laplace(m, n, rows, [e]);
      Single(n, z, f);
      assert cols + [e] == [e] && [e][1..] == [];
    } else {
      var c, rest := cols[0], cols[1..];
      assert (cols + [e])[1..] == rest + [e];
      var f, g := Terms(m, n, rows, c, rest + [e]), Terms(m, n, rows - {z}, c, rest);
      forall i: nat | i < n ensures f(i) == g(i) {
        if i in rows && i != z {
          UnitLastColumn(m, n, rows - {i}, rest, e, z);
          assert rows - {i} - {z} == rows - {z} - {i};
        } else if i == z {
          NoLastColumn(m, n, rows - {z}, rest, e);
        }
      }
      Congruent(n, f, g);
      Laplace(m, n, rows, cols + [e]);
      Laplace(m, n, rows - {z}, cols);
    }
  }

  lemma {:induction false} NoLastColumn(m: Table, n: nat, rows: set<nat>, cols: seq<nat>, e: nat)
    requires forall i :: i in rows ==> !m(i, e)
    ensures !Det(m, n, rows, cols + [e])
  {
    var all := cols + [e];
    var f := Terms(m, n, rows, all[0], all[1..]);
    forall i: nat | i < n ensures !f(i) {
      if cols != [] {
        assert all[1..] == cols[1..] + [e];
        NoLastColumn(m, n, rows - {i}, cols[1..], e);
      }
    }
    Zero(n, f);
    Laplace(m, n, rows, all);
  }

  // ----- Rows -----

  lemma {:induction false} ZeroRow(m: Table, n: nat, rows: set<nat>, cols: seq<nat>, z: nat)
    requires z in rows && forall c :: c in cols ==> !m(z, c)
    ensures !Det(m, n, rows, cols)
  {
    if cols != [] {
      var f := Terms(m, n, rows, cols[0], cols[1..]);
      forall i: nat | i < n ensures !f(i) {
        if i != z { ZeroRow(m, n, rows - {i}, cols[1..], z); }
      }
      Zero(n, f);
      Laplace(m, n, rows, cols);
    }
  }

  /** The determinant is additive in each row. */
  lemma {:induction false} RowAdditive(m: Table, n: nat, rows: set<nat>, cols: seq<nat>, u: nat, v: nat, w: nat)
    requires u !in rows && v !in rows && w !in rows && u < n && v < n && w < n
    requires forall c :: c in cols ==> m(w, c) == (m(u, c) != m(v, c))
    ensures Det(m, n, rows + {w}, cols) == (Det(m, n, rows + {u}, cols) != Det(m, n, rows + {v}, cols))
  {
    if cols == [] {
      assert w in rows + {w} && u in rows + {u} && v in rows + {v};
    } else {
      var c, rest := cols[0], cols[1..];
      OneRow(m, n, rows, cols, w);
      OneRow(m, n, rows, cols, u);
      OneRow(m, n, rows, cols, v);
      var fu, fv, fw := Others(m, n, rows, u, c, rest), Others(m, n, rows, v, c, rest), Others(m, n, rows, w, c, rest);
      forall i: nat | i < n ensures fw(i) == (fu(i) != fv(i)) {
        RowAdditive(m, n, rows - {i}, rest, u, v, w);
      }
      Additive(n, fu, fv, fw);
    }
  }

  /** The terms of an expansion that keep row z, which is not among rows. */
  function Others(m: Table, n: nat, rows: set<nat>, z: nat, c: nat, rest: seq<nat>): nat -> bool {
    i => i in rows && m(i, c) && Det(m, n, rows - {i} + {z}, rest)
  }

  lemma OneRow(m: Table, n: nat, rows: set<nat>, cols: seq<nat>, z: nat)
    requires z !in rows && z < n && cols != []
    ensures Det(m, n, rows + {z}, cols)
         == (Sum(n, Others(m, n, rows, z, cols[0], cols[1..])) != (m(z, cols[0]) && Det(m, n, rows, cols[1..])))
  {
    var c, rest := cols[0], cols[1..];
    var all, kept := Terms(m, n, rows + {z}, c, rest), Others(m, n, rows, z, c, rest);
    var used := (i: nat) => i == z && m(z, c) && Det(m, n, rows, rest);
    forall i: nat | i < n ensures all(i) == (kept(i) != used(i)) {
      if i == z {
        assert rows + {z} - {z} == rows;
      } else if i in rows {
        assert rows + {z} - {i} == rows - {i} + {z};
      }
    }
    Additive(n, kept, used, all);
    Single(n, z, used);
    Laplace(m, n, rows + {z}, cols);
  }

  /** Rows with the same entries are interchangeable. */
  lemma {:induction false} RenameRow(m: Table, n: nat, rows: set<nat>, cols: seq<nat>, u: nat, v: nat)
    requires u !in rows && v !in rows && u < n && v < n
    requires forall c :: c in cols ==> m(u, c) == m(v, c)
    ensures Det(m, n, rows + {u}, cols) == Det(m, n, rows + {v}, cols)
  {
    if cols == [] {
      assert u in rows + {u} && v in rows + {v};
    } else {
      var c, rest := cols[0], cols[1..];
      OneRow(m, n, rows, cols, u);
      OneRow(m, n, rows, cols, v);
      var fu, fv := Others(m, n, rows, u, c, rest), Others(m, n, rows, v, c, rest);
      forall i: nat | i < n ensures fu(i) == fv(i) {
        RenameRow(m, n, rows - {i}, rest, u, v);
      }
      Congruent(n, fu, fv);
    }
  }

  /** A determinant with two equal rows vanishes. */
  lemma {:induction false} EqualRows(m: Table, n: nat, rows: set<nat>, cols: seq<nat>, u: nat, v: nat)
    requires u != v && u in rows && v in rows && u < n && v < n
    requires forall c :: c in cols ==> m(u, c) == m(v, c)
    ensures !Det(m, n, rows, cols)
  {
    if cols != [] {
      var c, rest := cols[0], cols[1..];
      var f := Terms(m, n, rows, c, rest);
      forall i: nat | i < n && i != u && i != v ensures !f(i) {
        EqualRows(m, n, rows - {i}, rest, u, v);
      }
      RenameRow(m, n, rows - {u, v}, rest, u, v);
      assert rows - {u, v} + {u} == rows - {v} && rows - {u, v} + {v} == rows - {u};
      Pair(n, if u < v then u else v, if u < v then v else u, f);
      Laplace(m, n, rows, cols);
    }
  }

  // ----- Independence of the rows of a non-singular matrix -----

  /** The combination of the first k rows with the given weights. */
  function Combine(m: Table, weight: nat -> bool, k: nat, c: nat): bool {
    k > 0 && Combine(m, weight, k - 1, c) != (weight(k - 1) && m(k - 1, c))
  }

  /** m below row n; rows n..2n combine ever more rows; rows from 2n+1 on copy m again. */
  function WithCombinations(m: Table, n: nat, weight: nat -> bool): Table {
    (i: nat, c: nat) => if i < n then m(i, c)
              else if i <= 2 * n then Combine(m, weight, i - n, c)
              else m(i - (2 * n + 1), c)
  }

  lemma {:induction false} DetOfCombination(
    m: Table, n: nat, cols: seq<nat>, weight: nat -> bool, j: nat, k: nat)
    requires j < n && k <= n
    requires Det(m, n, UpTo(n), cols)
    ensures Det(WithCombinations(m, n, weight), 3 * n + 1, UpTo(n) - {j} + {n + k}, cols) == (j < k && weight(j))
  {
    var M, N, rest := WithCombinations(m, n, weight), 3 * n + 1, UpTo(n) - {j};
    if k == 0 {
      assert forall c :: c in cols ==> M(n, c) == Combine(m, weight, 0, c);
      ZeroRow(M, N, rest + {n}, cols, n);
    } else {
      var copy := 2 * n + k;
      DetOfCombination(m, n, cols, weight, j, k - 1);
      forall c | c in cols ensures M(n + k, c) == (M(n + k - 1, c) != (weight(k - 1) && M(copy, c))) {
        assert M(n + k, c) == Combine(m, weight, k, c);
        assert M(n + k - 1, c) == Combine(m, weight, k - 1, c);
        assert M(copy, c) == m(k - 1, c);
      }
      if weight(k - 1) {
        RowAdditive(M, N, rest, cols, n + k - 1, copy, n + k);
        if k - 1 == j {
          RenameRow(M, N, rest, cols, copy, j);
          assert rest + {j} == UpTo(n);
          SameEntries(M, cols, m, cols, N, UpTo(n));
          AnyBound(m, n, N, UpTo(n), cols);
        } else {
          EqualRows(M, N, rest + {copy}, cols, k - 1, copy);
        }
      } else {
        RenameRow(M, N, rest, cols, n + k - 1, n + k);
      }
    }
  }

  /** No nontrivial combination of the rows of a non-singular matrix is zero. */
  lemma RowsIndependent(m: Table, n: nat, cols: seq<nat>, weight: nat -> bool, j: nat)
    requires j < n
    requires Det(m, n, UpTo(n), cols)
    requires forall c :: c in cols ==> !Combine(m, weight, n, c)
    ensures !weight(j)
  {
    DetOfCombination(m, n, cols, weight, j, n);
    ZeroRow(WithCombinations(m, n, weight), 3 * n + 1, UpTo(n) - {j} + {2 * n}, cols, 2 * n);
  }
}
