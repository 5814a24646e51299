/**
 Sums over GF(2): the parity of the number of indices at which a predicate holds.
 Every lemma takes its summands as function values and relates them pointwise, so that
 callers never depend on two function values being equal.
 */
module Parity {

  function Sum(n: nat, f: nat -> bool): bool {
    if n == 0 then false else Sum(n - 1, f) != f(n - 1)
  }

  /** The parity of f along row i of an n-by-m table, and over the whole table. */
  function RowSum(i: nat, m: nat, f: (nat, nat) -> bool): bool {
    if m == 0 then false else RowSum(i, m - 1, f) != f(i, m - 1)
  }

  function TableSum(n: nat, m: nat, f: (nat, nat) -> bool): bool {
    if n == 0 then false else TableSum(n - 1, m, f) != RowSum(n - 1, m, f)
  }

  lemma {:induction false} Congruent(n: nat, f: nat -> bool, g: nat -> bool)
    requires forall i: nat :: i < n ==> f(i) == g(i)
    ensures Sum(n, f) == Sum(n, g)
  {
    if n > 0 { Congruent(n - 1, f, g); }
  }

  lemma {:induction false} Zero(n: nat, f: nat -> bool)
    requires forall i: nat :: i < n ==> !f(i)
    ensures !Sum(n, f)
  {
    if n > 0 { Zero(n - 1, f); }
  }

  lemma {:induction false} Additive(n: nat, f: nat -> bool, g: nat -> bool, h: nat -> bool)
    requires forall i: nat :: i < n ==> h(i) == (f(i) != g(i))
    ensures Sum(n, h) == (Sum(n, f) != Sum(n, g))
  {
    if n > 0 { Additive(n - 1, f, g, h); }
  }

  lemma {:induction false} Scaled(n: nat, c: bool, f: nat -> bool, g: nat -> bool)
    requires forall i: nat :: i < n ==> g(i) == (c && f(i))
    ensures Sum(n, g) == (c && Sum(n, f))
  {
    if n > 0 { Scaled(n - 1, c, f, g); }
  }

  /** All summands but those at the listed indices vanish. */
  lemma {:induction false} Single(n: nat, k: nat, f: nat -> bool)
    requires k < n
    requires forall i: nat :: i < n && i != k ==> !f(i)
    ensures Sum(n, f) == f(k)
  {
    if k < n - 1 { Single(n - 1, k, f); } else { Zero(n - 1, f); }
  }

  lemma {:induction false} Pair(n: nat, k: nat, l: nat, f: nat -> bool)
    requires k < l < n
    requires forall i: nat :: i < n && i != k && i != l ==> !f(i)
    ensures Sum(n, f) == (f(k) != f(l))
  {
    if l < n - 1 { Pair(n - 1, k, l, f); } else { Single(n - 1, k, f); }
  }

  /** Summing from the front: index 0 first, then the shifted rest. */
  lemma {:induction false} Front(n: nat, f: nat -> bool, g: nat -> bool)
    requires n > 0
    requires forall i: nat :: i < n - 1 ==> g(i) == f(i + 1)
    ensures Sum(n, f) == (f(0) != Sum(n - 1, g))
  {
    if n > 1 { Front(n - 1, f, g); }
  }

  /** Reversing the order of the indices does not change the parity. */
  lemma {:induction false} Reversed(n: nat, f: nat -> bool, g: nat -> bool)
    requires forall i: nat :: i < n ==> g(i) == f(n - 1 - i)
    ensures Sum(n, f) == Sum(n, g)
  {
    if n > 0 {
      var h := (i: nat) => g(i + 1);
      Front(n, g, h);
      Reversed(n - 1, f, h);
    }
  }

  /** A longer range adds nothing when the extra summands vanish. */
  lemma {:induction false} Extend(n: nat, m: nat, f: nat -> bool)
    requires n <= m
    requires forall i: nat :: n <= i < m ==> !f(i)
    ensures Sum(n, f) == Sum(m, f)
  {
    if n < m { Extend(n, m - 1, f); }
  }

  lemma {:induction false} RowAsSum(i: nat, m: nat, f: (nat, nat) -> bool, g: nat -> bool)
    requires forall j: nat :: j < m ==> g(j) == f(i, j)
    ensures RowSum(i, m, f) == Sum(m, g)
  {
    if m > 0 { RowAsSum(i, m - 1, f, g); }
  }

  lemma {:induction false} TableAsSum(n: nat, m: nat, f: (nat, nat) -> bool, g: nat -> bool)
    requires forall i: nat :: i < n ==> g(i) == RowSum(i, m, f)
    ensures TableSum(n, m, f) == Sum(n, g)
  {
    if n > 0 { TableAsSum(n - 1, m, f, g); }
  }

  lemma {:induction false} LastColumn(n: nat, m: nat, f: (nat, nat) -> bool, g: (nat, nat) -> bool)
    requires forall i: nat, j: nat :: i < n && j <= m ==> g(j, i) == f(i, j)
    ensures TableSum(n, m + 1, f) == (TableSum(n, m, f) != RowSum(m, n, g))
  {
    if n > 0 { LastColumn(n - 1, m, f, g); }
  }

  /** The order of summation does not matter. */
  lemma {:induction false} Fubini(n: nat, m: nat, f: (nat, nat) -> bool, g: (nat, nat) -> bool)
    requires forall i: nat, j: nat :: i < n && j < m ==> g(j, i) == f(i, j)
    ensures TableSum(n, m, f) == TableSum(m, n, g)
  {
    if m == 0 {
      EmptyRows(n, f);
    } else {
      Fubini(n, m - 1, f, g);
      LastColumn(n, m - 1, f, g);
    }
  }

  lemma {:induction false} EmptyRows(n: nat, f: (nat, nat) -> bool)
    ensures !TableSum(n, 0, f)
  {
    if n > 0 { EmptyRows(n - 1, f); }
  }

  /** In characteristic two a symmetric table with an empty diagonal sums to zero. */
  lemma {:induction false} SymmetricCancels(n: nat, f: (nat, nat) -> bool)
    requires forall i: nat, j: nat :: i < n && j < n ==> f(i, j) == f(j, i)
    requires forall i: nat :: i < n ==> !f(i, i)
    ensures !TableSum(n, n, f)
  {
    if n > 0 {
      SymmetricCancels(n - 1, f);
      LastColumn(n - 1, n - 1, f, f);
    }
  }

  /** Summing over the positions of a repetition-free list is summing over its members. */
  lemma {:induction false} OverMembers(ids: seq<nat>, n: nat, f: nat -> bool, g: nat -> bool, h: nat -> bool)
    requires forall p :: 0 <= p < |ids| ==> ids[p] < n
    requires forall p, q :: 0 <= p < q < |ids| ==> ids[p] != ids[q]
    requires forall p: nat :: p < |ids| ==> g(p) == f(ids[p])
    requires forall i: nat :: i < n ==> h(i) == (i in ids && f(i))
    ensures Sum(|ids|, g) == Sum(n, h)
  {
    if ids == [] {
      Zero(n, h);
    } else {
      var k := |ids| - 1;
      var rest := ids[..k];
      var h' := (i: nat) => i in rest && f(i);
      OverMembers(rest, n, f, g, h');
      var last := (i: nat) => i == ids[k] && f(i);
      assert forall i :: i in ids <==> i in rest || i == ids[k];
      Additive(n, h', last, h);
      Single(n, ids[k], last);
    }
  }
}
