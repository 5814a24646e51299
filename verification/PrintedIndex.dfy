/**
 The printed form of an affine placement: maximal diagonals of ones in the matrix become
 shifted slices of the address, and xoring them gives the index function back.
 */
module PrintedIndex {
  import opened Parity
  import opened Words
  import opened AffinePolicies

  /** Address bits [lo, hi), shifted left. */
  datatype Group = Group(shift: int, hi: int, lo: int)

  /** The matrix cell at row r and, counted from the left of a w-bit word, column c. */
  predicate One(p: AffinePolicy, w: nat, r: nat, c: nat) {
    r < |p.matrix| && c < w && Bit(p.matrix[r], w - c - 1)
  }

  function IndexBits(p: AffinePolicy): int { |p.matrix| - p.offsetBits }

  /** A one-cell whose upper left neighbour, if any, is not a one. */
  predicate Starts(p: AffinePolicy, w: nat, r: nat, c: nat) {
    One(p, w, r, c) && (r == 0 || c == 0 || !One(p, w, r - 1, c - 1))
  }

  /** From (r, c) down the diagonal to row R there are only ones. */
  predicate Diagonal(p: AffinePolicy, w: nat, r: nat, c: nat, R: nat)
    decreases R
  {
    r <= R && One(p, w, R, c + R - r) && (r < R ==> Diagonal(p, w, r, c, R - 1))
  }

  lemma {:induction false} DiagonalPrefix(p: AffinePolicy, w: nat, r: nat, c: nat, R: nat, R': nat)
    requires r <= R' <= R && Diagonal(p, w, r, c, R)
    ensures Diagonal(p, w, r, c, R')
  {
    if R' < R { DiagonalPrefix(p, w, r, c, R - 1, R'); }
  }

  // ----- Every one-cell lies on exactly one maximal diagonal -----

  /** The steps from a one-cell up to the start of its diagonal. */
  function Back(p: AffinePolicy, w: nat, r: nat, c: nat): nat {
    if r > 0 && c > 0 && One(p, w, r - 1, c - 1) then 1 + Back(p, w, r - 1, c - 1) else 0
  }

  lemma {:induction false} OnOneDiagonal(p: AffinePolicy, w: nat, r: nat, c: nat, k: nat)
    requires One(p, w, r, c) && k <= r && k <= c
    ensures Starts(p, w, r - k, c - k) && Diagonal(p, w, r - k, c - k, r) <==> k == Back(p, w, r, c)
    decreases r
  {
    if r > 0 && c > 0 && One(p, w, r - 1, c - 1) {
      if k > 0 { OnOneDiagonal(p, w, r - 1, c - 1, k - 1); }
    } else if k > 0 && Diagonal(p, w, r - k, c - k, r) {
      DiagonalPrefix(p, w, r - k, c - k, r, r - 1);
      assert false;
    }
  }

  /** Whether the maximal diagonal that starts at (r, c) reaches row R in a column that f selects. */
  function Reaches(p: AffinePolicy, w: nat, R: nat, f: nat -> bool): (nat, nat) -> bool {
    (r: nat, c: nat) => Starts(p, w, r, c) && Diagonal(p, w, r, c, R) && r <= R && f(c + R - r)
  }

  function Cells(p: AffinePolicy, w: nat, R: nat, f: nat -> bool): nat -> bool {
    (c: nat) => One(p, w, R, c) && f(c)
  }

  lemma {:induction false} RowCongruent(i: nat, m: nat, f: (nat, nat) -> bool, g: (nat, nat) -> bool)
    requires forall j: nat :: j < m ==> f(i, j) == g(i, j)
    ensures RowSum(i, m, f) == RowSum(i, m, g)
  {
    if m > 0 { RowCongruent(i, m - 1, f, g); }
  }

  lemma {:induction false} TableCongruent(n: nat, m: nat, f: (nat, nat) -> bool, g: (nat, nat) -> bool)
    requires forall i: nat, j: nat :: i < n && j < m ==> f(i, j) == g(i, j)
    ensures TableSum(n, m, f) == TableSum(n, m, g)
  {
    if n > 0 {
      TableCongruent(n - 1, m, f, g);
      RowCongruent(n - 1, m, f, g);
    }
  }

  /** A diagonal reaches row R where it reached the row above one column to the left. */
  lemma ReachesNextRow(p: AffinePolicy, w: nat, R: nat, f: nat -> bool, g: nat -> bool, r: nat, c: nat)
    requires r < R
    requires forall d: nat :: g(d) == (One(p, w, R, d + 1) && f(d + 1))
    ensures Reaches(p, w, R, f)(r, c) == Reaches(p, w, R - 1, g)(r, c)
  {
    var d := c + (R - 1) - r;
    assert d + 1 == c + R - r;
    assert Diagonal(p, w, r, c, R) == (One(p, w, R, d + 1) && Diagonal(p, w, r, c, R - 1));
    assert Reaches(p, w, R - 1, g)(r, c) == (Starts(p, w, r, c) && Diagonal(p, w, r, c, R - 1) && g(d));
  }

  /** The diagonals through row R, weighted by column, are the row's one-cells, each once. */
  lemma {:induction false} DiagonalsPartition(p: AffinePolicy, w: nat, R: nat, f: nat -> bool)
    ensures TableSum(R + 1, w, Reaches(p, w, R, f)) == Sum(w, Cells(p, w, R, f))
  {
    var here := (c: nat) => Starts(p, w, R, c) && f(c);
    var now := Reaches(p, w, R, f);
    forall c: nat | c < w ensures here(c) == now(R, c) {
      assert c + R - R == c && Diagonal(p, w, R, c, R) == One(p, w, R, c);
    }
    RowAsSum(R, w, now, here);
    var above := (c: nat) => c > 0 && R > 0 && One(p, w, R - 1, c - 1) && One(p, w, R, c) && f(c);
    Additive(w, here, above, Cells(p, w, R, f));
    if R == 0 {
      Zero(w, above);
    } else {
      var shifted := (c: nat) => One(p, w, R, c + 1) && f(c + 1);
      DiagonalsPartition(p, w, R - 1, shifted);
      forall r: nat, c: nat | r < R && c < w ensures now(r, c) == Reaches(p, w, R - 1, shifted)(r, c) {
        ReachesNextRow(p, w, R, f, shifted, r, c);
      }
      TableCongruent(R, w, now, Reaches(p, w, R - 1, shifted));
      AboveShifted(p, w, R, f, shifted, above);
    }
  }

  lemma AboveShifted(p: AffinePolicy, w: nat, R: nat, f: nat -> bool, shifted: nat -> bool, above: nat -> bool)
    requires R > 0
    requires forall c: nat :: shifted(c) == (One(p, w, R, c + 1) && f(c + 1))
    requires forall c: nat :: above(c) == (c > 0 && One(p, w, R - 1, c - 1) && One(p, w, R, c) && f(c))
    ensures Sum(w, above) == Sum(w, Cells(p, w, R - 1, shifted))
  {
    if w > 0 {
      var tail, last: nat := Cells(p, w, R - 1, shifted), w - 1;
      forall c: nat ensures tail(c) == above(c + 1) {
        assert shifted(c) == (One(p, w, R, c + 1) && f(c + 1));
      }
      Front(w, above, tail);
      assert !above(last + 1);
    }
  }

  // ----- Finding the groups -----

  /** Bit q of the group's shifted slice of the address. */
  predicate GroupBit(g: Group, address: nat, q: nat) {
    g.shift <= q < g.shift + (g.hi - g.lo) && 0 <= g.lo && Bit(address, g.lo + (q - g.shift))
  }

  predicate GroupsBit(groups: seq<Group>, address: nat, q: nat) {
    groups != [] && GroupsBit(groups[..|groups| - 1], address, q) != GroupBit(groups[|groups| - 1], address, q)
  }

  function AddressBit(address: nat, w: nat): nat -> bool {
    (c: nat) => c < w && Bit(address, w - c - 1)
  }

  /** What the groups found up to cell (r, c) contribute to the output bit of row R. */
  ghost predicate Collected(p: AffinePolicy, w: nat, groups: seq<Group>, r: nat, c: nat) {
    forall address: nat, R: nat :: R < IndexBits(p) ==>
      GroupsBit(groups, address, IndexBits(p) - 1 - R)
        == (TableSum(r, w, Reaches(p, w, R, AddressBit(address, w)))
            != RowSum(r, c, Reaches(p, w, R, AddressBit(address, w))))
  }

  /** The padding rows of the matrix, which select no address bit. */
  predicate ZeroOffsetRows(p: AffinePolicy) {
    p.offsetBits <= |p.matrix| && forall i :: IndexBits(p) <= i < |p.matrix| ==> p.matrix[i] == 0
  }

  /** A nonempty range of address bits, shifted left, that stays within the index bits. */
  predicate InRange(p: AffinePolicy, g: Group) {
    Sliced(g) && g.shift + (g.hi - g.lo) <= IndexBits(p)
  }

  predicate AllInRange(p: AffinePolicy, groups: seq<Group>) {
    forall k :: 0 <= k < |groups| ==> InRange(p, groups[k])
  }

  predicate Sliced(g: Group) {
    0 <= g.shift && 0 <= g.lo < g.hi
  }

  /** A traced diagonal becomes a slice with exactly its cells. */
  lemma TracedGroup(p: AffinePolicy, w: nat, r: nat, c: nat, end: nat, g: Group, address: nat, R: nat)
    requires r < end <= IndexBits(p) && c + (end - r) <= w && R < IndexBits(p)
    requires Starts(p, w, r, c) && Diagonal(p, w, r, c, end - 1) && !One(p, w, end, c + (end - r))
    requires g == Group(IndexBits(p) - end, w - c, w - c - (end - r))
    ensures GroupBit(g, address, IndexBits(p) - 1 - R) == Reaches(p, w, R, AddressBit(address, w))(r, c)
  {
    var q := IndexBits(p) - 1 - R;
    if r <= R < end {
      DiagonalPrefix(p, w, r, c, end - 1, R);
      assert g.lo + (q - g.shift) == w - (c + R - r) - 1;
    } else if R >= end && Diagonal(p, w, r, c, R) {
      DiagonalPrefix(p, w, r, c, R, end);
      assert false;
    }
  }

  lemma CollectsMore(p: AffinePolicy, w: nat, groups: seq<Group>, r: nat, c: nat, g: Group)
    requires Collected(p, w, groups, r, c)
    requires forall address: nat, R: nat :: R < IndexBits(p) ==>
               GroupBit(g, address, IndexBits(p) - 1 - R) == Reaches(p, w, R, AddressBit(address, w))(r, c)
    ensures Collected(p, w, groups + [g], r, c + 1)
  {
    assert (groups + [g])[..|groups|] == groups;
  }

  /** Follows the ones from (r, c) down the diagonal, as far as they go. */
  method Trace(p: AffinePolicy, w: nat, r: nat, c: nat) returns (length: nat, tempR: nat, tempC: nat)
    requires One(p, w, r, c)
    ensures r < tempR <= |p.matrix| && tempC == c + (tempR - r) <= w && length == 1 + (tempR - r)
    ensures Diagonal(p, w, r, c, tempR - 1) && !One(p, w, tempR, tempC)
  {
    length, tempR, tempC := 1, r, c;
    while tempR < |p.matrix| && tempC < w && One(p, w, tempR, tempC)
      invariant r <= tempR <= |p.matrix| && tempC == c + (tempR - r) <= w && length == 1 + (tempR - r)
      invariant tempR > r ==> Diagonal(p, w, r, c, tempR - 1)
    {
      length, tempR, tempC := length + 1, tempR + 1, tempC + 1;
    }
  }

  /** With zero rows for the offset bits, no diagonal reaches them. */
  lemma EndsInIndex(p: AffinePolicy, w: nat, r: nat, c: nat)
    requires ZeroOffsetRows(p) && One(p, w, r, c)
    ensures r < IndexBits(p)
  {
    ZeroHasNoBits(w - c - 1);
  }

  /** The slice of the maximal diagonal that starts at a cell. */
  ghost predicate SliceOf(p: AffinePolicy, w: nat, cell: (nat, nat), g: Group) {
    exists end: nat :: SliceTo(p, w, cell, end, g)
  }

  ghost predicate SliceTo(p: AffinePolicy, w: nat, cell: (nat, nat), end: nat, g: Group) {
    var (r, c) := cell;
    && r < end && c + (end - r) <= w && Diagonal(p, w, r, c, end - 1) && !One(p, w, end, c + (end - r))
    && g == Group(IndexBits(p) - end, w - c, w - c - (end - r))
  }

  /** The starts of diagonals before a cell, in reading order. */
  function StartsBefore(p: AffinePolicy, w: nat, r: nat, c: nat): seq<(nat, nat)>
    decreases r, c
  {
    if c > 0 then StartsBefore(p, w, r, c - 1) + if Starts(p, w, r, c - 1) then [(r, c - 1)] else []
    else if r > 0 then StartsBefore(p, w, r - 1, w)
    else []
  }

  predicate Before(x: (nat, nat), r: nat, c: nat) {
    x.0 < r || (x.0 == r && x.1 < c)
  }

  /** Each start is there, and only once. */
  lemma {:induction false} StartsListed(p: AffinePolicy, w: nat, r: nat, c: nat)
    requires c <= w
    ensures forall x: (nat, nat) :: x in StartsBefore(p, w, r, c) <==> Before(x, r, c) && Starts(p, w, x.0, x.1)
    ensures forall k, l :: 0 <= k < l < |StartsBefore(p, w, r, c)| ==>
        StartsBefore(p, w, r, c)[k] != StartsBefore(p, w, r, c)[l]
    decreases r, c
  {
    if c > 0 {
      StartsListed(p, w, r, c - 1);
      var before, s := StartsBefore(p, w, r, c - 1), StartsBefore(p, w, r, c);
      assert (r, c - 1) !in before;
      forall x: (nat, nat) ensures x in s <==> Before(x, r, c) && Starts(p, w, x.0, x.1) {
        assert x in s <==> x in before || (x == (r, c - 1) && Starts(p, w, r, c - 1));
      }
    } else if r > 0 {
      StartsListed(p, w, r - 1, w);
    }
  }

  /** One group for each start of a diagonal before the cell. */
  ghost predicate Listed(p: AffinePolicy, w: nat, groups: seq<Group>, r: nat, c: nat) {
    var starts := StartsBefore(p, w, r, c);
    |starts| == |groups| && forall k :: 0 <= k < |groups| ==> SliceOf(p, w, starts[k], groups[k])
  }

  lemma ListedMore(p: AffinePolicy, w: nat, groups: seq<Group>, r: nat, c: nat, g: Group)
    requires Listed(p, w, groups, r, c) && Starts(p, w, r, c) && SliceOf(p, w, (r, c), g)
    ensures Listed(p, w, groups + [g], r, c + 1)
  {}

  /** What a group contributes to the output bits is what its diagonal does. */
  ghost predicate Contributes(p: AffinePolicy, w: nat, r: nat, c: nat, g: Group) {
    InRange(p, g) && forall address: nat, R: nat :: R < IndexBits(p) ==>
      GroupBit(g, address, IndexBits(p) - 1 - R) == Reaches(p, w, R, AddressBit(address, w))(r, c)
  }

  lemma SliceContributes(p: AffinePolicy, w: nat, r: nat, c: nat, end: nat, g: Group)
    requires ZeroOffsetRows(p) && Starts(p, w, r, c) && SliceTo(p, w, (r, c), end, g)
    ensures Contributes(p, w, r, c, g)
  {
    EndsInIndex(p, w, end - 1, c + (end - 1 - r));
    forall address: nat, R: nat | R < IndexBits(p)
      ensures GroupBit(g, address, IndexBits(p) - 1 - R) == Reaches(p, w, R, AddressBit(address, w))(r, c)
    {
      TracedGroup(p, w, r, c, end, g, address, R);
    }
  }

  /** The group of the diagonal that starts at a cell. */
  method GroupAt(p: AffinePolicy, w: nat, r: nat, c: nat) returns (g: Group)
    requires Starts(p, w, r, c)
    ensures SliceOf(p, w, (r, c), g)
    ensures ZeroOffsetRows(p) ==> Contributes(p, w, r, c, g)
  {
    var length, tempR, tempC := Trace(p, w, r, c);
    g := Group(IndexBits(p) - tempR, w - tempC + length - 1, w - tempC);
    assert SliceTo(p, w, (r, c), tempR, g);
    if ZeroOffsetRows(p) { SliceContributes(p, w, r, c, tempR, g); }
  }

  /** The groups so far: a slice for each start, and together what the diagonals contribute. */
  ghost predicate Found(p: AffinePolicy, w: nat, groups: seq<Group>, r: nat, c: nat) {
    Listed(p, w, groups, r, c) && (ZeroOffsetRows(p) ==> AllInRange(p, groups) && Collected(p, w, groups, r, c))
  }

  lemma FoundMore(p: AffinePolicy, w: nat, groups: seq<Group>, r: nat, c: nat, g: Group)
    requires Found(p, w, groups, r, c) && Starts(p, w, r, c) && SliceOf(p, w, (r, c), g)
    requires ZeroOffsetRows(p) ==> Contributes(p, w, r, c, g)
    ensures Found(p, w, groups + [g], r, c + 1)
  {
    ListedMore(p, w, groups, r, c, g);
    if ZeroOffsetRows(p) { CollectsMore(p, w, groups, r, c, g); }
  }

  lemma FoundSkip(p: AffinePolicy, w: nat, groups: seq<Group>, r: nat, c: nat)
    requires Found(p, w, groups, r, c) && !Starts(p, w, r, c)
    ensures Found(p, w, groups, r, c + 1)
  {}

  lemma FoundRow(p: AffinePolicy, w: nat, groups: seq<Group>, r: nat)
    requires Found(p, w, groups, r, w)
    ensures Found(p, w, groups, r + 1, 0)
  {}

  /**
   Exactly one group for each maximal diagonal of any matrix; with zero rows for the offset bits they
   contribute together what the diagonals do.
   */
  method FindGroups(p: AffinePolicy, w: nat) returns (groups: seq<Group>)
    requires w == WORD_BITS
    ensures Found(p, w, groups, |p.matrix|, 0)
  {
    groups := [];
    for r := 0 to |p.matrix|
      invariant Found(p, w, groups, r, 0)
    {
      for c := 0 to w
        invariant Found(p, w, groups, r, c)
      {
        if One(p, w, r, c) && (r == 0 || c == 0 || !One(p, w, r - 1, c - 1)) {
          var g := GroupAt(p, w, r, c);
          FoundMore(p, w, groups, r, c, g);
          groups := groups + [g];
        } else {
          FoundSkip(p, w, groups, r, c);
        }
      }
      FoundRow(p, w, groups, r);
    }
  }

  // ----- The printed formula -----

  lemma {:induction false} LaterRowsReachNothing(p: AffinePolicy, w: nat, R: nat, f: nat -> bool, n: nat)
    requires R < n
    ensures TableSum(n, w, Reaches(p, w, R, f)) == TableSum(R + 1, w, Reaches(p, w, R, f))
  {
    if R + 1 < n {
      LaterRowsReachNothing(p, w, R, f, n - 1);
      var none := (j: nat) => false;
      RowAsSum(n - 1, w, Reaches(p, w, R, f), none);
      Zero(w, none);
    }
  }

  lemma {:induction false} OddAsSum(row: nat, address: nat, n: nat, f: nat -> bool)
    requires row < Pow2(n)
    requires forall b: nat :: b < n ==> f(b) == (Bit(row, b) && Bit(address, b))
    ensures Odd(row, address) == Sum(n, f)
  {
    if n > 0 {
      var g := (b: nat) => f(b + 1);
      OddAsSum(row / 2, address / 2, n - 1, g);
      OddUnfold(row, address);
      Front(n, f, g);
    }
  }

  lemma RowParity(p: AffinePolicy, w: nat, R: nat, address: nat)
    requires R < |p.matrix| && p.matrix[R] < Pow2(w)
    ensures Sum(w, Cells(p, w, R, AddressBit(address, w))) == Odd(p.matrix[R], address)
  {
    var f := (b: nat) => Bit(p.matrix[R], b) && Bit(address, b);
    OddAsSum(p.matrix[R], address, w, f);
    var g := Cells(p, w, R, AddressBit(address, w));
    forall c: nat | c < w ensures g(c) == f(w - 1 - c) {
      assert AddressBit(address, w)(c) == Bit(address, w - c - 1);
    }
    Reversed(w, f, g);
  }

  /** The value of the printed right-hand side without the constant: xored, shifted slices. */
  function Formula(groups: seq<Group>, address: nat): nat
    requires forall k :: 0 <= k < |groups| ==> Sliced(groups[k])
  {
    if groups == [] then 0
    else
      var g := groups[|groups| - 1];
      assert Sliced(g);
      Xor(Formula(groups[..|groups| - 1], address), Scale(Low(Shr(address, g.lo), g.hi - g.lo), g.shift))
  }

  lemma {:induction false} XorBit(x: nat, y: nat, b: nat)
    ensures Bit(Xor(x, y), b) == (Bit(x, b) != Bit(y, b))
  {
    XorUnfold(x, y);
    if b > 0 { XorBit(x / 2, y / 2, b - 1); }
  }

  lemma {:induction false} ScaleBit(x: nat, k: nat, b: nat)
    ensures Bit(Scale(x, k), b) == (b >= k && Bit(x, b - k))
  {
    if k > 0 && b > 0 { ScaleBit(x, k - 1, b - 1); }
  }

  lemma {:induction false} LowBit(x: nat, n: nat, b: nat)
    ensures Bit(Low(x, n), b) == (b < n && Bit(x, b))
  {
    if n == 0 {
      ZeroHasNoBits(b);
    } else if b > 0 {
      LowBit(x / 2, n - 1, b - 1);
    }
  }

  lemma {:induction false} SameBits(x: nat, y: nat)
    requires forall b: nat :: Bit(x, b) == Bit(y, b)
    ensures x == y
  {
    assert Bit(x, 0) == Bit(y, 0);
    if x != 0 || y != 0 {
      forall b: nat ensures Bit(x / 2, b) == Bit(y / 2, b) {
        assert Bit(x, b + 1) == Bit(y, b + 1);
      }
      if x >= 2 || y >= 2 { SameBits(x / 2, y / 2); }
    }
  }

  lemma {:induction false} FormulaBit(groups: seq<Group>, address: nat, q: nat)
    requires forall k :: 0 <= k < |groups| ==> Sliced(groups[k])
    ensures Bit(Formula(groups, address), q) == GroupsBit(groups, address, q)
  {
    if groups == [] {
      ZeroHasNoBits(q);
    } else {
      var n := |groups| - 1;
      var g := groups[n];
      FormulaBit(groups[..n], address, q);
      var slice := Low(Shr(address, g.lo), g.hi - g.lo);
      XorBit(Formula(groups[..n], address), Scale(slice, g.shift), q);
      ScaleBit(slice, g.shift, q);
      if q >= g.shift {
        LowBit(Shr(address, g.lo), g.hi - g.lo, q - g.shift);
        ShrBit(address, g.lo, q - g.shift);
      }
    }
  }

  lemma {:induction false} ValueBit(v: seq<bool>, b: nat)
    ensures Bit(Value(v), b) == (b < |v| && v[|v| - 1 - b])
  {
    if v == [] {
      ZeroHasNoBits(b);
    } else if b > 0 {
      ValueBit(v[..|v| - 1], b - 1);
    }
  }

  lemma {:induction false} NoGroupReaches(p: AffinePolicy, groups: seq<Group>, address: nat, q: nat)
    requires AllInRange(p, groups) && q >= IndexBits(p)
    ensures !GroupsBit(groups, address, q)
  {
    if groups != [] {
      NoGroupReaches(p, groups[..|groups| - 1], address, q);
    }
  }

  /** The printed index function computes the same set as the policy, for every address. */
  lemma {:induction false} PrintedMeaning(p: AffinePolicy, w: nat, groups: seq<Group>, address: nat)
    requires ZeroOffsetRows(p) && forall i :: 0 <= i < |p.matrix| ==> p.matrix[i] < Pow2(w)
    requires AllInRange(p, groups)
    requires Collected(p, w, groups, |p.matrix|, 0)
    ensures Xor(Formula(groups, address), Shr(p.vector, p.offsetBits)) == Index(p, address)
  {
    var lhs, rhs := Xor(Formula(groups, address), Shr(p.vector, p.offsetBits)), Index(p, address);
    forall q: nat ensures Bit(lhs, q) == Bit(rhs, q) {
      XorBit(Formula(groups, address), Shr(p.vector, p.offsetBits), q);
      FormulaBit(groups, address, q);
      ShrBit(p.vector, p.offsetBits, q);
      var parities := Value(Parities(p.matrix, address));
      ShrBit(Xor(parities, p.vector), p.offsetBits, q);
      XorBit(parities, p.vector, p.offsetBits + q);
      ValueBit(Parities(p.matrix, address), p.offsetBits + q);
      GroupsMeaning(p, w, groups, address, q);
    }
    SameBits(lhs, rhs);
  }

  lemma {:induction false} GroupsMeaning(p: AffinePolicy, w: nat, groups: seq<Group>, address: nat, q: nat)
    requires ZeroOffsetRows(p) && forall i :: 0 <= i < |p.matrix| ==> p.matrix[i] < Pow2(w)
    requires AllInRange(p, groups)
    requires Collected(p, w, groups, |p.matrix|, 0)
    ensures GroupsBit(groups, address, q) == (q < IndexBits(p) && Odd(p.matrix[IndexBits(p) - 1 - q], address))
  {
    if q < IndexBits(p) {
      var R: nat, f := IndexBits(p) - 1 - q, AddressBit(address, w);
      assert GroupsBit(groups, address, IndexBits(p) - 1 - R)
          == (TableSum(|p.matrix|, w, Reaches(p, w, R, f)) != RowSum(|p.matrix|, 0, Reaches(p, w, R, f)));
      LaterRowsReachNothing(p, w, R, f, |p.matrix|);
      DiagonalsPartition(p, w, R, f);
      RowParity(p, w, R, address);
    } else {
      NoGroupReaches(p, groups, address, q);
    }
  }
  // ----- When the formula can be printed -----

  /** The program computes shifts without sign, so that one below zero wraps around. */
  predicate ProperShifts(groups: seq<Group>) {
    forall k :: 0 <= k < |groups| ==> groups[k].shift >= 0
  }

  lemma {:induction false} SomeBit(x: nat, n: nat) returns (b: nat)
    requires 0 < x < Pow2(n)
    ensures b < n && Bit(x, b)
  {
    b := 0;
    if x % 2 == 0 {
      b := SomeBit(x / 2, n - 1);
      b := b + 1;
    }
  }

  lemma {:induction false} BackBound(p: AffinePolicy, w: nat, r: nat, c: nat)
    ensures Back(p, w, r, c) <= r && Back(p, w, r, c) <= c
  {
    if r > 0 && c > 0 { BackBound(p, w, r - 1, c - 1); }
  }

  /** The shift of a group is below zero if its diagonal reaches an offset row. */
  lemma ReachesBelow(p: AffinePolicy, w: nat, r: nat, c: nat, R: nat, g: Group)
    requires SliceOf(p, w, (r, c), g) && Diagonal(p, w, r, c, R)
    ensures g.shift < IndexBits(p) - R
  {
    var end: nat :| SliceTo(p, w, (r, c), end, g);
    if R >= end { DiagonalPrefix(p, w, r, c, R, end); }
  }

  /** Every one-cell is reached from one of the listed starts. */
  lemma StartAbove(p: AffinePolicy, w: nat, i: nat, c: nat) returns (k: nat)
    requires One(p, w, i, c)
    ensures var starts := StartsBefore(p, w, |p.matrix|, 0);
            k < |starts| && Diagonal(p, w, starts[k].0, starts[k].1, i)
  {
    var back := Back(p, w, i, c);
    BackBound(p, w, i, c);
    OnOneDiagonal(p, w, i, c, back);
    var r: nat, start: (nat, nat) := |p.matrix|, (i - back, c - back);
    StartsListed(p, w, r, 0);
    assert start in StartsBefore(p, w, r, 0);
    k :| 0 <= k < |StartsBefore(p, w, r, 0)| && StartsBefore(p, w, r, 0)[k] == start;
  }

  lemma OffsetRowShows(p: AffinePolicy, w: nat, groups: seq<Group>, i: nat)
    requires Listed(p, w, groups, |p.matrix|, 0) && IndexBits(p) <= i < |p.matrix| && 0 < p.matrix[i] < Pow2(w)
    ensures !ProperShifts(groups)
  {
    var b := SomeBit(p.matrix[i], w);
    var k := StartAbove(p, w, i, w - 1 - b);
    var (r, c) := StartsBefore(p, w, |p.matrix|, 0)[k];
    ReachesBelow(p, w, r, c, i, groups[k]);
  }

  lemma ZeroRowsShift(p: AffinePolicy, w: nat, cell: (nat, nat), g: Group)
    requires ZeroOffsetRows(p) && SliceOf(p, w, cell, g)
    ensures g.shift >= 0
  {
    var end: nat :| SliceTo(p, w, cell, end, g);
    EndsInIndex(p, w, end - 1, cell.1 + (end - 1) - cell.0);
  }

  /** The groups can be printed exactly if the rows for the offset bits are zero; then they mean the policy. */
  lemma PrintedExactly(p: AffinePolicy, w: nat, groups: seq<Group>)
    requires p.offsetBits <= |p.matrix| && forall i :: 0 <= i < |p.matrix| ==> p.matrix[i] < Pow2(w)
    requires Found(p, w, groups, |p.matrix|, 0)
    ensures ProperShifts(groups) <==> ZeroOffsetRows(p)
    ensures ProperShifts(groups) ==> AllInRange(p, groups)
    ensures ProperShifts(groups) ==>
              forall address: nat :: Xor(Formula(groups, address), Shr(p.vector, p.offsetBits)) == Index(p, address)
  {
    if ZeroOffsetRows(p) {
      forall k | 0 <= k < |groups| ensures groups[k].shift >= 0 {
        ZeroRowsShift(p, w, StartsBefore(p, w, |p.matrix|, 0)[k], groups[k]);
      }
      forall address: nat ensures Xor(Formula(groups, address), Shr(p.vector, p.offsetBits)) == Index(p, address) {
        PrintedMeaning(p, w, groups, address);
      }
    } else {
      var i: nat :| IndexBits(p) <= i < |p.matrix| && p.matrix[i] != 0;
      OffsetRowShows(p, w, groups, i);
    }
  }
}
