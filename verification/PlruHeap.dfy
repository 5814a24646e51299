/**
 Tree-PLRU as the program stores it: the node bits in a heap-indexed vector, the children of
 node i at 2i+1 and 2i+2. Both operations are proved against the tree.
 */
module PlruHeaps {
  import opened Words
  import opened PlruTrees

  /** The subtree of height h rooted at node i lies within n bits. */
  predicate Fits(i: nat, h: nat, n: nat)
    decreases h
  {
    h == 0 || (i < n && Fits(2 * i + 1, h - 1, n) && Fits(2 * i + 2, h - 1, n))
  }

  function TreeAt(bits: seq<bool>, i: nat, h: nat): (t: Tree)
    requires Fits(i, h, |bits|)
    ensures Perfect(t, h)
    decreases h
  {
    if h == 0 then Leaf
    else Node(bits[i], TreeAt(bits, 2 * i + 1, h - 1), TreeAt(bits, 2 * i + 2, h - 1))
  }

  function Next(i: nat, side: bool): nat { 2 * i + 1 + (if side then 1 else 0) }

  function HeapHit(bits: seq<bool>, i: nat, path: Path): (bits': seq<bool>)
    requires Fits(i, |path|, |bits|)
    ensures |bits'| == |bits|
    decreases |path|
  {
    if path == [] then bits
    else HeapHit(bits[i := path[0]], Next(i, path[0]), path[1..])
  }

  /** Node x lies in the subtree rooted at i. */
  predicate Below(i: nat, x: nat) {
    x == i || (x > i && Below(i, (x - 1) / 2))
  }

  lemma {:induction false} SubtreesDisjoint(i: nat, x: nat)
    ensures !(Below(2 * i + 1, x) && Below(2 * i + 2, x))
  {
    if x > 2 * i + 2 { SubtreesDisjoint(i, (x - 1) / 2); }
  }

  lemma {:induction false} BelowChild(i: nat, side: bool, x: nat)
    requires Below(Next(i, side), x)
    ensures Below(i, x) && x != i
  {
    if x > Next(i, side) { BelowChild(i, side, (x - 1) / 2); }
  }

  lemma {:induction false} SameSubtree(bits: seq<bool>, bits': seq<bool>, i: nat, h: nat)
    requires |bits| == |bits'| && Fits(i, h, |bits|)
    requires forall x :: 0 <= x < |bits| && Below(i, x) ==> bits[x] == bits'[x]
    ensures TreeAt(bits, i, h) == TreeAt(bits', i, h)
    decreases h
  {
    if h > 0 {
      forall x, side | 0 <= x < |bits| && Below(Next(i, side), x) ensures bits[x] == bits'[x] {
        BelowChild(i, side, x);
      }
      assert Next(i, false) == 2 * i + 1 && Next(i, true) == 2 * i + 2;
      SameSubtree(bits, bits', 2 * i + 1, h - 1);
      SameSubtree(bits, bits', 2 * i + 2, h - 1);
    }
  }

  lemma {:induction false} HitStaysBelow(bits: seq<bool>, i: nat, path: Path, x: nat)
    requires Fits(i, |path|, |bits|) && x < |bits| && !Below(i, x)
    ensures HeapHit(bits, i, path)[x] == bits[x]
    decreases |path|
  {
    if path != [] {
      if Below(Next(i, path[0]), x) { BelowChild(i, path[0], x); }
      HitStaysBelow(bits[i := path[0]], Next(i, path[0]), path[1..], x);
    }
  }

  /** Writing a node leaves both its subtrees alone. */
  lemma WriteKeepsSubtrees(bits: seq<bool>, i: nat, b: bool, side: bool, h: nat)
    requires i < |bits| && Fits(Next(i, side), h, |bits|)
    ensures TreeAt(bits[i := b], Next(i, side), h) == TreeAt(bits, Next(i, side), h)
  {
    forall x | 0 <= x < |bits| && Below(Next(i, side), x) ensures bits[x] == bits[i := b][x] {
      BelowChild(i, side, x);
    }
    SameSubtree(bits, bits[i := b], Next(i, side), h);
  }

  /** The heap walk is the tree's hit. */
  lemma {:induction false} HeapHitIsHit(bits: seq<bool>, i: nat, path: Path)
    requires Fits(i, |path|, |bits|)
    ensures TreeAt(HeapHit(bits, i, path), i, |path|) == Hit(TreeAt(bits, i, |path|), path)
    decreases |path|
  {
    if path != [] {
      var side, h := path[0], |path| - 1;
      var written := bits[i := side];
      var final := HeapHit(bits, i, path);
      HeapHitIsHit(written, Next(i, side), path[1..]);
      WriteKeepsSubtrees(bits, i, side, side, h);
      WriteKeepsSubtrees(bits, i, side, !side, h);
      NotBelowChild(i, side);
      HitStaysBelow(written, Next(i, side), path[1..], i);
      forall x | 0 <= x < |bits| && Below(Next(i, !side), x) ensures final[x] == written[x] {
        SubtreesDisjoint(i, x);
        HitStaysBelow(written, Next(i, side), path[1..], x);
      }
      SameSubtree(final, written, Next(i, !side), h);
    }
  }

  lemma NotBelowChild(i: nat, side: bool)
    ensures !Below(Next(i, side), i)
  {}

  /** A miss under way: at node i, with the rest of its path ahead, bound for the final bits. */
  ghost predicate Walking(final: seq<bool>, bits: seq<bool>, i: nat, rest: Path) {
    Fits(i, |rest|, |bits|) && Victim(TreeAt(bits, i, |rest|), |rest|) == rest && HeapHit(bits, i, rest) == final
  }

  lemma ValueStep(path: Path, k: nat)
    requires k < |path|
    ensures Value(path[..k + 1]) == 2 * Value(path[..k]) + (if path[k] then 1 else 0)
  {
    assert path[..k + 1][..k] == path[..k];
  }

  /** One level of a miss: go to the side not used last, and continue below with what was written. */
  lemma WalkStep(final: seq<bool>, bits: seq<bool>, i: nat, rest: Path)
    requires rest != [] && Walking(final, bits, i, rest)
    ensures i < |bits| && rest[0] == !bits[i]
    ensures Walking(final, bits[i := rest[0]], Next(i, rest[0]), rest[1..])
  {
    var t, h := TreeAt(bits, i, |rest|), |rest|;
    assert rest == [!t.last] + Victim(Child(t, !t.last), h - 1);
    WriteKeepsSubtrees(bits, i, rest[0], rest[0], h - 1);
  }

  /** A complete tree of height h has 2^h - 1 nodes. */
  lemma ChildrenFit(i: nat, p: nat, n: nat)
    requires p > 0 && (i + 2) * (2 * p) <= n + 1
    ensures (2 * i + 1 + 2) * p <= n + 1 && (2 * i + 2 + 2) * p <= n + 1 && i < n
  {
    assert (i + 2) * (2 * p) == (2 * i + 4) * p == (2 * i + 3) * p + p;
    assert (i + 2) * (2 * p) >= i + 2;
  }

  lemma {:induction false} CompleteFits(i: nat, h: nat, n: nat)
    requires h == 0 || (i + 2) * Pow2(h - 1) <= n + 1
    ensures Fits(i, h, n)
    decreases h
  {
    if h > 1 {
      ChildrenFit(i, Pow2(h - 2), n);
      CompleteFits(2 * i + 1, h - 1, n);
      CompleteFits(2 * i + 2, h - 1, n);
    }
  }

  class PlruPolicy {
    const treeHeight: nat
    const treeBits: array<bool>

    constructor (height: nat)
      ensures Valid() && treeHeight == height && fresh(treeBits)
      ensures forall x :: 0 <= x < treeBits.Length ==> !treeBits[x]
    {
      treeHeight := height;
      treeBits := new bool[Pow2(height) - 1](i => false);
      new;
      if height > 0 { assert 2 * Pow2(height - 1) == Pow2(height); }
      CompleteFits(0, height, Pow2(height) - 1);
    }

    ghost predicate Valid() {
      treeBits.Length == Pow2(treeHeight) - 1 && Fits(0, treeHeight, treeBits.Length)
    }

    ghost function State(): (t: Tree)
      requires Valid()
      reads treeBits
      ensures Perfect(t, treeHeight)
    {
      TreeAt(treeBits[..], 0, treeHeight)
    }

    function Ways(): nat { Pow2(treeHeight) }

    method HitWay(way: nat)
      requires Valid() && way < Ways()
      modifies treeBits
      ensures State() == Hit(old(State()), Bits(way, 0, treeHeight))
    {
      ghost var path := Bits(way, 0, treeHeight);
      ghost var bits := treeBits[..];
      var treeIndex: nat := 0;
      for level := 0 to treeHeight
        invariant Fits(treeIndex, treeHeight - level, treeBits.Length)
        invariant HeapHit(treeBits[..], treeIndex, path[level..]) == HeapHit(bits, 0, path)
      {
        var rhs := Bit(way, treeHeight - level - 1);
        assert path[level..][0] == rhs && path[level..][1..] == path[level + 1..];
        ghost var now := treeBits[..];
        treeBits[treeIndex] := rhs;
        assert treeBits[..] == now[treeIndex := rhs];
        treeIndex := 2 * treeIndex + 1 + (if rhs then 1 else 0);
      }
      HeapHitIsHit(bits, 0, path);
    }

    method MissWay() returns (way: nat)
      requires Valid()
      modifies treeBits
      ensures way == Value(Victim(old(State()), treeHeight)) < Ways()
      ensures State() == Miss(old(State()), treeHeight)
    {
      ghost var path := Victim(State(), treeHeight);
      ghost var bits := treeBits[..];
      ghost var final := HeapHit(bits, 0, path);
      HeapHitIsHit(bits, 0, path);
      ValueBound(path);
      ghost var rest := path;
      var treeIndex: nat := 0;
      way := 0;
      for level := 0 to treeHeight
        invariant rest == path[level..] && way == Value(path[..level])
        invariant Walking(final, treeBits[..], treeIndex, rest)
      {
        ghost var now := treeBits[..];
        WalkStep(final, now, treeIndex, rest);
        var rhs := !treeBits[treeIndex];
        treeBits[treeIndex] := rhs;
        assert treeBits[..] == now[treeIndex := rhs];
        way := 2 * way + (if rhs then 1 else 0);
        ValueStep(path, level);
        rest := rest[1..];
        treeIndex := 2 * treeIndex + 1 + (if rhs then 1 else 0);
      }
      assert path[..treeHeight] == path && rest == [];
      assert treeBits[..] == final;
    }
  }
}
