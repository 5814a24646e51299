/**
 Tree-PLRU as a tree. A way is a path from the root, false for left; each node remembers the
 side used last, and a miss takes the other side at every node.
 */
module PlruTrees {
  import opened Words

  type Path = seq<bool>
  datatype Tree = Leaf | Node(last: bool, left: Tree, right: Tree)

  predicate Perfect(t: Tree, h: nat) {
    if h == 0 then t.Leaf? else t.Node? && Perfect(t.left, h - 1) && Perfect(t.right, h - 1)
  }

  function Child(t: Tree, side: bool): Tree
    requires t.Node?
  {
    if side then t.right else t.left
  }

  function Hit(t: Tree, path: Path): (t': Tree)
    requires Perfect(t, |path|)
    ensures Perfect(t', |path|)
  {
    if path == [] then t
    else if path[0] then Node(true, t.left, Hit(t.right, path[1..]))
    else Node(false, Hit(t.left, path[1..]), t.right)
  }

  function Victim(t: Tree, h: nat): (path: Path)
    requires Perfect(t, h)
    ensures |path| == h
  {
    if h == 0 then [] else [!t.last] + Victim(Child(t, !t.last), h - 1)
  }

  /** A miss leaves the tree as a hit on its victim would. */
  function Miss(t: Tree, h: nat): (t': Tree)
    requires Perfect(t, h)
    ensures Perfect(t', h)
  {
    Hit(t, Victim(t, h))
  }

  // ----- Consecutive misses -----

  function Misses(t: Tree, h: nat, k: nat): (t': Tree)
    requires Perfect(t, h)
    ensures Perfect(t', h)
  {
    if k == 0 then t else Miss(Misses(t, h, k - 1), h)
  }

  /** The victim of the k-th of a run of misses, counting from zero. */
  function NthVictim(t: Tree, h: nat, k: nat): (path: Path)
    requires Perfect(t, h)
    ensures |path| == h
  {
    Victim(Misses(t, h, k), h)
  }

  /** The position of a way in the cyclic order of eviction. */
  function Turn(t: Tree, path: Path): (k: nat)
    requires Perfect(t, |path|)
    ensures k < Pow2(|path|)
  {
    if path == [] then 0
    else 2 * Turn(Child(t, path[0]), path[1..]) + (if path[0] == t.last then 1 else 0)
  }

  lemma MissTurns(s: Tree, h: nat)
    requires Perfect(s, h) && h > 0
    ensures Miss(s, h) == if s.last then Node(false, Miss(s.left, h - 1), s.right)
                          else Node(true, s.left, Miss(s.right, h - 1))
  {
    assert Victim(s, h)[1..] == Victim(Child(s, !s.last), h - 1);
  }

  lemma {:induction false} MissesInPairs(t: Tree, h: nat, n: nat)
    requires Perfect(t, h) && h > 0
    ensures Misses(t, h, 2 * n) == Node(t.last, Misses(t.left, h - 1, n), Misses(t.right, h - 1, n))
  {
    if n > 0 {
      MissesInPairs(t, h, n - 1);
      MissTurns(Misses(t, h, 2 * n - 2), h);
      MissTurns(Misses(t, h, 2 * n - 1), h);
    }
  }

  /** Misses alternate between the two subtrees. */
  lemma MissesAlternate(t: Tree, h: nat, k: nat)
    requires Perfect(t, h) && h > 0
    ensures var n := k / 2;
            var t' := Misses(t, h, k);
            if k % 2 == 0 then t' == Node(t.last, Misses(t.left, h - 1, n), Misses(t.right, h - 1, n))
            else if t.last then t' == Node(false, Misses(t.left, h - 1, n + 1), Misses(t.right, h - 1, n))
            else t' == Node(true, Misses(t.left, h - 1, n), Misses(t.right, h - 1, n + 1))
  {
    MissesInPairs(t, h, k / 2);
    if k % 2 == 1 { MissTurns(Misses(t, h, k - 1), h); }
  }

  /** Every tree state is restored by as many misses as there are ways. */
  lemma {:induction false} CycleRestores(t: Tree, h: nat)
    requires Perfect(t, h)
    ensures Misses(t, h, Pow2(h)) == t
  {
    if h == 0 {
      assert Misses(t, 0, 1) == Miss(Misses(t, 0, 0), 0);
    } else {
      MissesAlternate(t, h, Pow2(h));
      CycleRestores(t.left, h - 1);
      CycleRestores(t.right, h - 1);
    }
  }

  lemma NthVictimSplits(t: Tree, h: nat, k: nat)
    requires Perfect(t, h) && h > 0
    ensures var side := (k % 2 == 1) == t.last;
            NthVictim(t, h, k) == [side] + NthVictim(Child(t, side), h - 1, k / 2)
  {
    MissesAlternate(t, h, k);
  }

  /** Within one cycle a way is the victim at its turn and at no other time. */
  lemma {:induction false} EvictedAtTurn(t: Tree, path: Path, k: nat)
    requires Perfect(t, |path|) && k < Pow2(|path|)
    ensures NthVictim(t, |path|, k) == path <==> k == Turn(t, path)
  {
    var h := |path|;
    if h == 0 {
      assert NthVictim(t, h, k) == [];
    } else {
      NthVictimSplits(t, h, k);
      EvictedAtTurn(Child(t, path[0]), path[1..], k / 2);
      assert path == [path[0]] + path[1..];
    }
  }

  // ----- Any two states of the same height are isomorphic -----

  /** The way of u that corresponds to a way of t: sides are swapped where the nodes differ. */
  function Carry(t: Tree, u: Tree, path: Path): (q: Path)
    requires Perfect(t, |path|) && Perfect(u, |path|)
    ensures |q| == |path|
  {
    if path == [] then []
    else
      var side := if t.last == u.last then path[0] else !path[0];
      [side] + Carry(Child(t, path[0]), Child(u, side), path[1..])
  }

  lemma {:induction false} CarryVictim(t: Tree, u: Tree, h: nat)
    requires Perfect(t, h) && Perfect(u, h)
    ensures Carry(t, u, Victim(t, h)) == Victim(u, h)
  {
    if h > 0 {
      var p := Victim(t, h);
      assert p[1..] == Victim(Child(t, !t.last), h - 1);
      CarryVictim(Child(t, !t.last), Child(u, !u.last), h - 1);
    }
  }

  // ----- Lifespan -----

  /** The number of nodes on the way's path that point a miss away from it. */
  function Shields(t: Tree, path: Path): nat
    requires Perfect(t, |path|)
  {
    if path == [] then 0
    else (if t.last == path[0] then 1 else 0) + Shields(Child(t, path[0]), path[1..])
  }

  lemma {:induction false} VictimUnshielded(t: Tree, path: Path)
    requires Perfect(t, |path|) && Victim(t, |path|) == path
    ensures Shields(t, path) == 0
  {
    if path != [] {
      assert path[1..] == Victim(Child(t, path[0]), |path| - 1);
      VictimUnshielded(Child(t, path[0]), path[1..]);
    }
  }

  lemma {:induction false} HitShields(t: Tree, path: Path)
    requires Perfect(t, |path|)
    ensures Shields(Hit(t, path), path) == |path|
  {
    if path != [] { HitShields(Child(t, path[0]), path[1..]); }
  }

  /** Using another way turns at most one node of the path around. */
  lemma {:induction false} HitRemovesOneShield(t: Tree, p: Path, path: Path)
    requires |p| == |path| && Perfect(t, |p|)
    ensures Shields(Hit(t, p), path) >= Shields(t, path) - 1
  {
    if path != [] && p[0] == path[0] {
      HitRemovesOneShield(Child(t, p[0]), p[1..], path[1..]);
    }
  }

  datatype Operation = UseWay(path: Path) | Replace

  function Apply(t: Tree, h: nat, ops: seq<Operation>): (t': Tree)
    requires Perfect(t, h)
    requires forall i :: 0 <= i < |ops| && ops[i].UseWay? ==> |ops[i].path| == h
    ensures Perfect(t', h)
  {
    if ops == [] then t
    else
      var s := Apply(t, h, ops[..|ops| - 1]);
      match ops[|ops| - 1]
      case UseWay(p) => Hit(s, p)
      case Replace => Miss(s, h)
  }

  lemma {:induction false} ShieldsWearOff(t: Tree, path: Path, ops: seq<Operation>)
    requires Perfect(t, |path|)
    requires forall i :: 0 <= i < |ops| && ops[i].UseWay? ==> |ops[i].path| == |path|
    ensures Shields(Apply(t, |path|, ops), path) >= Shields(t, path) - |ops|
  {
    if ops != [] {
      var n := |ops| - 1;
      ShieldsWearOff(t, path, ops[..n]);
      var s := Apply(t, |path|, ops[..n]);
      HitRemovesOneShield(s, if ops[n].UseWay? then ops[n].path else Victim(s, |path|), path);
    }
  }

  /**
   After a way is used, none of the next h operations replaces it: whatever fewer than h
   hits and misses come in between, the next miss takes another way.
   */
  lemma Lifespan(t: Tree, path: Path, ops: seq<Operation>)
    requires Perfect(t, |path|) && |ops| < |path|
    requires forall i :: 0 <= i < |ops| && ops[i].UseWay? ==> |ops[i].path| == |path|
    ensures Victim(Apply(Hit(t, path), |path|, ops), |path|) != path
  {
    HitShields(t, path);
    ShieldsWearOff(Hit(t, path), path, ops);
    if Victim(Apply(Hit(t, path), |path|, ops), |path|) == path {
      VictimUnshielded(Apply(Hit(t, path), |path|, ops), path);
    }
  }

  // ----- The lifespan bound is tight -----

  /** The way that leaves the path at depth d. */
  function Sibling(path: Path, d: nat): (q: Path)
    requires d < |path|
    ensures |q| == |path|
  {
    path[d := !path[d]]
  }

  /** Hits on the siblings of the path, from the deepest up. */
  function Attack(path: Path, k: nat): (ops: seq<Operation>)
    requires k <= |path|
    ensures |ops| == k && forall i :: 0 <= i < k ==> ops[i].UseWay? && |ops[i].path| == |path|
  {
    if k == 0 then [] else Attack(path, k - 1) + [UseWay(Sibling(path, |path| - k))]
  }

  /** Exactly the first m nodes of the path shield it. */
  predicate Guarded(t: Tree, path: Path, m: nat)
    requires Perfect(t, |path|)
  {
    path == [] || ((t.last == path[0] <==> m > 0) && Guarded(Child(t, path[0]), path[1..], if m > 0 then m - 1 else 0))
  }

  lemma {:induction false} GuardedAfterHit(t: Tree, path: Path)
    requires Perfect(t, |path|)
    ensures Guarded(Hit(t, path), path, |path|)
  {
    if path != [] { GuardedAfterHit(Child(t, path[0]), path[1..]); }
  }

  lemma {:induction false} SiblingUnguards(t: Tree, path: Path, m: nat)
    requires Perfect(t, |path|) && Guarded(t, path, m) && 0 < m <= |path|
    ensures Guarded(Hit(t, Sibling(path, m - 1)), path, m - 1)
  {
    var q := Sibling(path, m - 1);
    if m > 1 {
      assert q[1..] == Sibling(path[1..], m - 2);
      SiblingUnguards(Child(t, path[0]), path[1..], m - 1);
    }
  }

  lemma {:induction false} UnguardedIsVictim(t: Tree, path: Path)
    requires Perfect(t, |path|) && Guarded(t, path, 0)
    ensures Victim(t, |path|) == path
  {
    if path != [] {
      UnguardedIsVictim(Child(t, path[0]), path[1..]);
      assert path == [path[0]] + path[1..];
    }
  }

  lemma {:induction false} AttackUnguards(t: Tree, path: Path, k: nat)
    requires Perfect(t, |path|) && k <= |path|
    ensures Guarded(Apply(Hit(t, path), |path|, Attack(path, k)), path, |path| - k)
  {
    if k == 0 {
      GuardedAfterHit(t, path);
    } else {
      AttackUnguards(t, path, k - 1);
      var ops := Attack(path, k);
      assert ops[..k - 1] == Attack(path, k - 1);
      SiblingUnguards(Apply(Hit(t, path), |path|, Attack(path, k - 1)), path, |path| - (k - 1));
    }
  }

  /** After h well-chosen hits the very next miss does replace the way. */
  lemma LifespanIsTight(t: Tree, path: Path)
    requires Perfect(t, |path|)
    ensures Victim(Apply(Hit(t, path), |path|, Attack(path, |path|)), |path|) == path
  {
    AttackUnguards(t, path, |path|);
    UnguardedIsVictim(Apply(Hit(t, path), |path|, Attack(path, |path|)), path);
  }
}
