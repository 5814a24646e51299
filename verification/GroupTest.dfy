/**
 Binary group testing, the location of an address's set with it, and the majority vote.
 */
module GroupTests {
  import opened Collections
  import opened Words

  /** A test of the items from lo up to hi. */
  type Test = (nat, nat) -> bool

  ghost predicate SomePositive(positive: nat -> bool, lo: nat, hi: nat) {
    exists i: nat :: lo <= i < hi && positive(i)
  }

  /** The test is positive exactly on the ranges with a positive item. */
  ghost predicate Exact(test: Test, positive: nat -> bool, n: nat) {
    forall lo: nat, hi: nat {:trigger test(lo, hi)} ::
      lo <= hi <= n ==> (test(lo, hi) <==> SomePositive(positive, lo, hi))
  }

  /** Item i is positive and no earlier one is. */
  ghost predicate Leftmost(positive: nat -> bool, i: nat) {
    positive(i) && forall j: nat :: j < i ==> !positive(j)
  }

  /** The smallest k with n <= 2^k (see CeilLogIs). */
  function CeilLog(n: nat): nat {
    if n <= 1 then 0 else 1 + CeilLog((n + 1) / 2)
  }

  lemma {:induction false} CeilLogIs(n: nat)
    ensures n <= Pow2(CeilLog(n)) && forall k: nat :: n <= Pow2(k) ==> CeilLog(n) <= k
  {
    if n > 1 {
      CeilLogIs((n + 1) / 2);
      forall k: nat | n <= Pow2(k) ensures CeilLog(n) <= k {
        assert (n + 1) / 2 <= Pow2(k - 1);
      }
    }
  }

  lemma {:induction false} CeilLogMonotone(m: nat, n: nat)
    requires m <= n
    ensures CeilLog(m) <= CeilLog(n)
  {
    CeilLogIs(m);
    CeilLogIs(n);
  }

  lemma HalvesCost(first: nat, mid: nat, last: nat)
    requires first + 1 < last && mid == first + (last - first) / 2
    ensures first < mid < last
    ensures CeilLog(mid - first) < CeilLog(last - first) && CeilLog(last - mid) < CeilLog(last - first)
  {
    CeilLogMonotone(mid - first, (last - first + 1) / 2);
    CeilLogMonotone(last - mid, (last - first + 1) / 2);
  }

  /** With an exact test: the leftmost positive item or the end, in logarithmically many tests. */
  method GroupTest(test: Test, n: nat, ghost positive: nat -> bool) returns (found: nat, ghost tests: nat)
    requires test(0, n) ==> n > 0
    ensures found <= n && (found == n <==> !test(0, n)) && tests <= 1 + CeilLog(n)
    ensures Exact(test, positive, n) ==> if found < n then Leftmost(positive, found) else !SomePositive(positive, 0, n)
  {
    tests := 1;
    if !test(0, n) { return n, tests; }
    var first: nat, last: nat := 0, n;
    while true
      invariant first < last <= n && CeilLog(last - first) <= CeilLog(n)
      invariant tests <= 1 + CeilLog(n) - CeilLog(last - first)
      invariant Exact(test, positive, n) ==> SomePositive(positive, first, last) && !SomePositive(positive, 0, first)
      decreases last - first
    {
      var dist := last - first;
      if dist <= 1 { return first, tests; }
      var mid := first + dist / 2;
      HalvesCost(first, mid, last);
      tests := tests + 1;
      if test(first, mid) { last := mid; } else { first := mid; }
    }
  }

  function Only(place: nat): nat -> bool { (i: nat) => i == place }

  /** An exact answer to the question whether the target maps to one of the sets locates its set. */
  method LocateSet(mapsTo: Test, indexBits: nat, ghost place: nat) returns (r: Option<nat>)
    requires Exact(mapsTo, Only(place), Pow2(indexBits))
    ensures r == if place < Pow2(indexBits) then Some(place) else None
  {
    var sets := Pow2(indexBits);
    assert Only(place)(place);
    var set_, _ := GroupTest(mapsTo, sets, Only(place));
    if set_ == sets { return None; }
    return Some(set_);
  }

  // ----- Majority -----

  function Occurrences<T(==)>(s: seq<T>, v: T): (n: nat)
    ensures n <= |s|
  {
    if s == [] then 0 else Occurrences(s[..|s| - 1], v) + (if s[|s| - 1] == v then 1 else 0)
  }

  /**
   What the vote knows after i elements: v's lead over the others is at most the candidate's
   count if v is the candidate, and v is behind by that count otherwise.
   */
  ghost predicate Voted<T>(s: seq<T>, i: nat, maj: T, count: nat, v: T)
    requires i <= |s|
  {
    count >= 1 && 2 * Occurrences(s[..i], v) - i <= if maj == v then count else 1 - count
  }

  /** One vote: the candidate gains, changes or loses. */
  function NextCandidate<T(==)>(maj: T, count: nat, x: T): (T, nat)
    requires count >= 1
  {
    if maj == x then (maj, count + 1) else if count == 1 then (x, count) else (maj, count - 1)
  }

  lemma VoteStep<T>(s: seq<T>, i: nat, maj: T, count: nat, v: T)
    requires i < |s| && Voted(s, i, maj, count, v)
    ensures Voted(s, i + 1, NextCandidate(maj, count, s[i]).0, NextCandidate(maj, count, s[i]).1, v)
  {
    assert s[..i + 1][..i] == s[..i];
  }

  /** The vote counts the first element twice and gives a candidate up at count one. */
  method MajorityElement<T(==, !new)>(s: seq<T>) returns (maj: T)
    requires s != []
    ensures forall v :: 2 * Occurrences(s, v) > |s| ==> maj == v
  {
    maj := s[0];
    var count: nat := 1;
    assert s[..0] == [];
    for i := 0 to |s|
      invariant count >= 1 && forall v :: Voted(s, i, maj, count, v)
    {
      ghost var next, j := NextCandidate(maj, count, s[i]), i + 1;
      forall v ensures Voted(s, j, next.0, next.1, v) { VoteStep(s, i, maj, count, v); }
      if maj == s[i] {
        count := count + 1;
      } else if count == 1 {
        maj := s[i];
      } else {
        count := count - 1;
      }
    }
    assert s[..|s|] == s;
    forall v | 2 * Occurrences(s, v) > |s| ensures maj == v { assert Voted(s, |s|, maj, count, v); }
  }
}
