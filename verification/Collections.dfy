/** Small facts about sequences and sets that several components use. */
module Collections {

  datatype Option<T> = None | Some(value: T)

  predicate Distinct<X(==)>(s: seq<X>) {
    forall i, j :: 0 <= i < j < |s| ==> s[i] != s[j]
  }

  /** The same, element by element from the back (see NoRepeatsIff); for inductions along the sequence. */
  predicate NoRepeats<X(==)>(s: seq<X>) {
    s == [] || (s[|s| - 1] !in s[..|s| - 1] && NoRepeats(s[..|s| - 1]))
  }

  lemma {:induction false} NoRepeatsIff<X>(s: seq<X>)
    ensures NoRepeats(s) <==> Distinct(s)
  {
    if s != [] {
      var k := |s| - 1;
      NoRepeatsIff(s[..k]);
      if s[k] in s[..k] { var i :| 0 <= i < k && s[i] == s[k]; }
      if NoRepeats(s) {
        forall i, j | 0 <= i < j < |s| ensures s[i] != s[j] {
          if j == k { assert s[..k][i] == s[i]; } else { assert s[..k][i] != s[..k][j]; }
        }
      }
    }
  }

  /** The numbers below n, in order. */
  function Numbers(n: nat): (s: seq<nat>)
    ensures |s| == n && forall i :: 0 <= i < n ==> s[i] == i
  {
    if n == 0 then [] else Numbers(n - 1) + [n - 1]
  }

  function Members<X>(s: seq<X>): set<X> { set x | x in s }

  lemma {:induction false} SizeOfNoRepeats<X>(s: seq<X>)
    ensures |Members(s)| <= |s| && (|Members(s)| == |s| <==> NoRepeats(s))
  {
    if s != [] {
      var before, x := s[..|s| - 1], s[|s| - 1];
      SizeOfNoRepeats(before);
      assert s == before + [x];
      MembersMore(before, x);
    }
  }

  lemma MembersMore<X>(s: seq<X>, x: X)
    ensures Members(s + [x]) == Members(s) + {x} && (x in s <==> x in Members(s))
  {}

  lemma SetOfDistinct<X>(s: seq<X>)
    ensures |Members(s)| <= |s| && (|Members(s)| == |s| <==> Distinct(s))
  {
    SizeOfNoRepeats(s);
    NoRepeatsIff(s);
  }

  function UpTo(n: nat): (s: set<nat>)
    ensures forall x :: x in s <==> 0 <= x < n
  {
    if n == 0 then {} else UpTo(n - 1) + {n - 1}
  }

  lemma {:induction false} UpToSize(n: nat)
    ensures |UpTo(n)| == n
  {
    if n > 0 {
      var rest := UpTo(n - 1);
      UpToSize(n - 1);
      assert UpTo(n) == rest + {n - 1};
    }
  }

  lemma SubsetOfSameSize<X>(a: set<X>, b: set<X>)
    requires a <= b && |a| == |b|
    ensures a == b
  {
    assert b == a + (b - a);
  }
}
