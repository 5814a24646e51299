/**
 Reducing eviction sets over an oracle that says of a collection of addresses whether it evicts
 the target.
 */
module EvictionSets {
  import opened Orders

  type Oracle = multiset<nat> -> bool

  ghost predicate Monotone(evicts: Oracle) {
    forall a: multiset<nat>, b: multiset<nat> :: MonotoneAt(evicts, a, b)
  }

  ghost predicate MonotoneAt(evicts: Oracle, a: multiset<nat>, b: multiset<nat>) {
    a <= b && evicts(a) ==> evicts(b)
  }

  ghost predicate HasCore(evicts: Oracle, m: multiset<nat>, k: nat) {
    exists e: multiset<nat> :: e <= m && |e| <= k && evicts(e)
  }

  /** Every eviction set contains one of at most k addresses. */
  ghost predicate Bounded(evicts: Oracle, k: nat) {
    forall m: multiset<nat> {:trigger HasCore(evicts, m, k)} :: evicts(m) ==> HasCore(evicts, m, k)
  }

  // ----- The pigeonhole argument -----

  ghost function Union(groups: seq<multiset<nat>>): multiset<nat> {
    if groups == [] then multiset{} else Union(groups[..|groups| - 1]) + groups[|groups| - 1]
  }

  /** Of more disjoint groups than a core has members, some group is not needed. */
  lemma {:induction false} SpareGroup(m: multiset<nat>, groups: seq<multiset<nat>>, e: multiset<nat>) returns (j: nat)
    requires Union(groups) <= m && e <= m && |e| < |groups|
    ensures j < |groups| && e <= m - groups[j]
    decreases |groups|
  {
    var n := |groups| - 1;
    var g := groups[n];
    var needed := e - (m - g);
    if needed == multiset{} {
      j := n;
      Subtracted(e, m - g);
    } else {
      var rest := e - needed;
      Subtracted(e, m - g);
      j := SpareGroup(m - g, groups[..n], rest);
      GroupWithinUnion(groups[..n], j);
      NotNeeded(m, g, groups[j], e);
    }
  }

  lemma Subtracted(e: multiset<nat>, rest: multiset<nat>)
    ensures e - rest == multiset{} <==> e <= rest
    ensures e - rest != multiset{} ==> |e - (e - rest)| < |e|
    ensures e - (e - rest) <= rest
  {
    if e - rest == multiset{} {
      forall x ensures e[x] <= rest[x] { assert (e - rest)[x] == 0; }
    }
  }

  lemma NotNeeded(m: multiset<nat>, g: multiset<nat>, spare: multiset<nat>, e: multiset<nat>)
    requires g <= m && e <= m && spare <= m - g && e - (e - (m - g)) <= m - g - spare
    ensures e <= m - spare
  {
    forall x ensures e[x] <= (m - spare)[x] {
      assert (e - (e - (m - g)))[x] <= (m - g - spare)[x];
    }
  }

  lemma {:induction false} GroupWithinUnion(groups: seq<multiset<nat>>, j: nat)
    requires j < |groups|
    ensures groups[j] <= Union(groups)
  {
    if j < |groups| - 1 { GroupWithinUnion(groups[..|groups| - 1], j); }
  }

  /** Groups that all fail cannot be one more than the bound. */
  lemma SomeGroupSucceeds(evicts: Oracle, m: multiset<nat>, groups: seq<multiset<nat>>, k: nat)
    requires Monotone(evicts) && Bounded(evicts, k) && evicts(m)
    requires Union(groups) <= m && |groups| == k + 1
    ensures exists j :: 0 <= j < |groups| && evicts(m - groups[j])
  {
    assert HasCore(evicts, m, k);
    var e :| e <= m && |e| <= k && evicts(e);
    var j := SpareGroup(m, groups, e);
    assert MonotoneAt(evicts, e, m - groups[j]);
  }

  // ----- The groups -----

  /** Where group j starts: the first groups have one member more than q. */
  function Start(q: nat, extra: nat, j: nat): nat {
    Times(j, q) + if j < extra then j else extra
  }

  /** The g groups fit into n members, and what they leave uncovered is nothing or at least q members. */
  ghost predicate Sized(n: nat, g: nat, q: nat, extra: nat) {
    q > 0 && extra < g && (Start(q, extra, g) == n || Start(q, extra, g) + q <= n)
  }

  /**
   With n members in g groups the source takes the remainder by the group size q = n / g, not by
   the number of groups. The groups still fit.
   */
  lemma GroupsFit(n: nat, g: nat, q: nat, r: nat, extra: nat)
    requires q > 0 && n == g * q + r && r < g && extra == n % q
    ensures Sized(n, g, q, extra)
  {
    RemainderByQuotient(n, g, q, r);
    TimesIsProduct(g, q);
  }

  lemma RemainderByQuotient(n: nat, g: nat, q: nat, r: nat)
    requires q > 0 && n == g * q + r && r < g
    ensures n % q == r % q <= r && (n % q == r || n % q + q <= r)
  {
    var t, s := r / q, r % q;
    assert r == t * q + s;
    SumOfProducts(g, t, q);
    QuotientUnique(n, q, g + t, s);
    if t > 0 { ProductStep(0, t, q); }
  }

  lemma SumOfProducts(x: nat, y: nat, q: nat)
    ensures (x + y) * q == x * q + y * q
  {}

  lemma QuotientAndRemainder(n: nat, g: nat) returns (q: nat, r: nat)
    requires n >= g > 0
    ensures q == n / g > 0 && n == g * q + r && r < g
  {
    q, r := n / g, n % g;
  }

  /** As written, the groups cover all members exactly if the remainder is below the group size. */
  lemma CoversAllIff(n: nat, g: nat)
    requires n >= g > 0
    ensures n / g > 0 && (Start(n / g, n % (n / g), g) == n <==> n % g < n / g)
  {
    var q, r := QuotientAndRemainder(n, g);
    RemainderByQuotient(n, g, q, r);
    GroupsFit(n, g, q, r, n % q);
    StartOfRest(n, g, q, r, n % q);
  }

  lemma StartOfRest(n: nat, g: nat, q: nat, r: nat, extra: nat)
    requires q > 0 && n == g * q + r && extra < g && extra == r % q && (extra == r || extra + q <= r)
    ensures Start(q, extra, g) == n <==> r < q
  {
    TimesIsProduct(g, q);
  }

  /** Eleven members in four groups: two of them belong to no group. */
  lemma NineOfEleven()
    ensures Start(11 / 4, 11 % (11 / 4), 4) == 9
  {
    TimesIsProduct(4, 2);
  }

  /** A group that can be stripped: it ends the range, or a whole group of size q follows it. */
  ghost predicate Strippable(n: nat, q: nat, b: nat, e: nat) {
    && b + q <= e <= b + q + 1 && e <= n
    && (e == n ==> e == b + q) && (e == n || e + q <= n)
  }

  lemma {:induction false} StartsGrow(q: nat, extra: nat, i: nat, j: nat)
    requires i <= j
    ensures Start(q, extra, i) <= Start(q, extra, j)
  {
    if i < j { StartsGrow(q, extra, i, j - 1); }
  }

  lemma GroupStrippable(n: nat, g: nat, q: nat, extra: nat, j: nat)
    requires Sized(n, g, q, extra) && j < g
    ensures Start(q, extra, j + 1) == Start(q, extra, j) + q + (if j < extra then 1 else 0)
    ensures Strippable(n, q, Start(q, extra, j), Start(q, extra, j + 1))
  {
    if j + 2 <= g {
      StartsGrow(q, extra, j + 2, g);
      assert Times(j + 2, q) == Times(j + 1, q) + q;
    }
  }

  // ----- Searching a group that can go -----

  /** What is left of the addresses when those from b up to e are masked out. */
  function Without(s: seq<nat>, b: nat, e: nat): multiset<nat>
    requires b <= e <= |s|
  {
    multiset(s[..b]) + multiset(s[e..])
  }

  /** Without group j the rest is no eviction set. */
  ghost predicate Needed(evicts: Oracle, s: seq<nat>, q: nat, extra: nat, j: nat) {
    var b, e := Start(q, extra, j), Start(q, extra, j + 1);
    b <= e <= |s| && !evicts(Without(s, b, e))
  }

  /** The groups before j are needed, and b is where group j starts. */
  ghost predicate Searched(evicts: Oracle, s: seq<nat>, q: nat, extra: nat, j: nat, b: nat) {
    b == Start(q, extra, j) && forall i: nat :: i < j ==> Needed(evicts, s, q, extra, i)
  }

  lemma SearchMore(evicts: Oracle, s: seq<nat>, q: nat, extra: nat, j: nat, b: nat, e: nat)
    requires Searched(evicts, s, q, extra, j, b) && e == Start(q, extra, j + 1) && b <= e <= |s|
    requires !evicts(Without(s, b, e))
    ensures Searched(evicts, s, q, extra, j + 1, e)
  {}

  /** Two phases, one for each size of groups, until a group can go. */
  method FindSpareGroup(evicts: Oracle, s: seq<nat>, g: nat, q: nat, extra: nat)
    returns (found: bool, b: nat, e: nat)
    requires Sized(|s|, g, q, extra)
    ensures found ==> Strippable(|s|, q, b, e) && evicts(Without(s, b, e))
    ensures !found ==> forall j :: 0 <= j < g ==> Needed(evicts, s, q, extra, j)
  {
    var groupSize: nat := q + 1;
    b, e := 0, q + 1;
    ghost var j: nat := 0;
    for phase: nat := 0 to 2
      invariant groupSize == q + 1 - phase && e == b + groupSize
      invariant j == (if phase == 0 then 0 else if phase == 1 then extra else g)
      invariant Searched(evicts, s, q, extra, j, b)
    {
      var counter: nat := if phase == 0 then extra else g - extra;
      while counter > 0
        invariant j + counter == (if phase == 0 then extra else g) && (phase == 1 ==> j >= extra)
        invariant Searched(evicts, s, q, extra, j, b) && e == b + groupSize
      {
        GroupStrippable(|s|, g, q, extra, j);
        counter := counter - 1;
        if evicts(Without(s, b, e)) { return true, b, e; }
        SearchMore(evicts, s, q, extra, j, b, e);
        b, e, j := b + groupSize, e + groupSize, j + 1;
      }
      e, groupSize := e - 1, groupSize - 1;
    }
    found := false;
  }

  ghost function GroupOf(s: seq<nat>, q: nat, extra: nat, j: nat): multiset<nat> {
    var b, e := Start(q, extra, j), Start(q, extra, j + 1);
    if b <= e <= |s| then multiset(s[b..e]) else multiset{}
  }

  ghost predicate AreGroups(groups: seq<multiset<nat>>, s: seq<nat>, q: nat, extra: nat) {
    forall j: nat :: j < |groups| ==> groups[j] == GroupOf(s, q, extra, j)
  }

  /** The members of the groups, where these are the members of s before end. */
  ghost predicate Cover(groups: seq<multiset<nat>>, s: seq<nat>, end: nat) {
    end <= |s| && Union(groups) == multiset(s[..end])
  }

  lemma CoverMore(groups: seq<multiset<nat>>, s: seq<nat>, b: nat, e: nat)
    requires Cover(groups, s, b) && b <= e <= |s|
    ensures Cover(groups + [multiset(s[b..e])], s, e)
  {
    assert (groups + [multiset(s[b..e])])[..|groups|] == groups;
    assert s[..e] == s[..b] + s[b..e];
  }

  lemma NoneCovered(s: seq<nat>, q: nat, extra: nat)
    ensures Cover([], s, Start(q, extra, 0)) && AreGroups([], s, q, extra)
  {}

  lemma {:induction false} NextGroup(groups: seq<multiset<nat>>, s: seq<nat>, q: nat, extra: nat, group: multiset<nat>)
    requires AreGroups(groups, s, q, extra) && group == GroupOf(s, q, extra, |groups|)
    ensures AreGroups(groups + [group], s, q, extra)
  {
    var more := groups + [group];
    assert |more| == |groups| + 1 && more[|groups|] == group;
    forall j: nat | j < |more| ensures more[j] == GroupOf(s, q, extra, j) {
      assert j < |groups| ==> more[j] == groups[j];
    }
  }

  lemma CoverWithin(groups: seq<multiset<nat>>, s: seq<nat>, end: nat)
    requires Cover(groups, s, end)
    ensures Union(groups) <= multiset(s)
  {
    assert s == s[..end] + s[end..];
  }

  lemma {:induction false} GroupsCover(s: seq<nat>, q: nat, extra: nat, k: nat, end: nat)
    returns (groups: seq<multiset<nat>>)
    requires end == Start(q, extra, k) <= |s|
    ensures |groups| == k && Cover(groups, s, end) && AreGroups(groups, s, q, extra)
  {
    if k == 0 {
      NoneCovered(s, q, extra);
      groups := [];
    } else {
      StartsGrow(q, extra, k - 1, k);
      var b := Start(q, extra, k - 1);
      var nearer := GroupsCover(s, q, extra, k - 1, b);
      CoverMore(nearer, s, b, end);
      NextGroup(nearer, s, q, extra, multiset(s[b..end]));
      groups := nearer + [multiset(s[b..end])];
    }
  }

  lemma WithoutIs(s: seq<nat>, b: nat, e: nat)
    requires b <= e <= |s|
    ensures Without(s, b, e) == multiset(s) - multiset(s[b..e])
  {
    assert s == s[..b] + s[b..e] + s[e..];
  }

  /** One of k + 1 groups can go from an eviction set whose core has k members. */
  lemma SearchSucceeds(evicts: Oracle, s: seq<nat>, k: nat, q: nat, extra: nat)
    requires Sized(|s|, k + 1, q, extra) && Monotone(evicts) && Bounded(evicts, k) && evicts(multiset(s))
    ensures exists j :: 0 <= j < k + 1 && !Needed(evicts, s, q, extra, j)
  {
    var end := Start(q, extra, k + 1);
    var groups := GroupsCover(s, q, extra, k + 1, end);
    CoverWithin(groups, s, end);
    SomeGroupSucceeds(evicts, multiset(s), groups, k);
    var j :| 0 <= j < |groups| && evicts(multiset(s) - groups[j]);
    NotNeededGroup(evicts, s, k + 1, q, extra, j);
  }

  lemma NotNeededGroup(evicts: Oracle, s: seq<nat>, g: nat, q: nat, extra: nat, j: nat)
    requires Sized(|s|, g, q, extra) && j < g && evicts(multiset(s) - GroupOf(s, q, extra, j))
    ensures !Needed(evicts, s, q, extra, j)
  {
    GroupStrippable(|s|, g, q, extra, j);
    WithoutIs(s, Start(q, extra, j), Start(q, extra, j + 1));
  }

  // ----- Stripping a group -----

  /** The q elements from x on have changed places with the q elements from y on. */
  ghost predicate Exchanged(s: seq<nat>, r: seq<nat>, x: nat, y: nat, q: nat) {
    && x + q <= y && y + q <= |s| == |r|
    && r[..x] == s[..x] && r[x..x + q] == s[y..y + q] && r[x + q..y] == s[x + q..y]
    && r[y..y + q] == s[x..x + q] && r[y + q..] == s[y + q..]
  }

  lemma InFiveParts(s: seq<nat>, x: nat, y: nat, q: nat)
    requires x + q <= y && y + q <= |s|
    ensures multiset(s) == multiset(s[..x]) + multiset(s[x..x + q]) + multiset(s[x + q..y])
                           + multiset(s[y..y + q]) + multiset(s[y + q..])
  {
    assert s == s[..x] + s[x..x + q] + s[x + q..y] + s[y..y + q] + s[y + q..];
    FiveParts(s[..x], s[x..x + q], s[x + q..y], s[y..y + q], s[y + q..]);
  }

  lemma FiveParts(a: seq<nat>, b: seq<nat>, c: seq<nat>, d: seq<nat>, e: seq<nat>)
    ensures multiset(a + b + c + d + e) == multiset(a) + multiset(b) + multiset(c) + multiset(d) + multiset(e)
  {
    assert multiset(a + b) == multiset(a) + multiset(b);
    assert multiset(a + b + c) == multiset(a + b) + multiset(c);
    assert multiset(a + b + c + d) == multiset(a + b + c) + multiset(d);
  }

  lemma ExchangedMultiset(s: seq<nat>, r: seq<nat>, x: nat, y: nat, q: nat)
    requires Exchanged(s, r, x, y, q)
    ensures multiset(r) == multiset(s)
  {
    InFiveParts(s, x, y, q);
    InFiveParts(r, x, y, q);
  }

  /** Where an element of the exchanged sequence comes from. */
  function Source(x: nat, y: nat, q: nat, j: nat): nat
    requires x <= y
  {
    if x <= j < x + q then y + j - x else if y <= j < y + q then x + j - y else j
  }

  lemma ExchangedFrom(s: seq<nat>, r: seq<nat>, x: nat, y: nat, q: nat)
    requires x + q <= y && y + q <= |s| == |r|
    requires forall j :: 0 <= j < |s| ==> r[j] == s[Source(x, y, q, j)]
    ensures Exchanged(s, r, x, y, q)
  {
    assert r[..x] == s[..x] && r[x..x + q] == s[y..y + q] && r[x + q..y] == s[x + q..y];
  }

  method SwapRanges(a: array<nat>, x: nat, y: nat, q: nat)
    requires x + q <= y && y + q <= a.Length
    modifies a
    ensures Exchanged(old(a[..]), a[..], x, y, q)
  {
    for i := 0 to q
      invariant forall j :: 0 <= j < a.Length ==> a[j] == old(a[..])[Source(x, y, i, j)]
    {
      a[y + i], a[x + i] := a[x + i], a[y + i];
    }
    ExchangedFrom(old(a[..]), a[..], x, y, q);
  }

  lemma PartsWithin(front: seq<nat>, gap: seq<nat>, middle: seq<nat>, tail: seq<nat>)
    ensures multiset(front) + multiset(middle + tail) <= multiset(front + tail + (gap + middle))
  {
    assert multiset(front + tail + (gap + middle)) == multiset(front + tail) + multiset(gap + middle);
  }

  lemma StrippedInside(s: seq<nat>, r: seq<nat>, n: nat, q: nat, b: nat, e: nat)
    requires n <= |s| && Strippable(n, q, b, e) && e != n && Exchanged(s, r, b, n - q, q)
    ensures Without(s[..n], b, e) <= multiset(r[..n - q])
  {
    var front, gap, middle, tail := s[..b], s[b + q..e], s[e..n - q], s[n - q..n];
    assert s[..n][..b] == front && s[..n][e..] == middle + tail;
    assert r[..n - q] == front + tail + s[b + q..n - q];
    assert s[b + q..n - q] == gap + middle;
    PartsWithin(front, gap, middle, tail);
  }

  /** The reduction so far: a permutation whose front is an eviction set if the whole was one. */
  ghost predicate Reduced(evicts: Oracle, orig: multiset<nat>, s: seq<nat>, last: nat) {
    && last <= |s| && multiset(s) == orig
    && (Monotone(evicts) && evicts(orig) ==> evicts(multiset(s[..last])))
  }

  /** A group at the end is cut off. */
  lemma CutLast(evicts: Oracle, orig: multiset<nat>, s: seq<nat>, n: nat, b: nat)
    requires Reduced(evicts, orig, s, n) && b <= n && evicts(Without(s[..n], b, n))
    ensures Reduced(evicts, orig, s, b)
  {
    assert s[..b] == s[..n][..b] && s[..n][n..] == [];
    assert Without(s[..n], b, n) == multiset(s[..b]);
  }

  /** Elsewhere the last q members take its place; of a larger group one member stays. */
  lemma MoveLast(evicts: Oracle, orig: multiset<nat>, s: seq<nat>, r: seq<nat>, n: nat, q: nat, b: nat, e: nat)
    requires Reduced(evicts, orig, s, n) && Strippable(n, q, b, e) && e != n && evicts(Without(s[..n], b, e))
    requires Exchanged(s, r, b, n - q, q)
    ensures Reduced(evicts, orig, r, n - q)
  {
    ExchangedMultiset(s, r, b, n - q, q);
    StrippedInside(s, r, n, q, b, e);
    MoreEvicts(evicts, Without(s[..n], b, e), multiset(r[..n - q]));
  }

  lemma MoreEvicts(evicts: Oracle, m: multiset<nat>, m': multiset<nat>)
    requires m <= m' && evicts(m)
    ensures Monotone(evicts) ==> evicts(m')
  {
    if Monotone(evicts) { assert MonotoneAt(evicts, m, m'); }
  }

  // ----- Group-testing reduction -----

  /** With such an oracle and an eviction set, the reduction may not fail. */
  ghost predicate Suited(evicts: Oracle, orig: multiset<nat>, k: nat) {
    Monotone(evicts) && Bounded(evicts, k) && evicts(orig)
  }

  lemma SearchFails(evicts: Oracle, orig: multiset<nat>, s: seq<nat>, n: nat, k: nat, q: nat, extra: nat)
    requires Reduced(evicts, orig, s, n) && Sized(n, k + 1, q, extra)
    requires forall j :: 0 <= j < k + 1 ==> Needed(evicts, s[..n], q, extra, j)
    ensures !Suited(evicts, orig, k)
  {
    if Suited(evicts, orig, k) { SearchSucceeds(evicts, s[..n], k, q, extra); }
  }

  method GroupSizes(n: nat, groups: nat) returns (minGroupSize: nat, extra: nat)
    requires n >= groups > 0
    ensures Sized(n, groups, minGroupSize, extra)
  {
    minGroupSize := n / groups;
    ghost var q, r := QuotientAndRemainder(n, groups);
    extra := n % minGroupSize;
    GroupsFit(n, groups, q, r, extra);
  }

  method StripGroup(evicts: Oracle, a: array<nat>, last: nat, q: nat, b: nat, e: nat, ghost orig: multiset<nat>)
    returns (last': nat)
    requires last <= a.Length && q > 0 && Strippable(last, q, b, e)
    requires Reduced(evicts, orig, a[..], last) && evicts(Without(a[..][..last], b, e))
    modifies a
    ensures last' < last && Reduced(evicts, orig, a[..], last')
  {
    ghost var s := a[..];
    if e == last {
      CutLast(evicts, orig, s, last, b);
      last' := b;
    } else {
      last' := last - q;
      SwapRanges(a, b, last', q);
      MoveLast(evicts, orig, s, a[..], last, q, b, e);
    }
  }

  /**
   Never more than maxSize members, always a permutation, and still an eviction set if it was one.
   The result is 0, a failure, only if the oracle does not behave as the groups need it.
   */
  method ReduceEvictionSet(evicts: Oracle, a: array<nat>, maxSize: nat) returns (last: nat)
    requires maxSize >= 1
    modifies a
    ensures last <= a.Length && last <= maxSize
    ensures multiset(a[..]) == multiset(old(a[..]))
    ensures Monotone(evicts) && evicts(multiset(old(a[..]))) && last > 0 ==> evicts(multiset(a[..last]))
    ensures Suited(evicts, multiset(old(a[..])), maxSize) && !evicts(multiset{}) ==> last > 0
  {
    var groups := maxSize + 1;
    last := a.Length;
    ghost var orig := multiset(a[..]);
    assert a[..last] == a[..];
    while last > maxSize
      invariant Reduced(evicts, orig, a[..], last)
    {
      var minGroupSize, extra := GroupSizes(last, groups);
      assert a[..last] == a[..][..last];
      var found, b, e := FindSpareGroup(evicts, a[..last], groups, minGroupSize, extra);
      if !found {
        SearchFails(evicts, orig, a[..], last, maxSize, minGroupSize, extra);
        return 0;
      }
      last := StripGroup(evicts, a, last, minGroupSize, b, e, orig);
    }
    assert a[..last] == a[..][..last];
    if last == 0 { assert a[..last] == []; }
  }
}
