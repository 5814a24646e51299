/**
 Recency orders: lists of ways, most recent first. FIFO and LRU keep one, and the two-level
 policy keeps one over its inner policies.
 */
module Orders {
  import opened Collections
  import opened Machines

  /** A permutation of the ways: n numbers below n among which every way occurs. */
  predicate IsOrder(order: seq<nat>, n: nat) {
    && |order| == n
    && (forall i :: 0 <= i < n ==> order[i] < n)
    && (forall way :: 0 <= way < n ==> way in order)
  }

  /** Element i rotated to the front. */
  function ToFront(order: seq<nat>, i: nat): (r: seq<nat>)
    requires i < |order|
    ensures |r| == |order|
    ensures forall j {:trigger r[j]} :: 0 <= j < |r| ==>
        r[j] == order[if j == 0 then i else if j <= i then j - 1 else j]
  {
    [order[i]] + order[..i] + order[i + 1..]
  }

  function Position(order: seq<nat>, way: nat): (i: nat)
    requires way in order
    ensures i < |order| && order[i] == way
  {
    if order[0] == way then 0 else 1 + Position(order[1..], way)
  }

  /** A use makes a way the most recent one. */
  function Touch(order: seq<nat>, way: nat): seq<nat> {
    if way in order then ToFront(order, Position(order, way)) else order
  }

  /** The least recent way becomes the most recent one. */
  function Recycle(order: seq<nat>): seq<nat> {
    if order == [] then [] else [order[|order| - 1]] + order[..|order| - 1]
  }

  function LeastRecent(order: seq<nat>): nat {
    if order == [] then 0 else order[|order| - 1]
  }

  lemma ToFrontKeepsOrder(order: seq<nat>, n: nat, i: nat)
    requires IsOrder(order, n) && i < n
    ensures IsOrder(ToFront(order, i), n)
  {
    var r := ToFront(order, i);
    forall way | 0 <= way < n ensures way in r {
      var j := Position(order, way);
      assert r[if j == i then 0 else if j < i then j + 1 else j] == way;
    }
  }

  lemma TouchKeepsOrder(order: seq<nat>, n: nat, way: nat)
    requires IsOrder(order, n) && way < n
    ensures IsOrder(Touch(order, way), n)
  {
    ToFrontKeepsOrder(order, n, Position(order, way));
  }

  lemma RecycleKeepsOrder(order: seq<nat>, n: nat)
    requires IsOrder(order, n)
    ensures IsOrder(Recycle(order), n)
  {
    if n > 0 {
      ToFrontKeepsOrder(order, n, n - 1);
      assert Recycle(order) == ToFront(order, n - 1);
    }
  }

  /** Covering all ways, an order repeats none. */
  lemma OrderDistinct(order: seq<nat>, n: nat)
    requires IsOrder(order, n)
    ensures forall i, j :: 0 <= i < j < n ==> order[i] != order[j]
  {
    UpToSize(n);
    assert UpTo(n) == Members(order);
    SetOfDistinct(order);
  }

  lemma {:induction false} FirstPosition(order: seq<nat>, i: nat)
    requires i < |order| && forall j :: 0 <= j < i ==> order[j] != order[i]
    ensures Position(order, order[i]) == i
  {
    if i > 0 { FirstPosition(order[1..], i - 1); }
  }

  lemma PositionAt(order: seq<nat>, n: nat, i: nat)
    requires IsOrder(order, n) && i < n
    ensures Position(order, order[i]) == i
  {
    OrderDistinct(order, n);
    FirstPosition(order, i);
  }

  // ----- Runs of misses -----

  function Turned(order: seq<nat>, k: nat): (r: seq<nat>)
    requires k <= |order|
    ensures |r| == |order|
    ensures forall i {:trigger r[i]} :: 0 <= i < |r| ==> r[i] == order[if i < k then |order| - k + i else i - k]
  {
    order[|order| - k..] + order[..|order| - k]
  }

  lemma RecycleTurned(order: seq<nat>, k: nat)
    requires k < |order|
    ensures Recycle(Turned(order, k)) == Turned(order, k + 1)
  {
    var r, r' := Turned(order, k), Turned(order, k + 1);
    assert forall i :: 0 <= i < |order| ==> Recycle(r)[i] == r'[i];
  }

  lemma {:induction false} RecycleRun(order: seq<nat>, k: nat)
    requires k <= |order|
    ensures Iterate(Recycle, order, k) == Turned(order, k)
  {
    if k == 0 {
      assert Turned(order, 0) == order;
    } else {
      RecycleRun(order, k - 1);
      RecycleTurned(order, k - 1);
      LastStep(Recycle, order, k - 1);
    }
  }

  // ----- Two levels -----

  /** An outer order over inner states; the least recent inner state takes the next step. */
  datatype TwoLevel<X> = TwoLevel(order: seq<nat>, inner: seq<X>)

  predicate Sound<X>(c: TwoLevel<X>) {
    |c.order| > 0 && IsOrder(c.order, |c.order|) && |c.inner| == |c.order|
  }

  function Advance<X>(c: TwoLevel<X>, g: X -> X): TwoLevel<X> {
    var way := LeastRecent(c.order);
    if way < |c.inner| then TwoLevel(Recycle(c.order), c.inner[way := g(c.inner[way])]) else c
  }

  function Stepper<X>(g: X -> X): TwoLevel<X> -> TwoLevel<X> { c => Advance(c, g) }

  /** All inner states after q steps. */
  function Aged<X>(inner: seq<X>, g: X -> X, q: nat): (r: seq<X>)
    ensures |r| == |inner| && forall j :: 0 <= j < |r| ==> r[j] == Iterate(g, inner[j], q)
  {
    seq(|inner|, j requires 0 <= j < |inner| => Iterate(g, inner[j], q))
  }

  /** The ways that the first k steps of a round take: the k least recent ones. */
  function Recent(order: seq<nat>, k: nat): seq<nat>
    requires k <= |order|
  {
    order[|order| - k..]
  }

  lemma RecentGrows(order: seq<nat>, n: nat, k: nat)
    requires IsOrder(order, n) && 0 < k <= n
    ensures order[n - k] !in Recent(order, k - 1)
    ensures forall way :: way in Recent(order, k) <==> way in Recent(order, k - 1) || way == order[n - k]
  {
    OrderDistinct(order, n);
    assert Recent(order, k) == [order[n - k]] + Recent(order, k - 1);
  }

  /** The inner states after the ways in the list have stepped once. */
  ghost predicate SteppedOnce<X>(inner: seq<X>, inner': seq<X>, g: X -> X, ways: seq<nat>) {
    |inner'| == |inner|
    && forall way: nat :: way < |inner| ==> inner'[way] == if way in ways then g(inner[way]) else inner[way]
  }

  lemma StepOneMore<X>(inner: seq<X>, inner': seq<X>, g: X -> X, ways: seq<nat>, way: nat, ways': seq<nat>)
    requires SteppedOnce(inner, inner', g, ways) && way < |inner| && way !in ways
    requires forall w :: w in ways' <==> w in ways || w == way
    ensures SteppedOnce(inner, inner'[way := g(inner'[way])], g, ways')
  {}

  /** The order runs on its own. */
  lemma {:induction false} OrderRun<X>(c: TwoLevel<X>, g: X -> X, k: nat)
    requires Sound(c)
    ensures var d := Iterate(Stepper(g), c, k);
            d.order == Iterate(Recycle, c.order, k) && Sound(d) && |d.order| == |c.order|
  {
    if k > 0 {
      OrderRun(c, g, k - 1);
      RecycleKeepsOrder(Iterate(Stepper(g), c, k - 1).order, |c.order|);
      LastStep(Stepper(g), c, k - 1);
      LastStep(Recycle, c.order, k - 1);
    }
  }

  lemma NextLeast(order: seq<nat>, k: nat)
    requires k < |order|
    ensures LeastRecent(Iterate(Recycle, order, k)) == order[|order| - 1 - k]
  {
    RecycleRun(order, k);
  }

  lemma LastAdvance<X>(c: TwoLevel<X>, g: X -> X, k: nat)
    requires Sound(c) && k < |c.order|
    ensures var inner, way := Iterate(Stepper(g), c, k).inner, c.order[|c.order| - 1 - k];
            way < |inner| && Iterate(Stepper(g), c, k + 1).inner == inner[way := g(inner[way])]
  {
    OrderRun(c, g, k);
    NextLeast(c.order, k);
    LastStep(Stepper(g), c, k);
  }

  /** After k steps of a round the k least recent inner states have stepped once. */
  lemma {:induction false} WithinRound<X>(c: TwoLevel<X>, g: X -> X, k: nat)
    requires Sound(c) && k <= |c.order|
    ensures SteppedOnce(c.inner, Iterate(Stepper(g), c, k).inner, g, Recent(c.order, k))
  {
    if k > 0 {
      WithinRound(c, g, k - 1);
      LastAdvance(c, g, k - 1);
      RecentGrows(c.order, |c.order|, k);
      StepOneMore(c.inner, Iterate(Stepper(g), c, k - 1).inner, g,
                  Recent(c.order, k - 1), c.order[|c.order| - k], Recent(c.order, k));
    }
  }

  lemma WholeOrder(order: seq<nat>, n: nat)
    requires n == |order|
    ensures Iterate(Recycle, order, n) == order && Recent(order, n) == order
  {
    RecycleRun(order, n);
    assert Turned(order, n) == order && Recent(order, n) == order;
  }

  lemma AllStepped<X>(inner: seq<X>, inner': seq<X>, g: X -> X, ways: seq<nat>)
    requires SteppedOnce(inner, inner', g, ways) && forall w: nat :: w < |inner| ==> w in ways
    ensures inner' == Aged(inner, g, 1)
  {
    forall w: nat | w < |inner| ensures inner'[w] == Aged(inner, g, 1)[w] { LastStep(g, inner[w], 0); }
  }

  lemma WholeRound<X>(c: TwoLevel<X>, g: X -> X)
    requires Sound(c)
    ensures Iterate(Stepper(g), c, |c.order|) == TwoLevel(c.order, Aged(c.inner, g, 1))
  {
    var n, d := |c.order|, Iterate(Stepper(g), c, |c.order|);
    WithinRound(c, g, n);
    OrderRun(c, g, n);
    WholeOrder(c.order, n);
    AllStepped(c.inner, d.inner, g, c.order);
  }

  /** q rounds of n steps. */
  function Times(q: nat, n: nat): nat {
    if q == 0 then 0 else Times(q - 1, n) + n
  }

  lemma {:induction false} TimesAdds(q: nat, r: nat, n: nat)
    ensures Times(q + r, n) == Times(q, n) + Times(r, n)
  {
    if r > 0 { TimesAdds(q, r - 1, n); }
  }

  lemma {:induction false} TimesCommutes(q: nat, n: nat)
    ensures Times(q, n) == Times(n, q) == q * n
  {
    TimesIsProduct(q, n);
    TimesIsProduct(n, q);
  }

  lemma {:induction false} TimesIsProduct(q: nat, n: nat)
    ensures Times(q, n) == q * n
  {
    if q > 0 { TimesIsProduct(q - 1, n); }
  }

  lemma QuotientUnique(n: nat, q: nat, t: nat, s: nat)
    requires q > 0 && n == t * q + s && s < q
    ensures n / q == t && n % q == s
  {
    var t', s' := n / q, n % q;
    assert n == t' * q + s';
    if t < t' { ProductStep(t, t', q); }
    if t' < t { ProductStep(t', t, q); }
  }

  lemma ProductStep(x: nat, y: nat, q: nat)
    requires x < y
    ensures x * q + q <= y * q
  {
    assert (x + 1) * q <= y * q;
  }

  lemma {:induction false} TimesMonotone(q: nat, r: nat, n: nat)
    requires q <= r
    ensures Times(q, n) <= Times(r, n)
  {
    if q < r { TimesMonotone(q, r - 1, n); }
  }

  lemma {:induction false} InSomeRound(i: nat, q: nat, n: nat) returns (r: nat, k: nat)
    requires i < Times(q, n)
    ensures r < q && k < n && i == Times(r, n) + k
  {
    if i < Times(q - 1, n) {
      r, k := InSomeRound(i, q - 1, n);
    } else {
      r, k := q - 1, i - Times(q - 1, n);
    }
  }

  lemma AgedOnce<X>(inner: seq<X>, g: X -> X, q: nat)
    requires q > 0
    ensures Aged(Aged(inner, g, q - 1), g, 1) == Aged(inner, g, q)
  {
    forall w | 0 <= w < |inner| ensures Aged(Aged(inner, g, q - 1), g, 1)[w] == Aged(inner, g, q)[w] {
      IterateAdds(g, inner[w], q - 1, 1);
    }
  }

  /** If a round leads from each stage to the next, q rounds lead from the first to stage q. */
  lemma {:induction false} StageRun<S>(f: S -> S, stage: nat -> S, n: nat, q: nat)
    requires forall r: nat {:trigger Iterate(f, stage(r), n)} :: Iterate(f, stage(r), n) == stage(r + 1)
    ensures Iterate(f, stage(0), Times(q, n)) == stage(q)
  {
    if q > 0 {
      StageRun(f, stage, n, q - 1);
      IterateAdds(f, stage(0), Times(q - 1, n), n);
    }
  }

  function Stages<X>(c: TwoLevel<X>, g: X -> X): nat -> TwoLevel<X> {
    (q: nat) => TwoLevel(c.order, Aged(c.inner, g, q))
  }

  lemma NextStage<X>(c: TwoLevel<X>, g: X -> X, q: nat)
    requires Sound(c)
    ensures Iterate(Stepper(g), Stages(c, g)(q), |c.order|) == Stages(c, g)(q + 1)
  {
    WholeRound(TwoLevel(c.order, Aged(c.inner, g, q)), g);
    AgedOnce(c.inner, g, q + 1);
  }

  /** A whole number of rounds ages every inner state equally and restores the order. */
  lemma WholeRounds<X>(c: TwoLevel<X>, g: X -> X, q: nat)
    requires Sound(c)
    ensures Iterate(Stepper(g), c, Times(q, |c.order|)) == TwoLevel(c.order, Aged(c.inner, g, q))
  {
    var f, stage := Stepper(g), Stages(c, g);
    forall r: nat ensures Iterate(f, stage(r), |c.order|) == stage(r + 1) { NextStage(c, g, r); }
    StageRun(f, stage, |c.order|, q);
    assert stage(0) == c by { assert Aged(c.inner, g, 0) == c.inner; }
  }

  /** State d is about to step the k-th least recent inner state of c, unchanged. */
  ghost predicate AboutToStep<X>(c: TwoLevel<X>, d: TwoLevel<X>, k: nat) {
    k < |c.order| == |c.inner| &&
    var way := c.order[|c.order| - 1 - k];
    way < |c.inner| && LeastRecent(d.order) == way < |d.inner| && d.inner[way] == c.inner[way]
  }

  lemma {:induction false} StartOfRound<X>(c: TwoLevel<X>, g: X -> X, k: nat)
    requires Sound(c) && k < |c.order|
    ensures AboutToStep(c, Iterate(Stepper(g), c, k), k)
  {
    WithinRound(c, g, k);
    OrderRun(c, g, k);
    NextLeast(c.order, k);
    RecentGrows(c.order, |c.order|, k + 1);
  }

  /** Step k of round q takes the k-th least recent inner state, which has stepped q times. */
  lemma InRound<X>(c: TwoLevel<X>, g: X -> X, q: nat, k: nat)
    requires Sound(c) && k < |c.order|
    ensures AboutToStep(TwoLevel(c.order, Aged(c.inner, g, q)), Iterate(Stepper(g), c, Times(q, |c.order|) + k), k)
  {
    WholeRounds(c, g, q);
    IterateAdds(Stepper(g), c, Times(q, |c.order|), k);
    StartOfRound(TwoLevel(c.order, Aged(c.inner, g, q)), g, k);
  }
}
