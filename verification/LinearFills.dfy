/**
 LRU over tree-PLRU while it fills way after way: exactly when the way that is filled next is
 replaced again by the last miss of a cycle, as the eviction test needs it.
 */
module LinearFills {
  import opened Words
  import opened Machines
  import opened Orders
  import opened Policies
  import opened LruWrapped
  import opened StartIndependence
  import opened WrappedSettling
  import opened LostLines
  import opened LruPlruStarts
  import T = PlruTrees

  // ----- The order after the fill -----

  /** The last groups that were used are in front, down to group g. */
  ghost predicate Descends(order: seq<nat>, n: nat, top: nat, g: nat) {
    IsOrder(order, n) && g <= top < n && forall j :: 0 <= j <= top - g ==> order[j] == top - j
  }

  lemma DescendsSame(order: seq<nat>, n: nat, top: nat, g: nat)
    requires Descends(order, n, top, g)
    ensures Touch(order, top) == order
  {
    PositionAt(order, n, 0);
    assert ToFront(order, 0) == order;
  }

  lemma DescendsNext(order: seq<nat>, n: nat, top: nat, g: nat)
    requires Descends(order, n, top, g) && top + 1 < n
    ensures Descends(Touch(order, top + 1), n, top + 1, g)
  {
    var i, r := Position(order, top + 1), Touch(order, top + 1);
    TouchKeepsOrder(order, n, top + 1);
    assert i > top - g;
    forall j | 0 <= j <= top + 1 - g ensures r[j] == top + 1 - j {
      if j > 0 { assert r[j] == order[j - 1]; }
    }
  }

  lemma DescendsStart(order: seq<nat>, n: nat, g: nat)
    requires IsOrder(order, n) && g < n
    ensures Descends(Touch(order, g), n, g, g)
  {
    TouchKeepsOrder(order, n, g);
  }

  // ----- The nested state after the fill -----

  /** The state after hits on the nested ways from a up to b. */
  function HitRange<X>(inner: Machine<X>, x: X, a: nat, b: nat): X
    decreases b
  {
    if b <= a then x else inner.hit(HitRange(inner, x, a, b - 1), b - 1)
  }

  /** The composite after some fills that started at way d: group g = d / w got its ways first. */
  ghost predicate Filling<X>(
    n: nat, inner: Machine<X>, inv: X -> bool, s: Wrapped<X>, d: nat, x: X, last: nat)
  {
    var w := inner.ways;
    && Good(s.parts, n, inv) && w > 0 && d <= last < Times(w, n) && s.dirty == last + 1 && Group(last, w) < n
    && Descends(s.parts.order, n, Group(last, w), Group(d, w))
    && s.parts.inner[Group(d, w)] == HitRange(inner, x, Slot(d, w), RangeEnd(d, last, w))
  }

  lemma NextWay(last: nat, w: nat)
    requires w > 0
    ensures if Slot(last, w) + 1 < w then Group(last + 1, w) == Group(last, w) && Slot(last + 1, w) == Slot(last, w) + 1
            else Group(last + 1, w) == Group(last, w) + 1 && Slot(last + 1, w) == 0
  {
    GroupSplits(last, w);
    var g, v := Group(last, w), Slot(last, w);
    if v + 1 < w {
      GroupOfNumber(g, v + 1, w);
    } else {
      GroupOfNumber(g + 1, 0, w);
    }
  }

  lemma OrderStep(order: seq<nat>, n: nat, d: nat, last: nat, w: nat)
    requires w > 0 && Group(last + 1, w) < n && Descends(order, n, Group(last, w), Group(d, w))
    ensures Descends(Touch(order, Group(last + 1, w)), n, Group(last + 1, w), Group(d, w))
  {
    NextWay(last, w);
    if Group(last + 1, w) == Group(last, w) {
      DescendsSame(order, n, Group(last, w), Group(d, w));
    } else {
      DescendsNext(order, n, Group(last, w), Group(d, w));
    }
  }

  /** The end of the range of nested ways of group d / w that were used up to the last way. */
  function RangeEnd(d: nat, last: nat, w: nat): nat {
    if Group(last, w) == Group(d, w) then Slot(last, w) + 1 else w
  }

  lemma RangeStep<X>(inner: Machine<X>, x: X, c: seq<X>, d: nat, last: nat)
    requires inner.ways > 0 && d <= last && Group(d, inner.ways) <= Group(last, inner.ways)
    requires Group(d, inner.ways) < |c| && Group(last + 1, inner.ways) < |c|
    requires c[Group(d, inner.ways)] == HitRange(inner, x, Slot(d, inner.ways), RangeEnd(d, last, inner.ways))
    ensures var w, g' := inner.ways, Group(last + 1, inner.ways);
            c[g' := inner.hit(c[g'], Slot(last + 1, w))][Group(d, w)]
              == HitRange(inner, x, Slot(d, w), RangeEnd(d, last + 1, w))
  {
    var w := inner.ways;
    NextWay(last, w);
    GroupSplits(d, w);
    GroupSplits(last, w);
    if Group(last + 1, w) == Group(d, w) { assert Slot(d, w) <= Slot(last, w); }
  }

  /** While not all ways are filled, a miss uses the next one. */
  ghost predicate FillsNext<X(!new)>(n: nat, inner: Machine<X>, inv: X -> bool, miss: Wrapped<X> -> Wrapped<X>) {
    forall s: Wrapped<X> {:trigger FillsNextAt(n, inner, inv, miss, s)} ::
      Good(s.parts, n, inv) && s.dirty < Times(inner.ways, n) ==> FillsNextAt(n, inner, inv, miss, s)
  }

  ghost predicate FillsNextAt<X>(
    n: nat, inner: Machine<X>, inv: X -> bool, miss: Wrapped<X> -> Wrapped<X>, s: Wrapped<X>)
  {
    && Group(s.dirty, inner.ways) < n == |s.parts.inner| && miss(s) == Used(inner, s.parts, s.dirty, s.dirty + 1)
    && Good(miss(s).parts, n, inv)
  }

  lemma FillingStep<X(!new)>(
    n: nat, inner: Machine<X>, inv: X -> bool, miss: Wrapped<X> -> Wrapped<X>, s: Wrapped<X>, d: nat, x: X, last: nat)
    requires FillsNext(n, inner, inv, miss) && Filling(n, inner, inv, s, d, x, last) && last + 1 < Times(inner.ways, n)
    ensures Filling(n, inner, inv, miss(s), d, x, last + 1)
  {
    assert FillsNextAt(n, inner, inv, miss, s);
    OrderStep(s.parts.order, n, d, last, inner.ways);
    RangeStep(inner, x, s.parts.inner, d, last);
    FillingAssembled(n, inner, inv, s.parts, d, x, last + 1);
  }

  lemma FillingAssembled<X>(n: nat, inner: Machine<X>, inv: X -> bool, c: TwoLevel<X>, d: nat, x: X, last: nat)
    requires inner.ways > 0 && d <= last < Times(inner.ways, n) && Group(last, inner.ways) < |c.inner| == n
    requires Good(Used(inner, c, last, last + 1).parts, n, inv)
    requires Descends(Touch(c.order, Group(last, inner.ways)), n, Group(last, inner.ways), Group(d, inner.ways))
    requires var w, g' := inner.ways, Group(last, inner.ways);
             c.inner[g' := inner.hit(c.inner[g'], Slot(last, w))][Group(d, w)]
               == HitRange(inner, x, Slot(d, w), RangeEnd(d, last, w))
    ensures Filling(n, inner, inv, Used(inner, c, last, last + 1), d, x, last)
  {}

  ghost function FillStage<X>(n: nat, inner: Machine<X>, inv: X -> bool, d: nat, x: X): (nat, Wrapped<X>) -> bool {
    (k: nat, s: Wrapped<X>) => Filling(n, inner, inv, s, d, x, d + k)
  }

  lemma FillingStarts<X(!new)>(
    n: nat, inner: Machine<X>, inv: X -> bool, miss: Wrapped<X> -> Wrapped<X>, s: Wrapped<X>) returns (x: X)
    requires FillsNext(n, inner, inv, miss) && Good(s.parts, n, inv) && s.dirty < Times(inner.ways, n)
    ensures inv(x) && FillStage(n, inner, inv, s.dirty, x)(0, miss(s))
  {
    var g, v := Group(s.dirty, inner.ways), Slot(s.dirty, inner.ways);
    GroupBound(s.dirty, n, inner.ways);
    assert FillsNextAt(n, inner, inv, miss, s);
    DescendsStart(s.parts.order, n, g);
    x := s.parts.inner[g];
    RangeOfOne(inner, x, v);
    FillingAssembled(n, inner, inv, s.parts, s.dirty, x, s.dirty);
  }

  lemma RangeOfOne<X>(inner: Machine<X>, x: X, v: nat)
    ensures HitRange(inner, x, v, v + 1) == inner.hit(x, v)
  {
    assert HitRange(inner, x, v, v) == x;
  }

  lemma FillStages<X(!new)>(
    n: nat, inner: Machine<X>, inv: X -> bool, miss: Wrapped<X> -> Wrapped<X>, d: nat, x: X, k: nat)
    requires FillsNext(n, inner, inv, miss) && d + k < Times(inner.ways, n)
    ensures Leads(miss, FillStage(n, inner, inv, d, x), k)
  {
    var f, stage := miss, FillStage(n, inner, inv, d, x);
    forall i: nat, q | i < k && stage(i, q) ensures LeadsAt(f, stage, i, q) {
      FillStageStep(n, inner, inv, miss, d, x, i, q);
    }
  }

  lemma FillStageStep<X(!new)>(
    n: nat, inner: Machine<X>, inv: X -> bool, miss: Wrapped<X> -> Wrapped<X>, d: nat, x: X, i: nat, q: Wrapped<X>)
    requires FillsNext(n, inner, inv, miss) && FillStage(n, inner, inv, d, x)(i, q) && d + i + 1 < Times(inner.ways, n)
    ensures FillStage(n, inner, inv, d, x)(i + 1, miss(q))
  {
    FillingStep(n, inner, inv, miss, q, d, x, d + i);
  }

  lemma FillingRun<X(!new)>(
    n: nat, inner: Machine<X>, inv: X -> bool, miss: Wrapped<X> -> Wrapped<X>, s: Wrapped<X>, d: nat, x: X, k: nat)
    requires FillsNext(n, inner, inv, miss) && FillStage(n, inner, inv, d, x)(0, s) && d + k < Times(inner.ways, n)
    ensures FillStage(n, inner, inv, d, x)(k, Iterate(miss, s, k))
  {
    FillStages(n, inner, inv, miss, d, x, k);
    StageAfter(miss, FillStage(n, inner, inv, d, x), s, k);
  }

  /** A filled state: the place of the group of d, and the hits that its nested policy saw. */
  ghost predicate FilledSince<X>(n: nat, inner: Machine<X>, inv: X -> bool, d: nat, x: X, f: Wrapped<X>) {
    var w, g := inner.ways, Group(d, inner.ways);
    && g < n && Good(f.parts, n, inv) && f.dirty == Times(w, n)
    && f.parts.order[n - 1 - g] == g && f.parts.inner[g] == HitRange(inner, x, Slot(d, w), w)
  }

  lemma FillingDone<X>(n: nat, inner: Machine<X>, inv: X -> bool, d: nat, x: X, f: Wrapped<X>)
    requires d < Times(inner.ways, n) && Filling(n, inner, inv, f, d, x, Times(inner.ways, n) - 1)
    ensures FilledSince(n, inner, inv, d, x, f)
  {
    LastWay(n, inner.ways);
  }

  lemma AfterFirst<X(!new)>(
    n: nat, inner: Machine<X>, inv: X -> bool, miss: Wrapped<X> -> Wrapped<X>, s: Wrapped<X>, d: nat, x: X)
    requires FillsNext(n, inner, inv, miss) && FillStage(n, inner, inv, d, x)(0, s) && d < Times(inner.ways, n)
    ensures FilledSince(n, inner, inv, d, x, Iterate(miss, s, Times(inner.ways, n) - 1 - d))
  {
    var k := Times(inner.ways, n) - 1 - d;
    FillingRun(n, inner, inv, miss, s, d, x, k);
    StageDone(n, inner, inv, d, x, Iterate(miss, s, k), k);
  }

  lemma StageDone<X>(n: nat, inner: Machine<X>, inv: X -> bool, d: nat, x: X, f: Wrapped<X>, k: nat)
    requires FillStage(n, inner, inv, d, x)(k, f) && d + k + 1 == Times(inner.ways, n)
    ensures FilledSince(n, inner, inv, d, x, f)
  {
    FillingDone(n, inner, inv, d, x, f);
  }

  lemma AfterFill<X(!new)>(n: nat, inner: Machine<X>, inv: X -> bool, s: Wrapped<X>) returns (x: X)
    requires Keeps(inner, inv) && Good(s.parts, n, inv) && s.dirty < Times(inner.ways, n)
    ensures inv(x)
    ensures FilledSince(n, inner, inv, s.dirty, x, Iterate(WrappedMiss(n, inner), s, Times(inner.ways, n) - s.dirty))
  {
    var miss := WrappedMiss(n, inner);
    forall q: Wrapped<X> | Good(q.parts, n, inv) && q.dirty < Times(inner.ways, n)
      ensures FillsNextAt(n, inner, inv, miss, q)
    {
      FillIs(n, inner, inv, q);
    }
    x := AfterFillBy(n, inner, inv, miss, s);
  }

  lemma AfterFillBy<X(!new)>(
    n: nat, inner: Machine<X>, inv: X -> bool, miss: Wrapped<X> -> Wrapped<X>, s: Wrapped<X>) returns (x: X)
    requires FillsNext(n, inner, inv, miss) && Good(s.parts, n, inv) && s.dirty < Times(inner.ways, n)
    ensures inv(x) && FilledSince(n, inner, inv, s.dirty, x, Iterate(miss, s, Times(inner.ways, n) - s.dirty))
  {
    x := FillingStarts(n, inner, inv, miss, s);
    AfterFirst(n, inner, inv, miss, miss(s), s.dirty, x);
    IterateFirst(miss, s, Times(inner.ways, n) - 1 - s.dirty);
  }

  lemma LastWay(n: nat, w: nat)
    requires Times(w, n) > 0
    ensures w > 0 && n > 0 && Group(Times(w, n) - 1, w) == n - 1 && Slot(Times(w, n) - 1, w) == w - 1
  {
    GroupBound(Times(w, n) - 1, n, w);
    TimesCommutes(w, n);
    assert Times(n, w) == Times(n - 1, w) + w;
    GroupOfNumber(n - 1, w - 1, w);
  }

  // ----- The turn of the way -----

  /** The number of a path read backwards. */
  function Backwards(path: T.Path): nat {
    if path == [] then 0 else 2 * Backwards(path[1..]) + if path[0] then 1 else 0
  }

  function TreeRange(t: T.Tree, h: nat, a: nat, b: nat): (r: T.Tree)
    requires T.Perfect(t, h)
    ensures T.Perfect(r, h)
    decreases b
  {
    if b <= a then t else T.Hit(TreeRange(t, h, a, b - 1), Bits(b - 1, 0, h))
  }

  lemma {:induction false} RangeIsTreeRange(t: T.Tree, h: nat, a: nat, b: nat)
    requires T.Perfect(t, h)
    ensures HitRange(PlruMachine(h), t, a, b) == TreeRange(t, h, a, b)
    decreases b
  {
    if a < b { RangeIsTreeRange(t, h, a, b - 1); }
  }

  function Upper(x: nat, half: nat): nat { if x < half then 0 else x - half }
  function Lower(x: nat, half: nat): nat { if x < half then x else half }

  lemma BitsFront(x: nat, h: nat)
    requires h > 0 && x < Pow2(h)
    ensures var half := Pow2(h - 1);
            && Bits(x, 0, h)[0] == (x >= half)
            && Bits(x, 0, h)[1..] == Bits(if x < half then x else x - half, 0, h - 1)
  {
    var p, half := Bits(x, 0, h), Pow2(h - 1);
    ValueOfWay(x, h);
    ValueFront(p);
    ValueBound(p[1..]);
    var y := if x < half then x else x - half;
    BitsOfValue(p[1..]);
    assert Value(p[1..]) == y;
  }

  /** Hits on a range of leaves, seen by the two halves of the tree. */
  lemma {:induction false} RangeSplits(t: T.Tree, h: nat, a: nat, b: nat)
    requires h > 0 && T.Perfect(t, h) && b <= Pow2(h)
    ensures var r, half := TreeRange(t, h, a, b), Pow2(h - 1);
            && r.left == TreeRange(t.left, h - 1, Lower(a, half), Lower(b, half))
            && r.right == TreeRange(t.right, h - 1, Upper(a, half), Upper(b, half))
            && (a < b ==> r.last == (b - 1 >= half))
    decreases b
  {
    if a < b {
      RangeSplits(t, h, a, b - 1);
      BitsFront(b - 1, h);
    }
  }

  /** After hits from a leaf to the last one, the leaf's turn is its number read backwards. */
  lemma {:induction false} TurnAfterRange(t: T.Tree, h: nat, v: nat)
    requires T.Perfect(t, h) && v < Pow2(h)
    ensures T.Turn(TreeRange(t, h, v, Pow2(h)), Bits(v, 0, h)) == Backwards(Bits(v, 0, h))
    decreases h
  {
    if h > 0 {
      var half := Pow2(h - 1);
      RangeSplits(t, h, v, Pow2(h));
      BitsFront(v, h);
      if v < half { TurnAfterRange(t.left, h - 1, v); } else { TurnAfterRange(t.right, h - 1, v - half); }
    }
  }

  // ----- The miss that replaces the way again, for any nested policy with fixed turns -----

  /** After hits from nested way v to the last one, v is the victim of miss q. */
  ghost predicate TurnsAt<X>(inner: Machine<X>, x: X, v: nat, q: nat) {
    q < inner.ways && NthVictim(inner, HitRange(inner, x, v, inner.ways), q) == v
  }

  /** Whatever the nested state was, after those hits way v has the given turn. */
  ghost predicate FixedTurns<X(!new)>(inner: Machine<X>, inv: X -> bool, turn: nat -> nat) {
    forall x, v: nat {:trigger TurnsAt(inner, x, v, turn(v))} ::
      inv(x) && v < inner.ways ==> TurnsAt(inner, x, v, turn(v))
  }

  /** In a filled state the k-th least recent group g takes its q-th victim at place q n + k. */
  lemma PlaceInRounds<X>(inner: Machine<X>, c: TwoLevel<X>, q: nat, k: nat, g: nat, v: nat)
    requires Sound(c) && k < |c.order| && c.order[|c.order| - 1 - k] == g && q < inner.ways
    requires g < |c.inner| && NthVictim(inner, c.inner[g], q) == v
    ensures FilledNth(c, inner, Times(q, |c.order|) + k) == Times(g, inner.ways) + v
  {
    RoundVictim(c, inner, q, k);
    RoundNameIs(c, inner, q, k, g, v);
  }

  lemma RoundNameIs<X>(c: TwoLevel<X>, inner: Machine<X>, q: nat, k: nat, g: nat, v: nat)
    requires Sound(c) && k < |c.order| && c.order[|c.order| - 1 - k] == g
    requires g < |c.inner| && NthVictim(inner, c.inner[g], q) == v
    ensures RoundName(c, inner, q, k) == Times(g, inner.ways) + v
  {}

  lemma PlaceBound(q: nat, g: nat, w: nat, n: nat)
    requires q < w && g < n
    ensures Times(q, n) + g < Times(w, n)
  {
    TimesMonotone(q + 1, w, n);
  }

  lemma {:induction false} PlaceOfTurn<X>(
    n: nat, inner: Machine<X>, inv: X -> bool, d: nat, x: X, f: Wrapped<X>, q: nat)
    requires inner.ways > 0 && FilledSince(n, inner, inv, d, x, f) && TurnsAt(inner, x, Slot(d, inner.ways), q)
    ensures FilledNth(f.parts, inner, Times(q, n) + Group(d, inner.ways)) == d
  {
    GroupSplits(d, inner.ways);
    PlaceInRounds(inner, f.parts, q, Group(d, inner.ways), Group(d, inner.ways), Slot(d, inner.ways));
  }

  /** A policy that fills in order: its victims up to the full level, and the level then. */
  lemma {:induction false} FillVictims<S(!new)>(m: Machine<S>, inv: S -> bool, level: S -> nat, s: S, k: nat)
    requires Keeps(m, inv) && FillsInOrder(m, inv, level) && inv(s) && level(s) + k <= m.ways
    ensures inv(Iterate(m.miss, s, k)) && level(Iterate(m.miss, s, k)) == level(s) + k
    ensures level(s) + k < m.ways ==> NthVictim(m, s, k) == level(s) + k
  {
    if k > 0 {
      FillVictims(m, inv, level, s, k - 1);
      var q := Iterate(m.miss, s, k - 1);
      assert FillsInOrderAt(m, level, q) && KeepsAt(m, inv, q);
      LastStep(m.miss, s, k - 1);
    }
    if level(s) + k < m.ways { assert FillsInOrderAt(m, level, Iterate(m.miss, s, k)); }
  }

  /** Within a cycle from f, way d is the victim at the given place and nowhere else. */
  ghost predicate OnlyAt<S>(m: Machine<S>, f: S, d: nat, place: nat) {
    place < m.ways && forall i: nat :: i < m.ways ==> (NthVictim(m, f, i) == d <==> i == place)
  }

  /** The way of level d is replaced again at its place after the fill, wherever that is. */
  lemma ReplacedByPlace<S(!new)>(m: Machine<S>, inv: S -> bool, level: S -> nat, s: S, d: nat, place: nat)
    requires Keeps(m, inv) && FillsInOrder(m, inv, level) && inv(s) && level(s) == d < m.ways
    requires OnlyAt(m, Iterate(m.miss, s, m.ways - d), d, place)
    ensures ReplacedLast(m, s) <==> place == d
  {
    var f, rest := Iterate(m.miss, s, m.ways - d), m.ways - d;
    FillVictims(m, inv, level, s, 0);
    forall k: nat | k < m.ways ensures NthVictim(m, m.miss(s), k) == d <==> k + 1 == rest + place {
      IterateFirst(m.miss, s, k);
      if k + 1 < rest {
        FillVictims(m, inv, level, s, k + 1);
      } else {
        IterateAdds(m.miss, s, rest, k + 1 - rest);
        assert NthVictim(m, f, k + 1 - rest) == d <==> k + 1 - rest == place;
      }
    }
    if ReplacedLast(m, s) { assert NthVictim(m, m.miss(s), m.ways - 1) == d; }
  }

  /** In the filled state a way is the victim at its place and nowhere else within a cycle. */
  lemma OnlyPlace<X(!new)>(n: nat, inner: Machine<X>, inv: X -> bool, f: Wrapped<X>, d: nat, place: nat, i: nat)
    requires n > 0 && Good(f.parts, n, inv) && f.dirty == Times(inner.ways, n)
    requires forall x :: inv(x) ==> EachOnce(inner, x)
    requires place < Times(inner.ways, n) && i < Times(inner.ways, n) && FilledNth(f.parts, inner, place) == d
    ensures NthVictim(WrappedMachine(n, inner), f, i) == d <==> i == place
  {
    FilledVictim(n, inner, f, i);
    if i < place { FilledDiffers(f.parts, inner, i, place); }
    if place < i { FilledDiffers(f.parts, inner, place, i); }
  }

  /** The place of way d among the misses after the fill, if nested way v has the given turn then. */
  function Place(n: nat, w: nat, turn: nat -> nat, d: nat): nat {
    Times(turn(Slot(d, w)), n) + Group(d, w)
  }

  lemma FillingPlace<X(!new)>(n: nat, inner: Machine<X>, inv: X -> bool, turn: nat -> nat, s: Wrapped<X>)
    requires Keeps(inner, inv) && WrappedOf(n, inner, inv)(s) && s.dirty < Times(inner.ways, n)
    requires (forall x :: inv(x) ==> EachOnce(inner, x)) && FixedTurns(inner, inv, turn)
    ensures OnlyAt(WrappedMachine(n, inner), Iterate(WrappedMiss(n, inner), s, Times(inner.ways, n) - s.dirty),
                   s.dirty, Place(n, inner.ways, turn, s.dirty))
  {
    var x := AfterFill(n, inner, inv, s);
    GroupBound(s.dirty, n, inner.ways);
    assert TurnsAt(inner, x, Slot(s.dirty, inner.ways), turn(Slot(s.dirty, inner.ways)));
    PlaceKnown(n, inner, inv, turn, s.dirty, x, Iterate(WrappedMiss(n, inner), s, Times(inner.ways, n) - s.dirty));
  }

  lemma {:induction false} FillingReplacedLast<X(!new)>(
    n: nat, inner: Machine<X>, inv: X -> bool, turn: nat -> nat, s: Wrapped<X>)
    requires Keeps(inner, inv) && WrappedOf(n, inner, inv)(s) && s.dirty < Times(inner.ways, n)
    requires forall x :: inv(x) ==> EachOnce(inner, x)
    requires FixedTurns(inner, inv, turn)
    ensures ReplacedLast(WrappedMachine(n, inner), s) <==> Place(n, inner.ways, turn, s.dirty) == s.dirty
  {
    var m := WrappedMachine(n, inner);
    GroupBound(s.dirty, n, inner.ways);
    FillingPlace(n, inner, inv, turn, s);
    WrappedKeeps(n, inner, inv);
    WrappedFillsInOrder(n, inner, inv);
    ReplacedByPlace(m, WrappedOf(n, inner, inv), Level(), s, s.dirty, Place(n, inner.ways, turn, s.dirty));
  }

  lemma {:induction false} PlaceKnown<X(!new)>(
    n: nat, inner: Machine<X>, inv: X -> bool, turn: nat -> nat, d: nat, x: X, f: Wrapped<X>)
    requires d < Times(inner.ways, n) && FilledSince(n, inner, inv, d, x, f)
    requires forall y :: inv(y) ==> EachOnce(inner, y)
    requires TurnsAt(inner, x, Slot(d, inner.ways), turn(Slot(d, inner.ways)))
    ensures OnlyAt(WrappedMachine(n, inner), f, d, Place(n, inner.ways, turn, d))
  {
    var m, place, v := WrappedMachine(n, inner), Place(n, inner.ways, turn, d), Slot(d, inner.ways);
    GroupBound(d, n, inner.ways);
    PlaceBound(turn(v), Group(d, inner.ways), inner.ways, n);
    PlaceOfTurn(n, inner, inv, d, x, f, turn(v));
    forall i: nat | i < m.ways ensures NthVictim(m, f, i) == d <==> i == place {
      OnlyPlace(n, inner, inv, f, d, place, i);
    }
  }

  // ----- Tree-PLRU -----

  lemma {:induction false} BackwardsBound(path: T.Path)
    ensures Backwards(path) < Pow2(|path|)
  {
    if path != [] { BackwardsBound(path[1..]); }
  }

  lemma TurnNumber(h: nat, x: T.Tree, v: nat)
    requires T.Perfect(x, h) && v < Pow2(h)
    ensures TurnsAt(PlruMachine(h), x, v, Backwards(Bits(v, 0, h)))
  {
    var path := Bits(v, 0, h);
    RangeIsTreeRange(x, h, v, Pow2(h));
    var t := TreeRange(x, h, v, Pow2(h));
    TurnAfterRange(x, h, v);
    T.EvictedAtTurn(t, path, T.Turn(t, path));
    PlruVictim(t, h, T.Turn(t, path));
    ValueOfWay(v, h);
  }

  /** The number of a nested way read backwards. */
  function Reversed(h: nat): nat -> nat { (v: nat) => Backwards(Bits(v, 0, h)) }

  /**
   While LRU over tree-PLRU fills, the way that it fills next, number v of group g, is replaced again
   by exactly the last miss of a cycle if and only if Reversed(v) * groups + g is its number.
   */
  lemma {:induction false} LruPlruReplacedLast(n: nat, h: nat, s: Wrapped<T.Tree>)
    requires LruPlruOf(n, h)(s) && s.dirty < Times(Pow2(h), n)
    ensures ReplacedLast(LruPlruMachine(n, h), s) <==> Place(n, Pow2(h), Reversed(h), s.dirty) == s.dirty
  {
    var inner, inv := PlruMachine(h), PerfectOf(h);
    PlruKeeps(h);
    forall t | inv(t) ensures EachOnce(inner, t) { PlruCycles(h, t); }
    forall t, v: nat | inv(t) && v < inner.ways ensures TurnsAt(inner, t, v, Reversed(h)(v)) { TurnNumber(h, t, v); }
    FillingReplacedLast(n, inner, inv, Reversed(h), s);
  }

  lemma {:induction false} ReversedZero(h: nat)
    ensures Reversed(h)(0) == 0
  {
    var path := Bits(0, 0, h);
    if h > 0 {
      BitsFront(0, h);
      ReversedZero(h - 1);
    }
  }

  /** A composite that has filled nothing yet meets the condition ... */
  lemma UnfilledReplacedLast(n: nat, h: nat, s: Wrapped<T.Tree>)
    requires n > 0 && LruPlruOf(n, h)(s) && s.dirty == 0
    ensures ReplacedLast(LruPlruMachine(n, h), s)
  {
    NumberBound(0, 0, n, Pow2(h));
    ReversedZero(h);
    LruPlruReplacedLast(n, h, s);
  }

  lemma ReversedOne(h: nat)
    requires h > 0
    ensures Reversed(h)(1) == Pow2(h - 1)
    decreases h
  {
    if h == 1 {
      BitsFront(1, 1);
      assert Backwards(Bits(1, 0, 1)) == 2 * Backwards(Bits(1, 0, 1)[1..]) + 1;
      assert Bits(1, 0, 1)[1..] == [];
    } else {
      assert Pow2(h - 1) == 2 * Pow2(h - 2);
      BitsFront(1, h);
      ReversedOne(h - 1);
    }
  }

  /** ... and one with a single way filled does not, if it has two groups or more. */
  lemma OneFilledNotReplacedLast(n: nat, h: nat, s: Wrapped<T.Tree>)
    requires n > 1 && h > 0 && LruPlruOf(n, h)(s) && s.dirty == 1
    ensures !ReplacedLast(LruPlruMachine(n, h), s)
  {
    assert Pow2(h) == 2 * Pow2(h - 1);
    NumberBound(0, 1, n, Pow2(h));
    ReversedOne(h);
    LruPlruReplacedLast(n, h, s);
    GroupOfNumber(0, 1, Pow2(h));
    TimesIsProduct(Pow2(h - 1), n);
    assert Times(Pow2(h - 1), n) >= n by { TimesMonotone(1, Pow2(h - 1), n); }
  }
}
