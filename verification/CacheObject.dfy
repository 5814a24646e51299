/**
 The set-associative cache as an object: the lines of all sets in one vector, the replacement
 states in another. Its operations are proved against those of the cache as a value.
 */
module CacheObjects {
  import opened Collections
  import opened Machines
  import opened Orders
  import opened LruWrapped
  import opened CacheSets
  import opened Hierarchies
  import opened SetAssociativeCaches
  import opened PolicyObjects

  /** The lines of set i, with w lines per set. */
  function Row(data: seq<Line>, w: nat, i: nat): (r: seq<Line>)
    requires Times(i, w) + w <= |data|
    ensures |r| == w
  {
    data[Times(i, w)..Times(i, w) + w]
  }

  /** Where the lines of set i start. */
  method RowStart(i: nat, w: nat) returns (start: nat)
    ensures start == Times(i, w)
  {
    TimesIsProduct(i, w);
    start := i * w;
  }

  lemma RowInside(n: nat, w: nat, i: nat)
    requires i < n
    ensures Times(i, w) + w <= Times(n, w)
  {
    TimesMonotone(i + 1, n, w);
  }

  function SetAt<S>(replacement: seq<S>, data: seq<Line>, w: nat, i: nat): CacheSet<S>
    requires i < |replacement| && |data| == Times(|replacement|, w)
  {
    RowInside(|replacement|, w, i);
    CacheSet(replacement[i], Row(data, w, i))
  }

  /** The sets that the two vectors describe. */
  function SetsOf<S>(replacement: seq<S>, data: seq<Line>, w: nat): (r: seq<CacheSet<S>>)
    requires |data| == Times(|replacement|, w)
    ensures |r| == |replacement| && forall i :: 0 <= i < |r| ==> r[i] == SetAt(replacement, data, w, i)
  {
    seq(|replacement|, i requires 0 <= i < |replacement| => SetAt(replacement, data, w, i))
  }

  lemma SliceWrite(data: seq<Line>, b: nat, w: nat, v: nat, line: Line)
    requires b + w <= |data| && v < w
    ensures data[b + v := line][b..b + w] == data[b..b + w][v := line]
  {}

  lemma SliceKept(data: seq<Line>, b: nat, w: nat, at: nat, line: Line)
    requires b + w <= |data| && at < |data| && (at < b || b + w <= at)
    ensures data[at := line][b..b + w] == data[b..b + w]
  {}

  lemma RowsApart(n: nat, w: nat, i: nat, v: nat, k: nat)
    requires i < n && v < w && k < n
    ensures Times(i, w) + v < Times(n, w) && Times(k, w) + w <= Times(n, w)
    ensures k != i ==> Times(i, w) + v < Times(k, w) || Times(k, w) + w <= Times(i, w) + v
  {
    RowInside(n, w, i);
    RowInside(n, w, k);
    if k < i { RowInside(i, w, k); }
    if i < k { RowInside(k, w, i); }
  }

  /** A line written at set i, way v. */
  lemma {:induction false} RowWrite(data: seq<Line>, n: nat, w: nat, i: nat, v: nat, line: Line, k: nat)
    requires |data| == Times(n, w) && i < n && v < w && k < n
    ensures Times(i, w) + v < |data| && Times(k, w) + w <= |data|
    ensures Row(data[Times(i, w) + v := line], w, k) == if k == i then Row(data, w, k)[v := line] else Row(data, w, k)
  {
    RowsApart(n, w, i, v, k);
    if k == i {
      SliceWrite(data, Times(k, w), w, v, line);
    } else {
      SliceKept(data, Times(k, w), w, Times(i, w) + v, line);
    }
  }

  /** The sets after a fill: a new replacement state and a new line. */
  lemma {:induction false} FillWrite<S>(replacement: seq<S>, data: seq<Line>, w: nat, i: nat, p: S, v: nat, line: Line)
    requires |data| == Times(|replacement|, w) && i < |replacement| && v < w
    ensures Times(i, w) + v < |data|
    ensures SetAt(replacement, data, w, i).lines[v] == data[Times(i, w) + v]
    ensures var lines := SetAt(replacement, data, w, i).lines;
            var before, after := SetsOf(replacement, data, w),
                                 SetsOf(replacement[i := p], data[Times(i, w) + v := line], w);
            after == before[i := CacheSet(p, lines[v := line])]
  {
    RowInside(|replacement|, w, i);
    PolicyWrite(replacement, data, w, i, p);
    LineWrite(replacement[i := p], data, w, i, v, line);
  }

  lemma PolicyWrite<S>(replacement: seq<S>, data: seq<Line>, w: nat, i: nat, p: S)
    requires |data| == Times(|replacement|, w) && i < |replacement|
    ensures SetsOf(replacement[i := p], data, w)
         == SetsOf(replacement, data, w)[i := CacheSet(p, SetAt(replacement, data, w, i).lines)]
  {}

  lemma LineWrite<S>(replacement: seq<S>, data: seq<Line>, w: nat, i: nat, v: nat, line: Line)
    requires |data| == Times(|replacement|, w) && i < |replacement| && v < w
    ensures Times(i, w) + v < |data|
    ensures var s := SetAt(replacement, data, w, i);
            var before, after := SetsOf(replacement, data, w), SetsOf(replacement, data[Times(i, w) + v := line], w);
            after == before[i := CacheSet(s.policy, s.lines[v := line])]
  {
    RowWrite(data, |replacement|, w, i, v, line, i);
    var data' := data[Times(i, w) + v := line];
    forall k | 0 <= k < |replacement|
      ensures SetAt(replacement, data', w, k).lines
           == if k == i then SetAt(replacement, data, w, k).lines[v := line] else SetAt(replacement, data, w, k).lines
    {
      RowWrite(data, |replacement|, w, i, v, line, k);
    }
  }

  /** The fill of an address that is not cached, as it changes the sets. */
  lemma FillResult<S(!new)>(
    machine: Machine<S>, place: nat -> nat, replacement: seq<S>, data: seq<Line>, a: nat, i: nat, v: nat)
    requires |data| == Times(|replacement|, machine.ways) && place(a) == i < |replacement|
    requires v == machine.victim(replacement[i]) < machine.ways
    requires !Lookup(Cache(machine, place, SetsOf(replacement, data, machine.ways)), a)
    ensures var c := Cache(machine, place, SetsOf(replacement, data, machine.ways));
            var at := Times(i, machine.ways) + v;
            && at < |data| && FillVictim(SetAssociative(), c, a) == data[at]
            && FillCache(SetAssociative(), c, a)
               == c.(sets := SetsOf(replacement[i := machine.miss(replacement[i])], data[at := Tag(a)], machine.ways))
  {
    FillWrite(replacement, data, machine.ways, i, machine.miss(replacement[i]), v, Tag(a));
    var s := SetAt(replacement, data, machine.ways, i);
    assert Access(machine, s, a) == CacheSet(machine.miss(s.policy), s.lines[v := Tag(a)]);
  }

  class SetAssociativeCache<S(!new)> {
    const machine: Machine<S>
    const place: nat -> nat
    var replacement: seq<S>
    var data: seq<Line>

    ghost predicate Valid() reads this {
      && machine.ways > 0 && |data| == Times(|replacement|, machine.ways)
      && forall a: nat :: place(a) < |replacement|
    }

    ghost function Contents(): (c: Cache<S>)
      requires Valid()
      reads this
    {
      Cache(machine, place, SetsOf(replacement, data, machine.ways))
    }

    constructor (machine: Machine<S>, place: nat -> nat, sets: nat, start: S)
      requires machine.ways > 0 && forall a: nat :: place(a) < sets
      ensures Valid() && |Contents().sets| == sets && Contents().machine == machine && Contents().place == place
      ensures forall i :: 0 <= i < sets ==> Contents().sets[i] == Fresh(machine, start)
    {
      this.machine, this.place := machine, place;
      replacement := seq(sets, i => start);
      TimesIsProduct(sets, machine.ways);
      data := EmptyLines(sets * machine.ways);
      new;
      forall i | 0 <= i < sets ensures Contents().sets[i] == Fresh(machine, start) {
        RowInside(sets, machine.ways, i);
        assert Row(data, machine.ways, i) == EmptyLines(machine.ways);
      }
    }

    /** A handle is the place of the line in the vector. */
    ghost predicate Handles(handle: nat, a: nat)
      requires Valid()
      reads this
    {
      Lookup(Contents(), a) && handle == Times(place(a), machine.ways) + FindWay(SetOf(Contents(), a).lines, a)
    }

    method FindHandle(a: nat) returns (handle: Option<nat>)
      requires Valid()
      ensures handle.Some? <==> Lookup(Contents(), a)
      ensures handle.Some? ==> Handles(handle.value, a)
    {
      var setIndex := place(a);
      var start := RowStart(setIndex, machine.ways);
      RowInside(|replacement|, machine.ways, setIndex);
      ghost var lines := SetOf(Contents(), a).lines;
      assert lines == Row(data, machine.ways, setIndex);
      var way: nat := 0;
      while way < machine.ways && data[start + way] != Tag(a)
        invariant way <= machine.ways && forall i :: 0 <= i < way ==> lines[i] != Tag(a)
      {
        assert lines[way] == data[start + way];
        way := way + 1;
      }
      if way == machine.ways { return None; }
      assert lines[way] == data[start + way];
      return Some(start + way);
    }

    /** A handle is taken apart into set and way again. */
    method Hit(handle: nat, ghost a: nat)
      requires Valid() && Handles(handle, a)
      modifies this
      ensures Valid() && Contents() == SetAssociativeCaches.Touch(old(Contents()), a)
    {
      ghost var i, v := place(a), FindWay(SetOf(Contents(), a).lines, a);
      GroupOfNumber(i, v, machine.ways);
      GroupIsQuotient(handle, machine.ways);
      var set_, way := handle / machine.ways, handle % machine.ways;
      PolicyWrite(replacement, data, machine.ways, i, machine.hit(replacement[i], v));
      replacement := replacement[set_ := machine.hit(replacement[set_], way)];
    }

    method Fill(a: nat, ghost inv: S -> bool) returns (victim: Option<nat>)
      requires Valid() && Keeps(machine, inv) && inv(replacement[place(a)])
      modifies this
      ensures Valid() && Contents() == FillCache(SetAssociative(), old(Contents()), a)
      ensures victim == match FillVictim(SetAssociative(), old(Contents()), a)
                        case Empty => None
                        case Tag(x) => Some(x)
      ensures Lookup(old(Contents()), a) ==> replacement == old(replacement) && data == old(data) && victim == None
    {
      var handle := FindHandle(a);
      if handle.Some? { return None; }
      var line := Replace(a, inv);
      return if line.Tag? then Some(line.address) else None;
    }

    /** The address takes the way of the set's victim, whose line is handed back. */
    method Replace(a: nat, ghost inv: S -> bool) returns (line: Line)
      requires Valid() && Keeps(machine, inv) && inv(replacement[place(a)]) && !Lookup(Contents(), a)
      modifies this
      ensures Valid() && Contents() == FillCache(SetAssociative(), old(Contents()), a)
      ensures line == FillVictim(SetAssociative(), old(Contents()), a)
    {
      var setIndex := place(a);
      assert KeepsAt(machine, inv, replacement[setIndex]);
      var way := machine.victim(replacement[setIndex]);
      FillResult(machine, place, replacement, data, a, setIndex, way);
      var start := RowStart(setIndex, machine.ways);
      line := data[start + way];
      replacement := replacement[setIndex := machine.miss(replacement[setIndex])];
      data := data[start + way := Tag(a)];
    }
  }
}
