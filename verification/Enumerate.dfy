/**
  The two ways the handler walks through a hyperslab: the recursive `subset`,
  which overwrites one shared position while it appends to an output vector,
  and the odometer `obtain_next_pos`. Both enumerate `Hyperslab.SelectedPos`.
*/
module Enumerate {
  import opened Arith
  import opened Common
  import opened Grid
  import opened Hyperslab

  /** A growing output vector. */
  class Vector<T> {
    var data: seq<T>

    constructor ()
      ensures data == []
    {
      data := [];
    }

    method PushBack(x: T)
      modifies this
      ensures data == old(data) + [x]
    {
      data := data + [x];
    }
  }

  // ----- recursive enumeration

  /** The part of a slab that the recursion below dimension `index` covers. */
  function Tail(s: Slab, index: nat): (t: Slab)
    requires Shaped(s, |s.start|) && index <= |s.start|
    ensures Shaped(t, |s.start| - index)
  {
    Slab(s.start[index..], s.step[index..], s.count[index..])
  }

  /** The index of the j-th element of `t` below the fixed coordinates `prefix`. */
  function IndexBelow(prefix: seq<nat>, t: Slab, dims: seq<nat>, j: nat): nat
    requires Shaped(t, |t.start|) && |prefix| + |t.start| == |dims| && j < Product(t.count)
  {
    Linear(dims, prefix + SelectedPos(t, j))
  }

  ghost predicate CoversBelow<T>(input: seq<T>, prefix: seq<nat>, t: Slab, dims: seq<nat>)
    requires Shaped(t, |t.start|) && |prefix| + |t.start| == |dims|
  {
    forall j :: 0 <= j < Product(t.count) ==> IndexBelow(prefix, t, dims, j) < |input|
  }

  function SelectBelow<T>(input: seq<T>, prefix: seq<nat>, t: Slab, dims: seq<nat>): (r: seq<T>)
    requires Shaped(t, |t.start|) && |prefix| + |t.start| == |dims|
    requires CoversBelow(input, prefix, t, dims)
    ensures |r| == Product(t.count)
    ensures forall j :: 0 <= j < Product(t.count) ==> r[j] == input[IndexBelow(prefix, t, dims, j)]
  {
    seq(Product(t.count), j requires 0 <= j < Product(t.count) => input[IndexBelow(prefix, t, dims, j)])
  }

  /** The fixed coordinates one level down, at step `k` of the loop. */
  function Fix(prefix: seq<nat>, t: Slab, k: nat): seq<nat>
    requires Shaped(t, |t.start|) && t.start != []
  {
    prefix + [t.start[0] + Times(k, t.step[0])]
  }

  /** `t1` below `prefix1` is round `k` of the loop over the first dimension of `t` below `prefix`. */
  ghost predicate Round(prefix: seq<nat>, t: Slab, dims: seq<nat>, k: nat, prefix1: seq<nat>, t1: Slab)
  {
    && Shaped(t, |t.start|) && Shaped(t1, |t1.start|) && t.start != []
    && |prefix| + |t.start| == |dims| && |prefix1| + |t1.start| == |dims|
    && k < t.count[0] && prefix1 == Fix(prefix, t, k) && t1 == Tail(t, 1)
  }

  /** Fixing the leading digit to `k` leaves the selections below it. */
  lemma PeelDigit(prefix: seq<nat>, t: Slab, dims: seq<nat>, k: nat, prefix1: seq<nat>, t1: Slab, j: nat, n: nat)
    requires Round(prefix, t, dims, k, prefix1, t1)
    requires j < Product(t1.count) && n == Times(k, Product(t1.count)) + j
    ensures n < Product(t.count)
    ensures IndexBelow(prefix, t, dims, n) == IndexBelow(prefix1, t1, dims, j)
  {
    hide Product, Times, Linear, Unrank, Place;
    UnrankRow(t.count, k, j, n);
    PlaceRow(t, k, t1, Unrank(t1.count, j));
    ConcatAssoc(prefix, [t.start[0] + Times(k, t.step[0])], SelectedPos(t1, j));
  }

  lemma PlaceRow(t: Slab, k: nat, t1: Slab, digits: seq<nat>)
    requires Shaped(t, |t.start|) && t.start != [] && t1 == Tail(t, 1) && |digits| == |t1.start|
    ensures Place(t.start, t.step, [k] + digits) == [t.start[0] + Times(k, t.step[0])] + Place(t1.start, t1.step, digits)
  {
    assert ([k] + digits)[1..] == digits;
  }

  lemma RoundFits(t: Slab, k: nat, lo: nat, p: nat)
    requires t.count != [] && k < t.count[0] && p == Product(t.count[1..]) && lo == Times(k, p)
    ensures lo + p <= Product(t.count)
  {
    TimesMonotone(k, t.count[0], p);
  }

  lemma PeelElement<T>(input: seq<T>, prefix: seq<nat>, t: Slab, dims: seq<nat>, k: nat, prefix1: seq<nat>, t1: Slab,
                       all: seq<T>, lo: nat, p: nat, j: nat)
    requires Round(prefix, t, dims, k, prefix1, t1)
    requires CoversBelow(input, prefix, t, dims) && all == SelectBelow(input, prefix, t, dims)
    requires p == Product(t1.count) && lo == Times(k, p) && j < p
    ensures IndexBelow(prefix1, t1, dims, j) < |input|
    ensures lo + j < |all| && all[lo + j] == input[IndexBelow(prefix1, t1, dims, j)]
  {
    hide Product, Times, Linear, IndexBelow, Tail, Fix, SelectBelow;
    PeelDigit(prefix, t, dims, k, prefix1, t1, j, lo + j);
  }

  /** One round of the loop contributes one contiguous run of the output. */
  lemma PeelSelection<T>(input: seq<T>, prefix: seq<nat>, t: Slab, dims: seq<nat>, k: nat, prefix1: seq<nat>, t1: Slab,
                         all: seq<T>, lo: nat, p: nat)
    requires Round(prefix, t, dims, k, prefix1, t1)
    requires CoversBelow(input, prefix, t, dims) && all == SelectBelow(input, prefix, t, dims)
    requires p == Product(t1.count) && lo == Times(k, p)
    ensures CoversBelow(input, prefix1, t1, dims)
    ensures lo + p <= |all| && all[lo..lo + p] == SelectBelow(input, prefix1, t1, dims)
  {
    RoundFits(t, k, lo, p);
    hide Product, Times, Linear, IndexBelow, Tail, Fix, SelectBelow, Shaped;
    forall j | 0 <= j < p
      ensures IndexBelow(prefix1, t1, dims, j) < |input|
      ensures all[lo + j] == input[IndexBelow(prefix1, t1, dims, j)]
    {
      PeelElement(input, prefix, t, dims, k, prefix1, t1, all, lo, p, j);
    }
    SliceIs(all, lo, p, SelectBelow(input, prefix1, t1, dims));
  }

  lemma SliceIs<T>(all: seq<T>, lo: nat, p: nat, run: seq<T>)
    requires lo + p <= |all| && |run| == p && forall j :: 0 <= j < p ==> all[lo + j] == run[j]
    ensures all[lo..lo + p] == run
  {
  }

  lemma OneElement<T>(input: seq<T>, prefix: seq<nat>, t: Slab, dims: seq<nat>)
    requires t == Slab([], [], []) && |prefix| == |dims| && CoversBelow(input, prefix, t, dims)
    ensures Product(t.count) == 1
    ensures Linear(dims, prefix) < |input|
    ensures SelectBelow(input, prefix, t, dims) == [input[Linear(dims, prefix)]]
  {
    assert prefix + SelectedPos(t, 0) == prefix;
    assert IndexBelow(prefix, t, dims, 0) == Linear(dims, prefix);
  }

  /**
    Appends to `poutput` the elements selected below dimension `index`, the
    coordinates before it being fixed by the shared `pos`. `pos` is left
    changed from `index` on; what the vector held before is kept.
  */
  method Subset<T>(input: seq<T>, rank: nat, dim: seq<nat>, s: Slab, poutput: Vector<T>, pos: array<nat>, index: nat)
    requires |dim| == rank && pos.Length == rank && Shaped(s, rank) && index < rank
    requires CoversBelow(input, pos[..index], Tail(s, index), dim)
    modifies poutput, pos
    ensures pos[..index] == old(pos[..index])
    ensures poutput.data == old(poutput.data) + SelectBelow(input, old(pos[..index]), Tail(s, index), dim)
    decreases rank - index
  {
    hide Product, Linear, Unrank, Place, SelectBelow, CoversBelow, Times;
    ghost var prefix, t, t1 := pos[..index], Tail(s, index), Tail(s, index + 1);
    ghost var all, before := SelectBelow(input, prefix, t, dim), poutput.data;
    ghost var p, done: nat := Product(t1.count), 0;
    TimesSteps(p);
    var k := 0;
    while k < s.count[index]
      invariant 0 <= k <= s.count[index]
      invariant done == Times(k, p) && done <= |all|
      invariant pos[..index] == prefix
      invariant poutput.data == before + all[..done]
    {
      TimesIs(k, s.step[index]);
      pos[index] := s.start[index] + k * s.step[index];
      ghost var prefix1 := pos[..index + 1];
      assert prefix1 == Fix(prefix, t, k);
      TailStep(s, index);
      PeelSelection(input, prefix, t, dim, k, prefix1, t1, all, done, p);
      if index + 1 < rank {
        Subset(input, rank, dim, s, poutput, pos, index + 1);
        assert pos[..index] == pos[..index + 1][..index];
      }
      if index == rank - 1 {
        assert prefix1 == pos[..];
        OneElement(input, prefix1, t1, dim);
        var _, curPos := IndexNDTo1D(dim, pos[..]);
        poutput.PushBack(input[curPos]);
      }
      GrowPrefix(before, all, done, p);
      k, done := k + 1, done + p;
    }
    WholePrefix(t, all, done);
  }

  lemma TimesSteps(p: nat)
    ensures Times(0, p) == 0
    ensures forall k: nat :: Times(k + 1, p) == Times(k, p) + p
  {
  }

  lemma TailStep(s: Slab, index: nat)
    requires Shaped(s, |s.start|) && index < |s.start|
    ensures Tail(Tail(s, index), 1) == Tail(s, index + 1)
  {
  }

  lemma GrowPrefix<T>(before: seq<T>, all: seq<T>, done: nat, p: nat)
    requires done + p <= |all|
    ensures (before + all[..done]) + all[done..done + p] == before + all[..done + p]
  {
  }

  lemma WholePrefix<T>(t: Slab, all: seq<T>, done: nat)
    requires t.count != [] && |all| == Product(t.count) && done == Times(t.count[0], Product(t.count[1..]))
    ensures done == |all| && all[..done] == all
  {
  }

  lemma CoversFromTop<T>(input: seq<T>, s: Slab, dims: seq<nat>)
    requires Shaped(s, |dims|) && Covers(input, s, dims)
    ensures Tail(s, 0) == s
    ensures CoversBelow(input, [], s, dims)
    ensures SelectBelow(input, [], s, dims) == Select(input, s, dims)
  {
    forall j | 0 <= j < Product(s.count)
      ensures IndexBelow([], s, dims, j) == SelectedIndex(s, dims, j)
    {
      assert [] + SelectedPos(s, j) == SelectedPos(s, j);
    }
  }

  /** The call every reader makes: `pos` starts at the offsets, `index` at 0. */
  method SubsetAll<T>(input: seq<T>, dim: seq<nat>, s: Slab) returns (output: seq<T>)
    requires dim != [] && Shaped(s, |dim|) && Covers(input, s, dim)
    ensures output == Select(input, s, dim)
  {
    var pos := new nat[|dim|](i requires 0 <= i < |dim| => s.start[i]);
    var val := new Vector<T>();
    CoversFromTop(input, s, dim);
    assert pos[..0] == [];
    Subset(input, |dim|, dim, s, val, pos, 0);
    output := val.data;
  }

  // ----- the odometer

  /** The slab restricted to its `n` slowest dimensions. */
  function Head(s: Slab, n: nat): (t: Slab)
    requires Shaped(s, |s.start|) && n <= |s.start|
    ensures Shaped(t, n)
  {
    Slab(s.start[..n], s.step[..n], s.count[..n])
  }

  ghost predicate Moving(s: Slab, rank: nat)
  {
    Shaped(s, rank) && forall i :: 0 <= i < rank ==> 1 <= s.step[i] && 1 <= s.count[i]
  }

  /** After the last move every coordinate is rewound except the slowest, which stays at its end. */
  function Rewound(s: Slab): (pos: seq<nat>)
    requires s.start != [] && Moving(s, |s.start|)
    ensures |pos| == |s.start|
  {
    [LastPos(s)[0]] + s.start[1..]
  }

  /** Where the odometer over `s` stands after `k` moves. */
  function OdometerPos(s: Slab, k: nat): (pos: seq<nat>)
    requires s.start != [] && Moving(s, |s.start|) && k <= Product(s.count)
    ensures |pos| == |s.start|
  {
    if k < Product(s.count) then SelectedPos(s, k) else Rewound(s)
  }

  lemma PlaceSnoc(start: seq<nat>, step: seq<nat>, digits: seq<nat>, n: nat, d: nat)
    requires |start| == n + 1 && |step| == n + 1 && |digits| == n
    ensures Place(start, step, digits + [d]) == Place(start[..n], step[..n], digits) + [start[n] + Times(d, step[n])]
  {
    hide Place, Times;
  }

  /** The fastest coordinate cycles through its own steps, the others advance once per cycle. */
  lemma SelectedLast(s: Slab, n: nat, t: Slab, c: nat, j: nat)
    requires Shaped(s, n + 1) && t == Head(s, n) && s.count == t.count + [c] && j < Product(s.count)
    ensures 0 < c && Quot(j, c) < Product(t.count) && Product(s.count) == Times(Product(t.count), c)
    ensures SelectedPos(s, j) == SelectedPos(t, Quot(j, c)) + [s.start[n] + Times(Rem(j, c), s.step[n])]
  {
    hide Product, Quot, Rem, Unrank, Times, Place;
    ProductLast(t.count, c);
    UnrankLast(t.count, c, j);
    PlaceSnoc(s.start, s.step, Unrank(t.count, Quot(j, c)), n, Rem(j, c));
  }

  /** Counting one up from `j` = q * c + r: no carry, a carry, or the end of all p * c numbers. */
  lemma CountUp(p: nat, c: nat, j: nat)
    requires 0 < c && j < Times(p, c)
    ensures Rem(j, c) + 1 < c ==>
              j + 1 < Times(p, c) && Quot(j + 1, c) == Quot(j, c) && Rem(j + 1, c) == Rem(j, c) + 1
    ensures Rem(j, c) + 1 == c && Quot(j, c) + 1 < p ==>
              j + 1 < Times(p, c) && Quot(j + 1, c) == Quot(j, c) + 1 && Rem(j + 1, c) == 0
    ensures Rem(j, c) + 1 == c && Quot(j, c) + 1 == p ==> j + 1 == Times(p, c)
  {
    var q, r := Quot(j, c), Rem(j, c);
    QuotRem(j, c);
    QuotBound(j, p, c);
    TimesMonotone(q, p, c);
    if r + 1 < c {
      QuotRemUnique(q, c, r + 1);
    } else {
      QuotRemUnique(q + 1, c, 0);
      TimesMonotone(q + 1, p, c);
    }
  }

  /** The test the odometer makes on a coordinate decides exactly whether a step is left. */
  lemma StepLeft(start: nat, step: nat, r: nat, c: nat)
    requires r < c && 1 <= step
    ensures start + Times(r, step) + step <= start + Times(c - 1, step) <==> r + 1 < c
  {
    if r + 1 < c {
      TimesMonotone(r, c - 1, step);
    }
  }

  /** `cur` is the j-th position of `s`, and its fastest coordinate is at step `r` of cycle `q`. */
  ghost predicate At(s: Slab, n: nat, t: Slab, cur: seq<nat>, j: nat, q: nat, r: nat)
  {
    && Moving(s, n + 1) && t == Head(s, n) && |cur| == n + 1
    && j < Product(s.count) && cur == SelectedPos(s, j)
    && q == Quot(j, s.count[n]) && r == Rem(j, s.count[n])
    && q < Product(t.count) && Product(s.count) == Times(Product(t.count), s.count[n])
    && cur == SelectedPos(t, q) + [s.start[n] + Times(r, s.step[n])]
  }

  lemma Locate(s: Slab, n: nat, t: Slab, cur: seq<nat>, j: nat) returns (q: nat, r: nat)
    requires Moving(s, n + 1) && t == Head(s, n) && j < Product(s.count) && cur == SelectedPos(s, j)
    ensures At(s, n, t, cur, j, q, r)
  {
    hide Product, Quot, Rem, SelectedPos, Times;
    assert s.count == t.count + [s.count[n]];
    SelectedLast(s, n, t, s.count[n], j);
    q, r := Quot(j, s.count[n]), Rem(j, s.count[n]);
  }

  /** There is room for one more step: only the fastest coordinate moves. */
  lemma NextInCycle(s: Slab, n: nat, t: Slab, cur: seq<nat>, j: nat, q: nat, r: nat)
    requires At(s, n, t, cur, j, q, r) && cur[n] + s.step[n] <= LastPos(s)[n]
    ensures j + 1 < Product(s.count)
    ensures OdometerPos(s, j + 1) == cur[..n] + [cur[n] + s.step[n]]
  {
    hide Product, Quot, Rem, SelectedPos;
    StepLeft(s.start[n], s.step[n], r, s.count[n]);
    CountUp(Product(t.count), s.count[n], j);
    assert s.count == t.count + [s.count[n]];
    SelectedLast(s, n, t, s.count[n], j + 1);
  }

  /** No room: the fastest coordinate is rewound and the others move one position further. */
  lemma NextCycle(s: Slab, n: nat, t: Slab, cur: seq<nat>, j: nat, q: nat, r: nat)
    requires At(s, n, t, cur, j, q, r) && LastPos(s)[n] < cur[n] + s.step[n] && 1 <= n
    ensures OdometerPos(s, j + 1) == OdometerPos(t, q + 1) + [s.start[n]]
  {
    hide Product, Quot, Rem, SelectedPos;
    StepLeft(s.start[n], s.step[n], r, s.count[n]);
    CountUp(Product(t.count), s.count[n], j);
    if q + 1 < Product(t.count) {
      assert s.count == t.count + [s.count[n]];
      SelectedLast(s, n, t, s.count[n], j + 1);
    } else {
      assert Rewound(s) == Rewound(t) + [s.start[n]];
    }
  }

  /** A single coordinate without room stays where it is. */
  lemma NextStuck(s: Slab, t: Slab, cur: seq<nat>, j: nat, q: nat, r: nat)
    requires At(s, 0, t, cur, j, q, r) && LastPos(s)[0] < cur[0] + s.step[0]
    ensures j + 1 == Product(s.count) && OdometerPos(s, j + 1) == cur
  {
    hide Quot, Rem, SelectedPos;
    StepLeft(s.start[0], s.step[0], r, s.count[0]);
    CountUp(Product(t.count), s.count[0], j);
  }

  /**
    Advances `pos` over its `rankChange` slowest coordinates: the fastest of
    them moves by its step, or is rewound and the one before it advances. The
    answer is false only when there is a single coordinate and it is at its end.
    `j` is the number of the position that `pos` holds on entry.
  */
  method ObtainNextPos(pos: array<nat>, start: seq<nat>, end: seq<nat>, step: seq<nat>, rankChange: nat, ghost s: Slab, ghost j: nat)
    returns (moved: bool)
    requires Moving(s, pos.Length) && 1 <= rankChange <= pos.Length
    requires start == s.start && step == s.step && end == LastPos(s)
    requires j < Product(s.count[..rankChange]) && pos[..rankChange] == SelectedPos(Head(s, rankChange), j)
    modifies pos
    ensures forall i :: rankChange <= i < pos.Length ==> pos[i] == old(pos[i])
    ensures pos[..rankChange] == OdometerPos(Head(s, rankChange), j + 1)
    ensures moved <==> rankChange != 1 || j + 1 < Product(s.count[..rankChange])
    decreases rankChange
  {
    hide Product, Quot, Rem, SelectedPos, Times, OdometerPos;
    ghost var n := rankChange - 1;
    ghost var h, t, cur := Head(s, rankChange), Head(s, rankChange - 1), pos[..rankChange];
    assert t == Head(h, n);
    ghost var q, r := Locate(h, n, t, cur, j);
    if pos[rankChange - 1] + step[rankChange - 1] <= end[rankChange - 1] {
      NextInCycle(h, n, t, cur, j, q, r);
      pos[rankChange - 1] := pos[rankChange - 1] + step[rankChange - 1];
      moved := true;
    } else {
      if 1 == rankChange {
        NextStuck(h, t, cur, j, q, r);
        return false;
      }
      NextCycle(h, n, t, cur, j, q, r);
      pos[rankChange - 1] := start[rankChange - 1];
      assert pos[..n] == cur[..n] == SelectedPos(t, q);
      var _ := ObtainNextPos(pos, start, end, step, rankChange - 1, s, q);
      moved := true;
    }
  }

  lemma RewoundInRange(s: Slab, dims: seq<nat>)
    requires dims != [] && Fits(s, dims)
    ensures InRange(dims, Rewound(s))
  {
    forall i | 0 <= i < |dims|
      ensures Rewound(s)[i] < dims[i]
    {
      assert i > 0 ==> Rewound(s)[i] == s.start[i];
    }
  }

  lemma OdometerInRange(s: Slab, dims: seq<nat>, k: nat)
    requires dims != [] && Fits(s, dims) && k <= Product(s.count)
    ensures InRange(dims, OdometerPos(s, k))
  {
    if k < Product(s.count) {
      SelectedInRange(s, dims, k);
    } else {
      RewoundInRange(s, dims);
    }
  }

  /** One advance of the odometer over all dimensions. */
  method Advance(pos: array<nat>, end: seq<nat>, s: Slab, ghost k: nat)
    requires pos.Length == |s.start| != 0 && Moving(s, pos.Length) && end == LastPos(s)
    requires k < Product(s.count) && pos[..] == OdometerPos(s, k)
    modifies pos
    ensures pos[..] == OdometerPos(s, k + 1)
  {
    hide Product, OdometerPos, LastPos, SelectedPos;
    OdometerRunning(s, k);
    assert pos[..pos.Length] == pos[..];
    var _ := ObtainNextPos(pos, s.start, end, s.step, pos.Length, s, k);
    assert pos[..pos.Length] == pos[..];
  }

  /**
    The loop that reads one element per odometer position. It delivers what
    `SubsetAll` delivers, in the same order, and leaves `pos` inside the array
    even though it is advanced once more after the last element.
  */
  method SelectByOdometer<T>(input: seq<T>, dims: seq<nat>, s: Slab, nelms: nat) returns (output: seq<T>, finalPos: seq<nat>)
    requires dims != [] && Fits(s, dims) && |input| == Product(dims) && nelms == Product(s.count)
    ensures Covers(input, s, dims) && output == Select(input, s, dims)
    ensures finalPos == Rewound(s) && InRange(dims, finalPos)
  {
    hide Product, Linear, Times, OdometerPos, SelectedPos, Select, InRange, LastPos, Unrank;
    var n := |dims|;
    var pos := new nat[n](i requires 0 <= i < n => s.start[i]);
    var end := LastPos(s);
    FitsCovers(input, s, dims);
    OdometerStart(s, dims);
    assert pos[..] == s.start;
    output := [];
    var k := 0;
    while k < nelms
      invariant 0 <= k <= nelms
      invariant pos[..] == OdometerPos(s, k)
      invariant |output| == k && forall i :: 0 <= i < k ==> output[i] == Select(input, s, dims)[i]
    {
      OdometerRunning(s, k);
      var _, index := IndexNDTo1D(dims, pos[..]);
      assert index == SelectedIndex(s, dims, k);
      output := output + [input[index]];
      Advance(pos, end, s, k);
      k := k + 1;
    }
    OdometerInRange(s, dims, nelms);
    OdometerDone(s);
    finalPos := pos[..];
  }

  lemma OdometerStart(s: Slab, dims: seq<nat>)
    requires dims != [] && Fits(s, dims)
    ensures OdometerPos(s, 0) == s.start
  {
    SelectedEnds(s, dims);
  }

  lemma OdometerRunning(s: Slab, k: nat)
    requires s.start != [] && Moving(s, |s.start|) && k < Product(s.count)
    ensures OdometerPos(s, k) == SelectedPos(s, k)
    ensures s.count[..|s.start|] == s.count && Head(s, |s.start|) == s
  {
  }

  lemma OdometerDone(s: Slab)
    requires s.start != [] && Moving(s, |s.start|)
    ensures OdometerPos(s, Product(s.count)) == Rewound(s)
  {
  }
}
