/**
  Hyperslab constraints: which elements of an array a start/stride/stop
  constraint selects, in what order, and when the selection is contiguous.
*/
module Hyperslab {
  import opened Arith
  import opened Grid

  /** One constrained dimension of a DAP array. */
  datatype Dim = Dim(size: nat, start: nat, stride: nat, stop: nat)

  /** The offset, step and count vectors computed from a constraint. */
  datatype Slab = Slab(start: seq<nat>, step: seq<nat>, count: seq<nat>)

  datatype Format = Selected(nelms: nat) | MalformedExpr(start: nat, stop: nat)

  ghost predicate Shaped(s: Slab, rank: nat)
  {
    |s.start| == rank && |s.step| == rank && |s.count| == rank
  }

  /** Every step moves forward and the last selected coordinate is inside the array. */
  ghost predicate Fits(s: Slab, dims: seq<nat>)
  {
    && Shaped(s, |dims|)
    && forall i :: 0 <= i < |dims| ==>
         1 <= s.step[i] && 1 <= s.count[i] && s.start[i] + Times(s.count[i] - 1, s.step[i]) < dims[i]
  }

  /** start + step * digits, coordinate by coordinate. */
  function Place(start: seq<nat>, step: seq<nat>, digits: seq<nat>): (pos: seq<nat>)
    requires |step| == |start| && |digits| == |start|
    ensures |pos| == |start|
    ensures forall i :: 0 <= i < |start| ==> pos[i] == start[i] + Times(digits[i], step[i])
  {
    if start == [] then [] else [start[0] + Times(digits[0], step[0])] + Place(start[1..], step[1..], digits[1..])
  }

  /** The j-th selected position. */
  function SelectedPos(s: Slab, j: nat): (pos: seq<nat>)
    requires Shaped(s, |s.start|) && j < Product(s.count)
    ensures |pos| == |s.start|
  {
    Place(s.start, s.step, Unrank(s.count, j))
  }

  /** The linear index of the j-th selected element. */
  function SelectedIndex(s: Slab, dims: seq<nat>, j: nat): nat
    requires Shaped(s, |dims|) && j < Product(s.count)
  {
    Linear(dims, SelectedPos(s, j))
  }

  function LastPos(s: Slab): (pos: seq<nat>)
    requires Shaped(s, |s.start|) && forall i :: 0 <= i < |s.count| ==> 1 <= s.count[i]
    ensures |pos| == |s.start|
  {
    seq(|s.start|, i requires 0 <= i < |s.start| => s.start[i] + Times(s.count[i] - 1, s.step[i]))
  }

  function Zeros(n: nat): (r: seq<nat>)
    ensures |r| == n
    ensures forall i :: 0 <= i < n ==> r[i] == 0
  {
    seq(n, i => 0)
  }

  ghost predicate Covers<T>(data: seq<T>, s: Slab, dims: seq<nat>)
    requires Shaped(s, |dims|)
  {
    forall j :: 0 <= j < Product(s.count) ==> SelectedIndex(s, dims, j) < |data|
  }

  /** What a direct hyperslab read of `data` returns. */
  function Select<T>(data: seq<T>, s: Slab, dims: seq<nat>): (r: seq<T>)
    requires Shaped(s, |dims|) && Covers(data, s, dims)
    ensures |r| == Product(s.count)
    ensures forall j :: 0 <= j < Product(s.count) ==> r[j] == data[SelectedIndex(s, dims, j)]
  {
    seq(Product(s.count), j requires 0 <= j < Product(s.count) => data[SelectedIndex(s, dims, j)])
  }

  // ----- order of the selection

  lemma {:induction false} PlaceOrder(start: seq<nat>, step: seq<nat>, a: seq<nat>, b: seq<nat>)
    requires |step| == |start| && |a| == |start| && |b| == |start|
    requires forall i :: 0 <= i < |step| ==> 1 <= step[i]
    requires LexLess(a, b)
    ensures LexLess(Place(start, step, a), Place(start, step, b))
  {
    var pa, pb := Place(start, step, a), Place(start, step, b);
    assert pa[1..] == Place(start[1..], step[1..], a[1..]);
    assert pb[1..] == Place(start[1..], step[1..], b[1..]);
    if a[0] < b[0] {
      TimesMonotone(a[0], b[0], step[0]);
    } else {
      PlaceOrder(start[1..], step[1..], a[1..], b[1..]);
    }
  }

  lemma SelectedInRange(s: Slab, dims: seq<nat>, j: nat)
    requires Fits(s, dims) && j < Product(s.count)
    ensures InRange(dims, SelectedPos(s, j))
  {
    var digits := Unrank(s.count, j);
    forall i | 0 <= i < |dims|
      ensures SelectedPos(s, j)[i] < dims[i]
    {
      TimesMonotone(digits[i], s.count[i] - 1, s.step[i]);
    }
  }

  lemma FitsCovers<T>(data: seq<T>, s: Slab, dims: seq<nat>)
    requires Fits(s, dims) && |data| == Product(dims)
    ensures Covers(data, s, dims)
  {
    forall j | 0 <= j < Product(s.count)
      ensures SelectedIndex(s, dims, j) < |data|
    {
      SelectedInRange(s, dims, j);
      LinearBound(dims, SelectedPos(s, j));
    }
  }

  /** Selected elements are visited in strictly increasing storage order. */
  lemma SelectedIncreasing(s: Slab, dims: seq<nat>, j: nat, k: nat)
    requires Fits(s, dims) && j < k < Product(s.count)
    ensures SelectedIndex(s, dims, j) < SelectedIndex(s, dims, k)
  {
    UnrankOrder(s.count, j, k);
    PlaceOrder(s.start, s.step, Unrank(s.count, j), Unrank(s.count, k));
    SelectedInRange(s, dims, j);
    SelectedInRange(s, dims, k);
    LinearMonotone(dims, SelectedPos(s, j), SelectedPos(s, k));
  }

  lemma {:induction false} UnrankFirst(count: seq<nat>)
    requires 0 < Product(count)
    ensures forall i :: 0 <= i < |count| ==> Unrank(count, 0)[i] == 0
  {
    if count == [] {
    } else {
      TimesOne(count[0]);
      UnrankFirst(count[1..]);
      UnrankRow(count, 0, 0, 0);
    }
  }

  lemma {:induction false} UnrankFinal(count: seq<nat>, last: nat)
    requires forall i :: 0 <= i < |count| ==> 1 <= count[i]
    requires last + 1 == Product(count)
    ensures forall i :: 0 <= i < |count| ==> Unrank(count, last)[i] == count[i] - 1
  {
    if count == [] {
    } else {
      ProductPositive(count[1..]);
      var p := Product(count[1..]);
      UnrankFinal(count[1..], p - 1);
      UnrankRow(count, count[0] - 1, p - 1, last);
    }
  }

  /** The first and the last selected element are the two corners of the slab. */
  lemma SelectedEnds(s: Slab, dims: seq<nat>)
    requires Fits(s, dims)
    ensures 1 <= Product(s.count)
    ensures SelectedPos(s, 0) == s.start
    ensures SelectedPos(s, Product(s.count) - 1) == LastPos(s)
  {
    hide Product, Unrank, Linear, Times;
    ProductPositive(s.count);
    UnrankFirst(s.count);
    UnrankFinal(s.count, Product(s.count) - 1);
    TimesNothing(s.step);
  }

  lemma TimesNothing(step: seq<nat>)
    ensures forall i :: 0 <= i < |step| ==> Times(0, step[i]) == 0
  {
  }

  /** The indices of the first and the last selected element. */
  lemma SelectedEndIndices(s: Slab, dims: seq<nat>)
    requires Fits(s, dims)
    ensures 1 <= Product(s.count)
    ensures SelectedIndex(s, dims, 0) == Linear(dims, s.start)
    ensures SelectedIndex(s, dims, Product(s.count) - 1) == Linear(dims, LastPos(s)) < Product(dims)
  {
    hide Product, Linear, SelectedPos, LastPos;
    SelectedEnds(s, dims);
    SelectedInRange(s, dims, Product(s.count) - 1);
    LinearBound(dims, LastPos(s));
  }

  // ----- contiguity

  lemma {:induction false} PinnedBelow(s: Slab, dims: seq<nat>, j: nat)
    requires Fits(s, dims) && j < Product(s.count)
    ensures SelectedIndex(s, dims, 0) + j <= SelectedIndex(s, dims, j)
  {
    hide Product, SelectedIndex;
    if j != 0 {
      PinnedBelow(s, dims, j - 1);
      SelectedIncreasing(s, dims, j - 1, j);
    }
  }

  lemma {:induction false} PinnedAbove(s: Slab, dims: seq<nat>, j: nat)
    requires Fits(s, dims) && j < Product(s.count)
    ensures SelectedIndex(s, dims, j) + (Product(s.count) - 1 - j) <= SelectedIndex(s, dims, Product(s.count) - 1)
    decreases Product(s.count) - j
  {
    hide Product, SelectedIndex;
    if j + 1 < Product(s.count) {
      PinnedAbove(s, dims, j + 1);
      SelectedIncreasing(s, dims, j, j + 1);
    }
  }

  /**
    The selection is one contiguous run exactly when it has as many elements
    as the span between its first and last element.
  */
  lemma ContiguousIffCountsMatch(s: Slab, dims: seq<nat>)
    requires Fits(s, dims)
    ensures 1 <= Product(s.count)
    ensures var n := Product(s.count);
            var first, last := Linear(dims, s.start), Linear(dims, LastPos(s));
            first <= last && n <= last - first + 1 &&
            (n == last - first + 1 <==> forall j :: 0 <= j < n ==> SelectedIndex(s, dims, j) == first + j)
  {
    hide Product, Linear, SelectedIndex, SelectedPos, LastPos;
    SelectedEndIndices(s, dims);
    var n := Product(s.count);
    PinnedBelow(s, dims, n - 1);
    if n == Linear(dims, LastPos(s)) - Linear(dims, s.start) + 1 {
      forall j | 0 <= j < n
        ensures SelectedIndex(s, dims, j) == Linear(dims, s.start) + j
      {
        PinnedBelow(s, dims, j);
        PinnedAbove(s, dims, j);
      }
    } else {
      assert SelectedIndex(s, dims, n - 1) != Linear(dims, s.start) + (n - 1);
    }
  }

  /** Selecting as many elements as the array has is selecting the array itself. */
  lemma FullCountIsWholeArray<T>(data: seq<T>, s: Slab, dims: seq<nat>)
    requires Fits(s, dims) && |data| == Product(dims)
    ensures Covers(data, s, dims)
    ensures Product(s.count) == Product(dims) ==> Select(data, s, dims) == data
    ensures Product(s.count) == Product(dims) ==>
              forall j :: 0 <= j < Product(s.count) ==> SelectedIndex(s, dims, j) == j
  {
    FitsCovers(data, s, dims);
    var n := Product(s.count);
    if n == Product(dims) {
      hide Product, Linear, SelectedIndex, SelectedPos, LastPos, Times;
      SelectedEndIndices(s, dims);
      forall j | 0 <= j < n
        ensures SelectedIndex(s, dims, j) == j
      {
        PinnedBelow(s, dims, j);
        PinnedAbove(s, dims, j);
      }
    }
  }

  // ----- the window between the first and the last selected element

  /** The same selection counted from its own first element. */
  function FromZero(s: Slab): Slab
  {
    s.(start := Zeros(|s.start|))
  }

  lemma {:induction false} PlaceSplit(start: seq<nat>, step: seq<nat>, digits: seq<nat>)
    requires |step| == |start| && |digits| == |start|
    ensures Place(start, step, digits) == Add(start, Place(Zeros(|start|), step, digits))
  {
    if start == [] {
    } else {
      PlaceSplit(start[1..], step[1..], digits[1..]);
      assert Zeros(|start|)[1..] == Zeros(|start[1..]|);
    }
  }

  lemma FromZeroShift(s: Slab, dims: seq<nat>, j: nat)
    requires Shaped(s, |dims|) && j < Product(s.count)
    ensures SelectedIndex(s, dims, j) == Linear(dims, s.start) + SelectedIndex(FromZero(s), dims, j)
  {
    var digits := Unrank(s.count, j);
    PlaceSplit(s.start, s.step, digits);
    LinearAdd(dims, s.start, Place(Zeros(|s.start|), s.step, digits));
  }

  lemma BelowLast(s: Slab, dims: seq<nat>, j: nat)
    requires Fits(s, dims) && j < Product(s.count)
    ensures SelectedIndex(s, dims, j) <= Linear(dims, LastPos(s)) < Product(dims)
  {
    hide Product, Linear, SelectedIndex, SelectedPos, LastPos;
    var last := Product(s.count) - 1;
    SelectedEndIndices(s, dims);
    if j < last {
      SelectedIncreasing(s, dims, j, last);
    }
  }

  /** Every selected element lies in the window, at its distance from the first one. */
  lemma InsideWindow(s: Slab, dims: seq<nat>, j: nat)
    requires Fits(s, dims) && j < Product(s.count)
    ensures SelectedIndex(s, dims, j) == Linear(dims, s.start) + SelectedIndex(FromZero(s), dims, j)
    ensures SelectedIndex(s, dims, j) <= Linear(dims, LastPos(s)) < Product(dims)
  {
    FromZeroShift(s, dims, j);
    BelowLast(s, dims, j);
  }

  /**
    Re-selecting inside the window, with every start set to zero but the full
    dimension sizes, never leaves the window and gives the direct selection.
  */
  lemma WindowSelection<T>(data: seq<T>, s: Slab, dims: seq<nat>, window: seq<T>)
    requires Fits(s, dims) && |data| == Product(dims)
    requires Linear(dims, s.start) <= Linear(dims, LastPos(s)) < |data|
    requires window == data[Linear(dims, s.start)..Linear(dims, LastPos(s)) + 1]
    ensures Covers(data, s, dims)
    ensures Covers(window, FromZero(s), dims)
    ensures Select(window, FromZero(s), dims) == Select(data, s, dims)
  {
    hide Product, Linear, SelectedIndex, LastPos;
    FitsCovers(data, s, dims);
    forall j | 0 <= j < Product(s.count)
      ensures SelectedIndex(FromZero(s), dims, j) < |window|
      ensures window[SelectedIndex(FromZero(s), dims, j)] == data[SelectedIndex(s, dims, j)]
    {
      InsideWindow(s, dims, j);
    }
  }

  /** A window with as many elements as are selected is the selection as it stands. */
  lemma ContiguousWindow<T>(data: seq<T>, s: Slab, dims: seq<nat>, window: seq<T>, first: nat, last: nat)
    requires Fits(s, dims) && |data| == Product(dims)
    requires first == Linear(dims, s.start) && last == Linear(dims, LastPos(s)) && first <= last < |data|
    requires window == data[first..last + 1]
    ensures Covers(data, s, dims)
    ensures Product(s.count) == last - first + 1 ==> window == Select(data, s, dims)
  {
    hide Product, Linear, SelectedIndex;
    FitsCovers(data, s, dims);
    ContiguousIffCountsMatch(s, dims);
  }

  /** The position that is `k[i]` steps from the start along each dimension. */
  function Reached(s: Slab, k: seq<nat>): (pos: seq<nat>)
    requires Shaped(s, |k|)
    ensures |pos| == |k| && forall i :: 0 <= i < |k| ==> pos[i] == s.start[i] + k[i] * s.step[i]
  {
    seq(|k|, i requires 0 <= i < |k| => s.start[i] + k[i] * s.step[i])
  }

  /** The selection by its own row-major positions: `k` steps along the dimensions lead to that element of the array. */
  lemma SelectAt<T>(data: seq<T>, s: Slab, dims: seq<nat>, k: seq<nat>)
    requires Fits(s, dims) && |data| == Product(dims) && InRange(s.count, k)
    ensures Covers(data, s, dims) && Linear(s.count, k) < Product(s.count) && InRange(dims, Reached(s, k))
    ensures Linear(dims, Reached(s, k)) < |data|
    ensures Select(data, s, dims)[Linear(s.count, k)] == data[Linear(dims, Reached(s, k))]
  {
    FitsCovers(data, s, dims);
    LinearUnrank(s.count, k);
    var j := Linear(s.count, k);
    SelectedInRange(s, dims, j);
    hide Product, Linear, Unrank, Times;
    forall i | 0 <= i < |k|
      ensures SelectedPos(s, j)[i] == Reached(s, k)[i]
    {
      TimesIs(k[i], s.step[i]);
    }
    assert SelectedPos(s, j) == Reached(s, k);
    LinearBound(dims, Reached(s, k));
  }

  // ----- from a constraint to a slab

  ghost predicate Legal(dims: seq<Dim>)
  {
    forall i :: 0 <= i < |dims| ==> dims[i].start <= dims[i].stop
  }

  function Sizes(dims: seq<Dim>): (r: seq<nat>)
    ensures |r| == |dims|
    ensures forall i :: 0 <= i < |dims| ==> r[i] == dims[i].size
  {
    seq(|dims|, i requires 0 <= i < |dims| => dims[i].size)
  }

  /** `count` is how many of start, start + stride, ... do not pass stop. */
  ghost predicate CountsSteps(d: Dim, count: nat)
  {
    1 <= count && d.start + Times(count - 1, d.stride) <= d.stop < d.start + Times(count, d.stride)
  }

  ghost predicate SlabOf(dims: seq<Dim>, s: Slab)
  {
    && Shaped(s, |dims|)
    && forall i :: 0 <= i < |dims| ==>
         s.start[i] == dims[i].start && s.step[i] == dims[i].stride && CountsSteps(dims[i], s.count[i])
  }

  /** The three vectors hold the slab of the first `n` dimensions. */
  ghost predicate Filled(dims: seq<Dim>, n: nat, offset: seq<nat>, step: seq<nat>, count: seq<nat>)
    requires n <= |dims| && |offset| == |dims| && |step| == |dims| && |count| == |dims|
  {
    forall i :: 0 <= i < n ==> offset[i] == dims[i].start && step[i] == dims[i].stride && CountsSteps(dims[i], count[i])
  }

  lemma NoDimensions(dims: seq<nat>)
    requires dims == []
    ensures Product(dims) == 1
  {
  }

  lemma QuotientCounts(d: Dim)
    requires d.start <= d.stop && 1 <= d.stride
    ensures CountsSteps(d, (d.stop - d.start) / d.stride + 1)
  {
    var q := (d.stop - d.start) / d.stride;
    assert d.stop - d.start == q * d.stride + (d.stop - d.start) % d.stride;
    TimesIs(q, d.stride);
  }

  /** What a constraint that is not refused makes of each dimension. */
  lemma SlabOfIs(dims: seq<Dim>, s: Slab)
    requires forall i :: 0 <= i < |dims| ==> 1 <= dims[i].stride
    ensures Legal(dims) <==> forall i :: 0 <= i < |dims| ==> dims[i].start <= dims[i].stop
    ensures SlabOf(dims, s)
       <==> Legal(dims) && Shaped(s, |dims|)
            && forall i :: 0 <= i < |dims| ==>
                 s.start[i] == dims[i].start && s.step[i] == dims[i].stride
                 && s.count[i] == (dims[i].stop - dims[i].start) / dims[i].stride + 1
  {
    forall i | 0 <= i < |dims| && dims[i].start <= dims[i].stop
      ensures CountsSteps(dims[i], (dims[i].stop - dims[i].start) / dims[i].stride + 1)
    {
      QuotientCounts(dims[i]);
    }
    forall i, n: nat | 0 <= i < |dims| && CountsSteps(dims[i], n)
      ensures dims[i].start <= dims[i].stop && n == (dims[i].stop - dims[i].start) / dims[i].stride + 1
    {
      QuotientCounts(dims[i]);
      CountUnique(dims[i], n, (dims[i].stop - dims[i].start) / dims[i].stride + 1);
    }
  }

  /** A selection is inside the array exactly if its last position is. */
  lemma FitsIs(s: Slab, dims: seq<nat>)
    ensures Fits(s, dims)
       <==> |s.start| == |dims| && |s.step| == |dims| && |s.count| == |dims|
            && forall i :: 0 <= i < |dims| ==>
                 1 <= s.step[i] && 1 <= s.count[i] && s.start[i] + (s.count[i] - 1) * s.step[i] < dims[i]
  {
    forall i | 0 <= i < |dims| && |s.step| == |dims| && |s.count| == |dims| && 1 <= s.count[i]
      ensures Times(s.count[i] - 1, s.step[i]) == (s.count[i] - 1) * s.step[i]
    {
      TimesIs(s.count[i] - 1, s.step[i]);
    }
  }

  lemma CountUnique(d: Dim, m: nat, n: nat)
    requires CountsSteps(d, m) && CountsSteps(d, n)
    ensures m == n
  {
    if m < n {
      TimesMonotone(m, n - 1, d.stride);
    } else if n < m {
      TimesMonotone(n, m - 1, d.stride);
    }
  }

  /** A constraint determines its slab. */
  lemma SlabUnique(dims: seq<Dim>, a: Slab, b: Slab)
    requires SlabOf(dims, a) && SlabOf(dims, b)
    requires forall i :: 0 <= i < |dims| ==> 1 <= dims[i].stride
    ensures a == b
  {
    forall i | 0 <= i < |dims|
      ensures a.count[i] == b.count[i]
    {
      CountUnique(dims[i], a.count[i], b.count[i]);
    }
  }

  lemma CountBound(d: Dim, count: nat)
    requires CountsSteps(d, count) && 1 <= d.stride && d.stop < d.size
    ensures count <= d.size && d.start + Times(count - 1, d.stride) < d.size
  {
    if 1 < count {
      TimesPositive(count - 1, d.stride);
    }
  }

  /** A constraint inside the array selects in-range elements only. */
  lemma LegalFits(dims: seq<Dim>, s: Slab)
    requires SlabOf(dims, s)
    requires forall i :: 0 <= i < |dims| ==> 1 <= dims[i].stride && dims[i].stop < dims[i].size
    ensures Fits(s, Sizes(dims))
    ensures forall i :: 0 <= i < |dims| ==> s.count[i] <= dims[i].size
  {
    forall i | 0 <= i < |dims|
      ensures s.count[i] <= dims[i].size && s.start[i] + Times(s.count[i] - 1, s.step[i]) < dims[i].size
    {
      CountBound(dims[i], s.count[i]);
    }
  }

  /**
    Neither the returned total nor any partial product of the counts exceeds
    the array's own size, so a C int that can hold the element count of the
    array does not overflow while the counts are multiplied.
  */
  lemma CountsFitArray(dims: seq<Dim>, s: Slab, n: nat)
    requires SlabOf(dims, s) && n <= |dims|
    requires forall i :: 0 <= i < |dims| ==> 1 <= dims[i].stride && dims[i].stop < dims[i].size
    ensures Product(s.count[..n]) <= Product(Sizes(dims))
  {
    LegalFits(dims, s);
    var sizes := Sizes(dims);
    ProductMonotone(s.count[..n], sizes[..n]);
    PrefixProduct(sizes, n);
  }

  lemma PrefixProduct(sizes: seq<nat>, n: nat)
    requires n <= |sizes| && forall i :: 0 <= i < |sizes| ==> 1 <= sizes[i]
    ensures Product(sizes[..n]) <= Product(sizes)
  {
    assert sizes[..n] + sizes[n..] == sizes;
    ProductConcat(sizes[..n], sizes[n..]);
    ProductPositive(sizes[n..]);
    TimesCommutes(Product(sizes[..n]), Product(sizes[n..]));
    TimesPositive(Product(sizes[n..]), Product(sizes[..n]));
  }

  /** The slab that a legal constraint stands for. */
  function SlabFor(dims: seq<Dim>): (s: Slab)
    requires Legal(dims) && forall i :: 0 <= i < |dims| ==> 1 <= dims[i].stride
    ensures SlabOf(dims, s)
  {
    var counts := seq(|dims|, i requires 0 <= i < |dims| => (dims[i].stop - dims[i].start) / dims[i].stride + 1);
    assert forall i :: 0 <= i < |dims| ==> CountsSteps(dims[i], counts[i]) by {
      forall i | 0 <= i < |dims|
        ensures CountsSteps(dims[i], counts[i])
      {
        QuotientCounts(dims[i]);
      }
    }
    Slab(seq(|dims|, i requires 0 <= i < |dims| => dims[i].start),
         seq(|dims|, i requires 0 <= i < |dims| => dims[i].stride),
         counts)
  }

  /**
    Fills the three vectors dimension by dimension and multiplies the counts.
    The first dimension whose start is past its stop raises the error; what
    was filled for the dimensions before it stays, the rest is untouched.
  */
  method FormatConstraint(dims: seq<Dim>, offset: array<nat>, step: array<nat>, count: array<nat>)
    returns (r: Format)
    requires offset.Length == |dims| && step.Length == |dims| && count.Length == |dims|
    requires offset != step && step != count && offset != count
    requires forall i :: 0 <= i < |dims| ==> 1 <= dims[i].stride
    modifies offset, step, count
    ensures r.Selected? <==> Legal(dims)
    ensures r.Selected? ==>
              SlabOf(dims, Slab(offset[..], step[..], count[..])) && r.nelms == Product(count[..])
    ensures r.MalformedExpr? ==>
              exists i :: 0 <= i < |dims| && Legal(dims[..i]) && r == MalformedExpr(dims[i].start, dims[i].stop)
                && r.stop < r.start && Filled(dims, i, offset[..], step[..], count[..])
                && offset[i..] == old(offset[i..]) && step[i..] == old(step[i..]) && count[i..] == old(count[i..])
  {
    hide Product, Times, CountsSteps;
    var nels: nat, id := 1, 0;
    NoDimensions(count[..0]);
    while id < |dims|
      invariant 0 <= id <= |dims|
      invariant Legal(dims[..id])
      invariant Filled(dims, id, offset[..], step[..], count[..])
      invariant nels == Product(count[..id])
      invariant forall i :: id <= i < |dims| ==>
                  offset[i] == old(offset[i]) && step[i] == old(step[i]) && count[i] == old(count[i])
    {
      var start, stride, stop := dims[id].start, dims[id].stride, dims[id].stop;
      if start > stop {
        return MalformedExpr(start, stop);
      }
      QuotientCounts(dims[id]);
      ghost var counts := count[..id];
      offset[id] := start;
      step[id] := stride;
      count[id] := (stop - start) / stride + 1;
      ProductLast(counts, count[id]);
      assert count[..id + 1] == counts + [count[id]];
      TimesIs(nels, count[id]);
      nels := nels * count[id];
      assert dims[..id + 1] == dims[..id] + [dims[id]];
      id := id + 1;
    }
    assert dims[..id] == dims && count[..id] == count[..];
    r := Selected(nels);
  }

  /** The way every reader calls it: three fresh vectors of the array's rank. */
  method ConstraintToSlab(dims: seq<Dim>) returns (r: Format, s: Slab)
    requires forall i :: 0 <= i < |dims| ==> 1 <= dims[i].stride
    ensures r.Selected? <==> Legal(dims)
    ensures r.Selected? ==> SlabOf(dims, s) && r.nelms == Product(s.count)
    ensures r.MalformedExpr? ==> exists i :: 0 <= i < |dims| && Legal(dims[..i]) && r == MalformedExpr(dims[i].start, dims[i].stop)
  {
    var offset, step, count := new nat[|dims|], new nat[|dims|], new nat[|dims|];
    r := FormatConstraint(dims, offset, step, count);
    s := Slab(offset[..], step[..], count[..]);
  }

  /**
    The variant of arrays outside the CF option: an array without elements
    returns 0 before any vector is touched.
  */
  method FormatConstraintUnlessEmpty(length: nat, dims: seq<Dim>, offset: array<nat>, step: array<nat>, count: array<nat>)
    returns (r: Format)
    requires offset.Length == |dims| && step.Length == |dims| && count.Length == |dims|
    requires offset != step && step != count && offset != count
    requires forall i :: 0 <= i < |dims| ==> 1 <= dims[i].stride
    modifies offset, step, count
    ensures length == 0 ==> r == Selected(0) && offset[..] == old(offset[..]) && step[..] == old(step[..]) && count[..] == old(count[..])
    ensures length != 0 ==> (r.Selected? <==> Legal(dims))
    ensures length != 0 && r.Selected? ==>
              SlabOf(dims, Slab(offset[..], step[..], count[..])) && r.nelms == Product(count[..])
    ensures length != 0 && r.MalformedExpr? ==>
              exists i :: 0 <= i < |dims| && Legal(dims[..i]) && r == MalformedExpr(dims[i].start, dims[i].stop)
                && r.stop < r.start && Filled(dims, i, offset[..], step[..], count[..])
                && offset[i..] == old(offset[i..]) && step[i..] == old(step[i..]) && count[i..] == old(count[i..])
  {
    if length == 0 {
      return Selected(0);
    }
    r := FormatConstraint(dims, offset, step, count);
  }
}
