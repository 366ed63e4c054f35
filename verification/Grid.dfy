/**
  Positions in an array of any rank and their row-major linear index.
  Everything the readers, the enumerators and the caches do with indices is
  reduced to the facts proved here.
*/
module Grid {
  import opened Arith

  /** Number of elements of an array with these dimension sizes. */
  function Product(dims: seq<nat>): nat
  {
    if dims == [] then 1 else Times(dims[0], Product(dims[1..]))
  }

  ghost predicate InRange(dims: seq<nat>, pos: seq<nat>)
  {
    |pos| == |dims| && forall i :: 0 <= i < |dims| ==> pos[i] < dims[i]
  }

  /** The index of `pos`: each coordinate weighted by the size of what it spans. */
  function Linear(dims: seq<nat>, pos: seq<nat>): nat
    requires |pos| == |dims|
  {
    if dims == [] then 0 else Times(pos[0], Product(dims[1..])) + Linear(dims[1..], pos[1..])
  }

  /** The same index by Horner's rule, folding from the slowest dimension. */
  function Horner(dims: seq<nat>, pos: seq<nat>, acc: nat): nat
    requires |pos| == |dims|
  {
    if dims == [] then acc else Horner(dims[1..], pos[1..], Times(acc, dims[0]) + pos[0])
  }

  ghost predicate LexLess(a: seq<nat>, b: seq<nat>)
    requires |a| == |b|
  {
    a != [] && (a[0] < b[0] || (a[0] == b[0] && LexLess(a[1..], b[1..])))
  }

  /** Coordinate-wise sum. */
  function Add(a: seq<nat>, b: seq<nat>): (r: seq<nat>)
    requires |a| == |b|
    ensures |r| == |a|
  {
    if a == [] then [] else [a[0] + b[0]] + Add(a[1..], b[1..])
  }

  /** The row-major digits of `k`: the inverse of `Linear`. */
  function Unrank(dims: seq<nat>, k: nat): (pos: seq<nat>)
    requires k < Product(dims)
    ensures InRange(dims, pos)
  {
    if dims == [] then []
    else
      var p := Product(dims[1..]);
      QuotBound(k, dims[0], p);
      [Quot(k, p)] + Unrank(dims[1..], Rem(k, p))
  }

  // ----- the linear index is a strictly monotone bijection

  lemma {:induction false} LinearBound(dims: seq<nat>, pos: seq<nat>)
    requires InRange(dims, pos)
    ensures Linear(dims, pos) < Product(dims)
  {
    if dims == [] {
    } else {
      LinearBound(dims[1..], pos[1..]);
      TimesMonotone(pos[0], dims[0], Product(dims[1..]));
    }
  }

  lemma {:induction false} LinearMonotone(dims: seq<nat>, a: seq<nat>, b: seq<nat>)
    requires InRange(dims, a) && InRange(dims, b) && LexLess(a, b)
    ensures Linear(dims, a) < Linear(dims, b)
  {
    if a[0] < b[0] {
      LinearBound(dims[1..], a[1..]);
      TimesMonotone(a[0], b[0], Product(dims[1..]));
    } else {
      LinearMonotone(dims[1..], a[1..], b[1..]);
    }
  }

  lemma {:induction false} LexTotal(a: seq<nat>, b: seq<nat>)
    requires |a| == |b|
    ensures a == b || LexLess(a, b) || LexLess(b, a)
  {
    if a != [] && a[0] == b[0] {
      LexTotal(a[1..], b[1..]);
      assert a == [a[0]] + a[1..] && b == [b[0]] + b[1..];
    }
  }

  /** Order on positions and order on indices are the same order. */
  lemma LinearOrder(dims: seq<nat>, a: seq<nat>, b: seq<nat>)
    requires InRange(dims, a) && InRange(dims, b)
    ensures LexLess(a, b) <==> Linear(dims, a) < Linear(dims, b)
    ensures Linear(dims, a) == Linear(dims, b) <==> a == b
  {
    LexTotal(a, b);
    if LexLess(a, b) {
      LinearMonotone(dims, a, b);
    } else if LexLess(b, a) {
      LinearMonotone(dims, b, a);
    }
  }

  lemma {:induction false} UnrankLinear(dims: seq<nat>, k: nat)
    requires k < Product(dims)
    ensures Linear(dims, Unrank(dims, k)) == k
  {
    if dims == [] {
    } else {
      var p := Product(dims[1..]);
      QuotBound(k, dims[0], p);
      QuotRem(k, p);
      UnrankLinear(dims[1..], Rem(k, p));
      assert Unrank(dims, k)[1..] == Unrank(dims[1..], Rem(k, p));
    }
  }

  lemma LinearUnrank(dims: seq<nat>, pos: seq<nat>)
    requires InRange(dims, pos)
    ensures Linear(dims, pos) < Product(dims)
    ensures Unrank(dims, Linear(dims, pos)) == pos
  {
    LinearBound(dims, pos);
    UnrankLinear(dims, Linear(dims, pos));
    LinearOrder(dims, Unrank(dims, Linear(dims, pos)), pos);
  }

  lemma UnrankUnique(dims: seq<nat>, pos: seq<nat>, n: nat)
    requires InRange(dims, pos) && Linear(dims, pos) == n
    ensures n < Product(dims) && Unrank(dims, n) == pos
  {
    LinearUnrank(dims, pos);
  }

  /** Counting upwards visits the positions in lexicographic order. */
  lemma UnrankOrder(dims: seq<nat>, j: nat, k: nat)
    requires j < k < Product(dims)
    ensures LexLess(Unrank(dims, j), Unrank(dims, k))
  {
    UnrankLinear(dims, j);
    UnrankLinear(dims, k);
    LinearOrder(dims, Unrank(dims, j), Unrank(dims, k));
  }

  lemma {:induction false} HornerIsLinear(dims: seq<nat>, pos: seq<nat>, acc: nat)
    requires |pos| == |dims|
    ensures Horner(dims, pos, acc) == Times(acc, Product(dims)) + Linear(dims, pos)
  {
    if dims == [] {
      TimesOne(acc);
    } else {
      var p := Product(dims[1..]);
      HornerIsLinear(dims[1..], pos[1..], Times(acc, dims[0]) + pos[0]);
      TimesAddLeft(Times(acc, dims[0]), pos[0], p);
      TimesAssoc(acc, dims[0], p);
    }
  }

  lemma {:induction false} LinearAdd(dims: seq<nat>, a: seq<nat>, b: seq<nat>)
    requires |a| == |dims| && |b| == |dims|
    ensures Linear(dims, Add(a, b)) == Linear(dims, a) + Linear(dims, b)
  {
    if dims == [] {
    } else {
      LinearAdd(dims[1..], a[1..], b[1..]);
      assert Add(a, b)[1..] == Add(a[1..], b[1..]);
      TimesAddLeft(a[0], b[0], Product(dims[1..]));
    }
  }

  // ----- splitting off the slowest or the fastest dimension

  lemma RowPosition(dims: seq<nat>, k: nat, rest: seq<nat>)
    requires dims != [] && k < dims[0] && InRange(dims[1..], rest)
    ensures InRange(dims, [k] + rest)
    ensures Linear(dims, [k] + rest) == Times(k, Product(dims[1..])) + Linear(dims[1..], rest)
  {
    assert ([k] + rest)[1..] == rest;
  }

  /** Row `k` of the slowest dimension holds the numbers from k * (row length). */
  lemma UnrankRow(dims: seq<nat>, k: nat, j: nat, n: nat)
    requires dims != [] && k < dims[0] && j < Product(dims[1..])
    requires n == Times(k, Product(dims[1..])) + j
    ensures n < Product(dims)
    ensures Unrank(dims, n) == [k] + Unrank(dims[1..], j)
  {
    var rest := Unrank(dims[1..], j);
    UnrankLinear(dims[1..], j);
    RowPosition(dims, k, rest);
    UnrankUnique(dims, [k] + rest, n);
  }

  lemma {:induction false} ProductConcat(a: seq<nat>, b: seq<nat>)
    ensures Product(a + b) == Times(Product(a), Product(b))
  {
    if a == [] {
      assert a + b == b;
    } else {
      ProductConcat(a[1..], b);
      assert (a + b)[1..] == a[1..] + b;
      TimesAssoc(a[0], Product(a[1..]), Product(b));
    }
  }

  lemma ProductLast(dims: seq<nat>, c: nat)
    ensures Product(dims + [c]) == Times(Product(dims), c)
  {
    ProductConcat(dims, [c]);
    TimesOne(c);
  }

  lemma {:induction false} LinearLast(dims: seq<nat>, c: nat, pos: seq<nat>, x: nat)
    requires |pos| == |dims|
    ensures Linear(dims + [c], pos + [x]) == Times(Linear(dims, pos), c) + x
  {
    if dims == [] {
      assert dims + [c] == [c] && pos + [x] == [x];
      TimesOne(x);
    } else {
      assert (dims + [c])[1..] == dims[1..] + [c];
      assert (pos + [x])[1..] == pos[1..] + [x];
      LinearLast(dims[1..], c, pos[1..], x);
      ProductLast(dims[1..], c);
      TimesAssoc(pos[0], Product(dims[1..]), c);
      TimesAddLeft(Times(pos[0], Product(dims[1..])), Linear(dims[1..], pos[1..]), c);
    }
  }

  /** The index as arithmetic: the sizes multiplied up, and each coordinate added behind those of the slower dimensions. */
  lemma RowMajor(dims: seq<nat>, c: nat, pos: seq<nat>, x: nat)
    requires |pos| == |dims|
    ensures Product([]) == 1 && Product(dims + [c]) == Product(dims) * c
    ensures Linear([], []) == 0 && Linear(dims + [c], pos + [x]) == Linear(dims, pos) * c + x
  {
    ProductLast(dims, c);
    LinearLast(dims, c, pos, x);
    TimesIs(Product(dims), c);
    TimesIs(Linear(dims, pos), c);
  }

  lemma InRangeSnoc(dims: seq<nat>, c: nat, pos: seq<nat>, x: nat)
    requires InRange(dims, pos) && x < c
    ensures InRange(dims + [c], pos + [x])
  {
  }

  /** The digit of the fastest dimension is the remainder by its size. */
  lemma UnrankLast(dims: seq<nat>, c: nat, k: nat)
    requires k < Product(dims + [c])
    ensures 0 < c && Quot(k, c) < Product(dims)
    ensures Unrank(dims + [c], k) == Unrank(dims, Quot(k, c)) + [Rem(k, c)]
  {
    ProductLast(dims, c);
    hide Product, Linear, Unrank, Times, Quot, Rem;
    QuotBound(k, Product(dims), c);
    QuotRem(k, c);
    var q, r := Quot(k, c), Rem(k, c);
    var front := Unrank(dims, q);
    InRangeSnoc(dims, c, front, r);
    UnrankLinear(dims, q);
    LinearLast(dims, c, front, r);
    UnrankUnique(dims + [c], front + [r], k);
  }

  lemma {:induction false} ProductPositive(dims: seq<nat>)
    requires forall i :: 0 <= i < |dims| ==> 1 <= dims[i]
    ensures 1 <= Product(dims)
  {
    if dims == [] {
    } else {
      ProductPositive(dims[1..]);
      TimesPositive(dims[0], Product(dims[1..]));
    }
  }

  lemma {:induction false} ProductMonotone(a: seq<nat>, b: seq<nat>)
    requires |a| == |b|
    requires forall i :: 0 <= i < |a| ==> a[i] <= b[i]
    ensures Product(a) <= Product(b)
  {
    if a == [] {
    } else {
      ProductMonotone(a[1..], b[1..]);
      TimesMonotone(a[0], b[0], Product(a[1..]));
      TimesMonotoneRight(b[0], Product(a[1..]), Product(b[1..]));
    }
  }

  // ----- the linear index as the readers compute it

  /**
    Two nested accumulation loops. The lengths of `dims` and `pos` are compared
    first; a mismatch is the routine's only error.
  */
  method IndexNDTo1D(dims: seq<nat>, pos: seq<nat>) returns (ok: bool, sum: nat)
    ensures ok <==> |dims| == |pos|
    ensures ok ==> sum == Linear(dims, pos)
  {
    if |dims| != |pos| {
      return false, 0;
    }
    ok, sum := true, 0;
    var start: nat, p: nat := 1, 0;
    while p < |pos|
      invariant 0 <= p <= |pos| && start == p + 1
      invariant Linear(dims, pos) == sum + Linear(dims[p..], pos[p..])
    {
      var m: nat, j := 1, start;
      while j < |dims|
        invariant start <= j <= |dims|
        invariant Times(m, Product(dims[j..])) == Product(dims[start..])
      {
        assert dims[j..][1..] == dims[j + 1..];
        TimesAssoc(m, dims[j], Product(dims[j + 1..]));
        TimesIs(m, dims[j]);
        m := m * dims[j];
        j := j + 1;
      }
      assert dims[p..][1..] == dims[start..] && pos[p..][1..] == pos[start..];
      TimesOne(m);
      TimesCommutes(m, pos[p]);
      TimesIs(m, pos[p]);
      sum := sum + m * pos[p];
      start := start + 1;
      p := p + 1;
    }
  }
}
