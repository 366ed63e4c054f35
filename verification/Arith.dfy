/**
  Products and quotients of natural numbers as recursive functions. Index
  arithmetic is stated with these, and reasoned about through the laws below,
  so that the solver's heuristics for nonlinear arithmetic are needed only in
  `TimesIs`.
*/
module Arith {

  function Times(a: nat, b: nat): nat
  {
    if a == 0 then 0 else Times(a - 1, b) + b
  }

  function Quot(k: nat, p: nat): nat
    requires 0 < p
  {
    if k < p then 0 else 1 + Quot(k - p, p)
  }

  function Rem(k: nat, p: nat): (r: nat)
    requires 0 < p
    ensures r < p
  {
    if k < p then k else Rem(k - p, p)
  }

  lemma {:induction false} TimesIs(a: nat, b: nat)
    ensures Times(a, b) == a * b
  {
    if a == 0 {
    } else {
      TimesIs(a - 1, b);
      assert (a - 1) * b + b == a * b;
    }
  }

  /** Dividing a product by one of its factors. */
  lemma QuotientOfProduct(n: nat, w: nat, m: nat)
    requires 0 < w && m == Times(n, w)
    ensures m / w == n
  {
    var q := m / w;
    TimesIs(q, w);
    if q < n {
      TimesMonotone(q, n, w);
    } else if n < q {
      TimesMonotone(n, q, w);
    }
  }

  lemma TimesOne(a: nat)
    ensures Times(1, a) == a && Times(a, 1) == a && Times(a, 0) == 0
  {
    TimesIs(a, 1);
    TimesIs(a, 0);
  }

  lemma {:induction false} TimesAddLeft(a: nat, b: nat, c: nat)
    ensures Times(a + b, c) == Times(a, c) + Times(b, c)
  {
    if b == 0 {
    } else {
      TimesAddLeft(a, b - 1, c);
    }
  }

  lemma {:induction false} TimesAddRight(a: nat, b: nat, c: nat)
    ensures Times(a, b + c) == Times(a, b) + Times(a, c)
  {
    if a == 0 {
    } else {
      TimesAddRight(a - 1, b, c);
    }
  }

  lemma {:induction false} TimesAssoc(a: nat, b: nat, c: nat)
    ensures Times(Times(a, b), c) == Times(a, Times(b, c))
  {
    if a == 0 {
    } else {
      TimesAssoc(a - 1, b, c);
      TimesAddLeft(Times(a - 1, b), b, c);
    }
  }

  lemma {:induction false} TimesCommutes(a: nat, b: nat)
    ensures Times(a, b) == Times(b, a)
  {
    TimesIs(a, b);
    TimesIs(b, a);
  }

  lemma TimesMonotone(a: nat, b: nat, c: nat)
    requires a <= b
    ensures Times(a, c) <= Times(b, c)
    ensures a < b ==> Times(a, c) + c <= Times(b, c)
  {
    TimesAddLeft(a, b - a, c);
    if a < b {
      TimesAddLeft(1, b - a - 1, c);
    }
  }

  lemma TimesMonotoneRight(a: nat, b: nat, c: nat)
    requires b <= c
    ensures Times(a, b) <= Times(a, c)
  {
    TimesAddRight(a, b, c - b);
  }

  lemma TimesPositive(a: nat, b: nat)
    requires 1 <= a
    ensures b <= Times(a, b)
    ensures 1 <= b ==> a <= Times(a, b)
  {
    TimesMonotone(1, a, b);
    if 1 <= b {
      TimesMonotoneRight(a, 1, b);
      TimesOne(a);
    }
  }

  lemma {:induction false} QuotRem(k: nat, p: nat)
    requires 0 < p
    ensures Times(Quot(k, p), p) + Rem(k, p) == k
  {
    if k < p {
    } else {
      QuotRem(k - p, p);
    }
  }

  lemma {:induction false} QuotRemUnique(q: nat, p: nat, r: nat)
    requires r < p
    ensures Quot(Times(q, p) + r, p) == q && Rem(Times(q, p) + r, p) == r
  {
    if q == 0 {
    } else {
      QuotRemUnique(q - 1, p, r);
      assert Times(q, p) + r - p == Times(q - 1, p) + r;
    }
  }

  lemma QuotBound(k: nat, q: nat, p: nat)
    requires k < Times(q, p)
    ensures 0 < p && 0 < q && Quot(k, p) < q
  {
    TimesOne(q);
    QuotRem(k, p);
    if q <= Quot(k, p) {
      TimesMonotone(q, Quot(k, p), p);
    }
  }
}
