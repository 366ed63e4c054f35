/**
  A buffer of bytes seen as elements of a fixed width, the way the readers cast
  an untyped buffer to an array of the element type.
*/
module Cells {
  import opened Arith
  import opened Common

  ghost predicate Wide(cells: seq<Cell>, w: nat)
  {
    forall i :: 0 <= i < |cells| ==> |cells[i]| == w
  }

  function Flatten(cells: seq<Cell>): seq<byte>
  {
    if cells == [] then [] else cells[0] + Flatten(cells[1..])
  }

  /** The typed view of a buffer; bytes short of a whole element are not part of it. */
  function View(buf: seq<byte>, w: nat): (cells: seq<Cell>)
    requires 0 < w
    ensures Wide(cells, w)
  {
    if |buf| < w then [] else [buf[..w]] + View(buf[w..], w)
  }

  lemma {:induction false} FlattenLength(cells: seq<Cell>, w: nat)
    requires Wide(cells, w)
    ensures |Flatten(cells)| == Times(|cells|, w)
  {
    if cells == [] {
    } else {
      FlattenLength(cells[1..], w);
    }
  }

  lemma {:induction false} FlattenConcat(a: seq<Cell>, b: seq<Cell>)
    ensures Flatten(a + b) == Flatten(a) + Flatten(b)
  {
    if a == [] {
      assert a + b == b;
    } else {
      FlattenConcat(a[1..], b);
      assert (a + b)[1..] == a[1..] + b;
      ConcatAssoc(a[0], Flatten(a[1..]), Flatten(b));
    }
  }

  /** Viewing what was laid out gives back the elements. */
  lemma {:induction false} ViewFlatten(cells: seq<Cell>, w: nat)
    requires 0 < w && Wide(cells, w)
    ensures View(Flatten(cells), w) == cells
  {
    if cells == [] {
    } else {
      ViewFlatten(cells[1..], w);
      assert Flatten(cells)[..w] == cells[0] && Flatten(cells)[w..] == Flatten(cells[1..]);
    }
  }

  /** A window of elements is a window of bytes. */
  lemma FlattenWindow(cells: seq<Cell>, w: nat, lo: nat, hi: nat)
    requires Wide(cells, w) && lo <= hi <= |cells|
    ensures Times(lo, w) <= Times(hi, w) <= |Flatten(cells)|
    ensures Times(hi, w) == Times(lo, w) + Times(hi - lo, w)
    ensures Flatten(cells)[Times(lo, w)..Times(hi, w)] == Flatten(cells[lo..hi])
  {
    var a, b, c := cells[..lo], cells[lo..hi], cells[hi..];
    assert cells == a + (b + c);
    FlattenConcat(a, b + c);
    FlattenConcat(b, c);
    FlattenLength(a, w);
    FlattenLength(b, w);
    TimesAddLeft(lo, hi - lo, w);
  }

  /** A layout that is all there is determined by its elements. */
  lemma {:induction false} FlattenView(buf: seq<byte>, w: nat, n: nat)
    requires 0 < w && |buf| == Times(n, w)
    ensures Flatten(View(buf, w)) == buf && |View(buf, w)| == n
  {
    if n == 0 {
    } else {
      FlattenView(buf[w..], w, n - 1);
      assert View(buf, w)[1..] == View(buf[w..], w);
    }
  }

  lemma {:induction false} ViewAt(buf: seq<byte>, w: nat, n: nat, k: nat)
    requires 0 < w && |buf| == Times(n, w) && k < n
    ensures |View(buf, w)| == n && Times(k, w) + w <= |buf|
    ensures View(buf, w)[k] == buf[Times(k, w)..Times(k, w) + w]
  {
    FlattenView(buf, w, n);
    TimesMonotone(k, n, w);
    if k != 0 {
      ViewAt(buf[w..], w, n - 1, k - 1);
      assert View(buf, w)[1..] == View(buf[w..], w);
    }
  }
}
