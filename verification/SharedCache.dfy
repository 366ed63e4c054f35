/**
  One cache file for two protocols: requests for a signed char under DAP2 and
  under DAP4 use the same name, but expect and write different bytes. What may
  be found under the name, and when every hit is right nevertheless.
*/
module SharedCache {
  import opened Arith
  import opened Common
  import opened Cells
  import opened Grid
  import opened Hyperslab
  import opened CFArray
  import opened DiskProtocol

  /** The bytes of a signed char as they are stored, and as a DAP2 reader expects them. */
  lemma CharImages(v: Variable)
    requires v.Valid() && v.dtype == H5CHAR
    ensures v.CacheEntry().dap4.image == Flatten(v.data) && |Flatten(v.data)| == |v.data|
    ensures |v.CacheEntry().dap2.image| == 2 * |v.data|
    ensures v.CacheEntry().dap2.total == v.CacheEntry().dap4.total == 2 * |v.data|
  {
    hide Flatten, Delivered, Product, Times;
    DeliveredAsStored(v.Under(true));
    FlattenLength(v.data, 1);
    FlattenLength(Delivered(H5CHAR, false, v.data), 2);
    TimesIs(|v.data|, 2);
    TimesIs(|v.data|, 1);
  }

  /** What a reader of a signed char takes for its image: that, or what the writer of the other protocol has left. */
  lemma CharHittableIff(v: Variable, file: seq<byte>)
    requires v.Valid() && v.dtype == H5CHAR && 1 <= |v.data|
    ensures var shorts, chars := v.CacheEntry().dap2.image, v.CacheEntry().dap4.image;
            && (Hittable(v.CacheEntry(), false, file) <==> file == shorts || (|file| == |shorts| && chars <= file))
            && |v.data| <= |shorts|
            && (Hittable(v.CacheEntry(), true, file) <==> file == chars || file == shorts[..|v.data|])
  {
    CharImages(v);
    hide Flatten, Delivered, Product, Times, Variable.CacheEntry;
    EntryHittable(v.CacheEntry(), |v.data|, file);
  }

  lemma EntryHittable(e: Entry, n: nat, file: seq<byte>)
    requires 1 <= n == |e.dap4.image| && |e.dap2.image| == 2 * n == e.dap2.total == e.dap4.total
    ensures Hittable(e, false, file) <==> file == e.dap2.image || (|file| == |e.dap2.image| && e.dap4.image <= file)
    ensures Hittable(e, true, file) <==> file == e.dap4.image || file == e.dap2.image[..n]
  {
    if |file| == n {
      assert file <= e.dap2.image <==> file == e.dap2.image[..n];
    }
  }

  // ----- runs

  /** Every hit of every run that starts without the file is the requested bytes of the requester's own image. */
  ghost predicate EveryHitRight(e: Entry, crashes: bool)
  {
    forall run: seq<System>, i: nat, p: Pid ::
      Run(e, crashes, run) && run[0].file == None && i < |run| ==> !WrongHit(e, At(run[i], p))
  }

  lemma RunMayCrash(e: Entry, run: seq<System>, crashes: bool)
    requires Run(e, false, run)
    ensures Run(e, crashes, run)
  {
    hide Step, Crash;
    forall i | 0 < i < |run|
      ensures Moves(e, crashes, run[i - 1], run[i])
    {
      assert Moves(e, false, run[i - 1], run[i]);
    }
  }

  /**
    Requests under both protocols are answered right by every run, with deaths
    or without, if and only if the variable is not a signed char.
  */
  lemma EveryHitRightIff(v: Variable, crashes: bool)
    requires v.Valid() && 1 <= |v.data|
    ensures EveryHitRight(v.CacheEntry(), crashes) <==> v.dtype != H5CHAR
  {
    hide Variable.CacheEntry, WrongHit, At;
    var e := v.CacheEntry();
    if v.dtype == H5CHAR {
      var run, last := WrongHitUnderDap2(v, 0);
      RunMayCrash(e, run, crashes);
      assert WrongHit(e, At(run[|run| - 1], 0));
    } else {
      AgreeUnlessChar(v);
      forall run: seq<System>, i: nat, p: Pid | Run(e, crashes, run) && run[0].file == None && i < |run|
        ensures !WrongHit(e, At(run[i], p))
      {
        HitsAreComplete(e, crashes, run, i, p);
      }
    }
  }

  /** What a DAP4 request for everything writes: the characters and whatever follows them in memory. */
  lemma CharPayload(v: Variable, beyond: seq<byte>)
    requires v.Valid() && v.dtype == H5CHAR && v.isDap4 && |v.data| <= |beyond|
    ensures Times(|v.data|, PassedSize(v.dtype)) <= |Flatten(v.data)| + |beyond|
    ensures DiskProtocol.Payload(v.CacheEntry().dap4, CFArray.Payload(v, v.data, beyond))
    ensures CFArray.Payload(v, v.data, beyond) == Flatten(v.data) + beyond[..|v.data|]
  {
    hide Flatten, Delivered, Product, Times, BytesAt;
    PaddingSuffices(v, beyond);
    DoubledPayload(v, v.data, beyond);
    CharImages(v);
    TimesIs(|v.data|, 2);
    BytesAtIs(Flatten(v.data), beyond, |v.data|);
  }

  lemma BytesAtIs(b: seq<byte>, pad: seq<byte>, k: nat)
    requires k <= |pad|
    ensures BytesAt(b, pad, |b| + k) == b + pad[..k]
  {
  }

  /**
    For every signed char there is a run, without deaths, in which a DAP2
    request is answered from what a DAP4 request has written, and wrongly.
  */
  lemma WrongHitUnderDap2(v: Variable, p: Pid) returns (run: seq<System>, last: System)
    requires v.Valid() && v.dtype == H5CHAR && 1 <= |v.data|
    ensures Run(v.CacheEntry(), false, run) && run[0].file == None && |run| > 0 && run[|run| - 1] == last
    ensures At(last, p).Hit? && !At(last, p).isDap4 && WrongHit(v.CacheEntry(), At(last, p))
  {
    var e, n := v.CacheEntry(), |v.data|;
    CharImages(v);
    hide Flatten, Delivered, Product, Times, Variable.CacheEntry, CFArray.Payload, Run, At;
    var expected := e.dap2.image[2 * n - 1];
    var beyond := seq(n, i => if expected == 0 then 1 else 0);
    CharPayload(v.Under(true), beyond);
    var payload := CFArray.Payload(v.Under(true), v.data, beyond);
    assert payload[2 * n - 1] == beyond[n - 1] != expected;
    run, last := OtherProtocolHits(e, false, payload, 0, 2 * n, p);
    assert e.dap2.image[0..2 * n] == e.dap2.image;
    assert payload[0..2 * n] == payload;
  }

  /**
    With deaths the reverse happens too: what a DAP2 request has written when it
    dies half-way is a hit for DAP4, right only if it happens to be the same.
  */
  lemma CutWriteHitsUnderDap4(v: Variable, p: Pid) returns (run: seq<System>, last: System)
    requires v.Valid() && v.dtype == H5CHAR && 1 <= |v.data|
    ensures Run(v.CacheEntry(), true, run) && run[0].file == None && |run| > 0 && run[|run| - 1] == last
    ensures At(last, p).Hit? && At(last, p).isDap4 && |v.data| <= |v.CacheEntry().dap2.image|
    ensures WrongHit(v.CacheEntry(), At(last, p)) <==> v.CacheEntry().dap2.image[..|v.data|] != Flatten(v.data)
  {
    var e, n := v.CacheEntry(), |v.data|;
    CharImages(v);
    hide Flatten, Delivered, Product, Times, Variable.CacheEntry, Run, At;
    var shorts := e.dap2.image;
    run, last := OtherProtocolHits(e, true, shorts, 0, n, p);
    assert e.dap4.image[0..n] == e.dap4.image && shorts[0..n] == shorts[..n];
  }

  /** Without deaths, no DAP4 request for a signed char is ever answered from the cache. */
  lemma CharNeverHitUnderDap4(v: Variable, run: seq<System>, i: nat, p: Pid)
    requires v.Valid() && v.dtype == H5CHAR && 1 <= |v.data|
    requires Run(v.CacheEntry(), false, run) && i < |run| && run[0].file == None
    ensures At(run[i], p) != Validated(true)
  {
    CharImages(v);
    hide Flatten, Delivered, Product, Times, Variable.CacheEntry, Run, At;
    ShorterIsNeverHit(v.CacheEntry(), run, i, p, true);
  }

  /**
    The characters 5 and 6: a DAP4 request for the second one leaves 5, 6, 0, 0,
    and a DAP2 request for the second one is answered 0 from it instead of 6.
  */
  lemma SixBecomesZero(p: Pid) returns (run: seq<System>, last: System)
    ensures var v := Variable([2], H5CHAR, true, [[5], [6]]);
            && v.Valid() && CFArray.Payload(v, [[6]], [0, 0]) == [5, 6, 0, 0]
            && v.CacheEntry().dap2.image == [5, 0, 6, 0]
            && Run(v.CacheEntry(), false, run) && |run| > 0 && run[|run| - 1] == last
    ensures At(last, p) == Hit(false, [5, 6, 0, 0], 2, 4, [0, 0])
  {
    var v := Variable([2], H5CHAR, true, [[5], [6]]);
    TwoChars();
    CharImages(v);
    hide Flatten, Delivered, Product, Times, Variable.CacheEntry, CFArray.Payload, Run, At;
    var payload: seq<byte> := [5, 6, 0, 0];
    assert [5, 6] <= payload;
    run, last := OtherProtocolHits(v.CacheEntry(), false, payload, 2, 4, p);
    assert payload[2..4] == [0, 0] && payload[..4] == payload;
  }

  lemma TwoChars()
    ensures var v := Variable([2], H5CHAR, true, [[5], [6]]);
            && v.Valid() && Flatten(v.data) == [5, 6] && Times(2, PassedSize(H5CHAR)) == 4
            && CFArray.Payload(v, [[6]], [0, 0]) == [5, 6, 0, 0] && v.Under(false).Image() == [5, 0, 6, 0]
  {
    var data: seq<Cell> := [[5], [6]];
    var v := Variable([2], H5CHAR, true, data);
    TimesIs(2, 2);
    TimesOne(2);
    assert Product([2]) == 2;
    FlattenPair([5], [6]);
    var shorts := Delivered(H5CHAR, false, data);
    assert shorts == [[5, 0], [6, 0]];
    FlattenPair([5, 0], [6, 0]);
    hide Flatten;
    assert CFArray.Payload(v, [[6]], [0, 0]) == BytesAt([5, 6], seq(4, i => 0), 4);
    assert ([5, 6] + seq(4, i => 0))[..4] == [5, 6, 0, 0];
  }

  lemma FlattenPair(a: Cell, b: Cell)
    ensures Flatten([a, b]) == a + b
  {
    assert [a, b][1..] == [b] && [b][1..] == [];
    assert Flatten([b]) == b + [] == b;
  }
}
