/**
  The memory cache keeps the bytes of whole variables and answers later
  requests, under either protocol, by subsetting them. Entries may be evicted at
  any time.
*/
module MemCache {
  import opened Arith
  import opened Common
  import opened Cells
  import opened Grid
  import opened Hyperslab
  import opened Enumerate
  import opened DiskCache
  import DiskProtocol
  import opened CFArray
  import SharedCache

  // ----- the cache objects

  class HDF5DataMemCache<E> {
    var databuf: seq<E>

    constructor ()
      ensures databuf == []
    {
      databuf := [];
    }

    method SetDatabuf(buf: seq<E>)
      modifies this
      ensures databuf == buf
    {
      databuf := buf;
    }
  }

  ghost predicate Sub<K, V>(t: map<K, V>, s: map<K, V>)
  {
    t.Keys <= s.Keys && forall k :: k in t ==> t[k] == s[k]
  }

  class ObjMemCache<E> {
    var entries: map<string, HDF5DataMemCache<E>>

    constructor ()
      ensures entries == map[] && Contents() == map[]
    {
      entries := map[];
    }

    ghost function Contents(): map<string, seq<E>>
      reads this, entries.Values
    {
      map k | k in entries :: entries[k].databuf
    }

    method Get(key: string) returns (e: HDF5DataMemCache?<E>)
      ensures e == if key in entries then entries[key] else null
    {
      e := if key in entries then entries[key] else null;
    }

    /** Adds an entry and drops those that the size limit asks for. */
    method Add(e: HDF5DataMemCache<E>, key: string, dropped: set<string>)
      modifies this
      ensures entries == old(entries)[key := e] - dropped
    {
      entries := entries[key := e] - dropped;
    }
  }

  // ----- what the cache answers, on values

  /** The bytes of a variable as the memory cache keeps them. */
  function Whole(v: Variable): seq<byte>
  {
    Flatten(v.data)
  }

  function ZeroBytes(n: nat): (r: seq<byte>)
    ensures |r| == n && forall i :: 0 <= i < n ==> r[i] == 0
  {
    seq(n, i => 0)
  }

  ghost predicate Fitting(v: Variable, buf: seq<byte>, s: Slab)
  {
    && Shaped(s, |v.dims|)
    && Covers(View(buf, AtomicSize(v.dtype)), s, v.dims)
  }

  /**
    What is sent for the selected elements of a cached buffer. The shorts made
    for a signed char under DAP2 are not the ones that are sent: the selected
    bytes are sent as if they were shorts, so half of the answer is whatever
    lies `beyond` them.
  */
  function SentAfterHit(v: Variable, val: seq<Cell>, beyond: seq<byte>): seq<Cell>
    requires Wide(val, AtomicSize(v.dtype)) && |val| <= |beyond|
  {
    if Promoted(v.dtype, v.isDap4) then
      FlattenLength(val, 1);
      TimesOne(|val|);
      View(BytesAt(Flatten(val), beyond, 2 * |val|), 2)
    else
      val
  }

  /** The answer from a cached buffer. */
  function HitAnswer(v: Variable, buf: seq<byte>, s: Slab, beyond: seq<byte>): seq<Cell>
    requires Fitting(v, buf, s) && Product(s.count) <= |beyond|
  {
    SentAfterHit(v, Select(View(buf, AtomicSize(v.dtype)), s, v.dims), beyond)
  }

  /** A buffer with the variable's own bytes answers every request like a direct read. */
  lemma FaithfulHit(v: Variable, s: Slab, beyond: seq<byte>)
    requires v.Valid() && Fits(s, v.dims) && !Promoted(v.dtype, v.isDap4) && Product(s.count) <= |beyond|
    ensures Fitting(v, Whole(v), s) && Covers(v.data, s, v.dims)
    ensures HitAnswer(v, Whole(v), s, beyond) == v.Answer(s)
  {
    ViewFlatten(v.data, AtomicSize(v.dtype));
    FitsCovers(v.data, s, v.dims);
    DeliverSelect(v, s);
    assert Delivered(v.dtype, v.isDap4, v.data) == v.data;
  }

  lemma ByteBehind(b: seq<byte>, pad: seq<byte>, n: nat, k: nat)
    requires n <= |b| + |pad| && |b| + k < n
    ensures BytesAt(b, pad, n)[|b| + k] == pad[k]
  {
  }

  /** The last of `n` shorts made of `n` selected bytes ends in a byte that was not selected. */
  lemma LastShort(val: seq<Cell>, beyond: seq<byte>, n: nat)
    requires Wide(val, 1) && |val| == n && 1 <= n <= |beyond|
    ensures |Flatten(val)| == n
    ensures var sent := View(BytesAt(Flatten(val), beyond, 2 * n), 2);
            |sent| == n && |sent[n - 1]| == 2 && sent[n - 1][1] == beyond[n - 1]
  {
    hide Flatten, View, Times;
    FlattenLength(val, 1);
    TimesOne(n);
    TimesIs(n, 2);
    TimesIs(n - 1, 2);
    var flat := Flatten(val);
    var all := BytesAt(flat, beyond, 2 * n);
    ByteBehind(flat, beyond, 2 * n, n - 1);
    ViewAt(all, 2, n, n - 1);
    assert View(all, 2)[n - 1][1] == all[2 * n - 1];
  }

  /**
    A hit can be relied on to answer like a direct read, whatever the memory
    after the selected bytes holds, exactly when the variable is not a signed
    char under DAP2.
  */
  lemma HitTransparentIff(v: Variable, s: Slab)
    requires v.Valid() && Fits(s, v.dims)
    ensures Fitting(v, Whole(v), s) && Covers(v.data, s, v.dims)
    ensures (forall beyond: seq<byte> :: |beyond| == Product(s.count) ==> HitAnswer(v, Whole(v), s, beyond) == v.Answer(s))
       <==> !Promoted(v.dtype, v.isDap4)
  {
    ViewFlatten(v.data, AtomicSize(v.dtype));
    FitsCovers(v.data, s, v.dims);
    if Promoted(v.dtype, v.isDap4) {
      var n := Product(s.count);
      SelectedEnds(s, v.dims);
      var beyond := seq(n, i => 7);
      LastShort(Select(v.data, s, v.dims), beyond, n);
      assert v.Answer(s)[n - 1] == Short(Select(v.data, s, v.dims)[n - 1][0]);
      assert HitAnswer(v, Whole(v), s, beyond) != v.Answer(s);
    } else {
      forall beyond: seq<byte> | |beyond| == Product(s.count)
        ensures HitAnswer(v, Whole(v), s, beyond) == v.Answer(s)
      {
        FaithfulHit(v, s, beyond);
      }
    }
  }

  lemma {:induction false} FlattenBytes(cells: seq<Cell>, i: nat)
    requires Wide(cells, 1) && i < |cells|
    ensures |Flatten(cells)| == |cells| && Flatten(cells)[i] == cells[i][0]
  {
    FlattenLength(cells, 1);
    TimesOne(|cells|);
    if i != 0 {
      FlattenBytes(cells[1..], i - 1);
    }
  }

  /**
    What is sent for a signed char under DAP2: of n selected characters the
    first half, two at a time, and then the bytes behind them. Anything else is
    sent as it is selected.
  */
  lemma HitSends(v: Variable, buf: seq<byte>, s: Slab, beyond: seq<byte>)
    requires Fitting(v, buf, s) && Product(s.count) <= |beyond|
    ensures !(v.dtype == H5CHAR && !v.isDap4) ==> HitAnswer(v, buf, s, beyond) == Select(View(buf, AtomicSize(v.dtype)), s, v.dims)
    ensures v.dtype == H5CHAR && !v.isDap4 ==>
              var n, chars, sent := Product(s.count), Select(View(buf, 1), s, v.dims), HitAnswer(v, buf, s, beyond);
              && |sent| == n
              && forall j :: 0 <= j < n ==>
                   sent[j] == [if 2 * j < n then chars[2 * j][0] else beyond[2 * j - n],
                               if 2 * j + 1 < n then chars[2 * j + 1][0] else beyond[2 * j + 1 - n]]
  {
    if v.dtype == H5CHAR && !v.isDap4 {
      var n, chars := Product(s.count), Select(View(buf, 1), s, v.dims);
      PairsSent(chars, beyond, n);
      forall j | 0 <= j < n
        ensures HitAnswer(v, buf, s, beyond)[j]
             == [if 2 * j < n then chars[2 * j][0] else beyond[2 * j - n],
                 if 2 * j + 1 < n then chars[2 * j + 1][0] else beyond[2 * j + 1 - n]]
      {
        PairSent(chars, beyond, n, j);
      }
    }
  }

  lemma PairsSent(chars: seq<Cell>, beyond: seq<byte>, n: nat)
    requires Wide(chars, 1) && |chars| == n <= |beyond|
    ensures |Flatten(chars)| == n && |View(BytesAt(Flatten(chars), beyond, 2 * n), 2)| == n
  {
    FlattenLength(chars, 1);
    TimesOne(n);
    TimesIs(n, 2);
    FlattenView(BytesAt(Flatten(chars), beyond, 2 * n), 2, n);
  }

  lemma PairSent(chars: seq<Cell>, beyond: seq<byte>, n: nat, j: nat)
    requires Wide(chars, 1) && |chars| == n <= |beyond| && j < n
    ensures |Flatten(chars)| == n
    ensures var sent := View(BytesAt(Flatten(chars), beyond, 2 * n), 2);
            && |sent| == n
            && sent[j] == [if 2 * j < n then chars[2 * j][0] else beyond[2 * j - n],
                           if 2 * j + 1 < n then chars[2 * j + 1][0] else beyond[2 * j + 1 - n]]
  {
    FlattenLength(chars, 1);
    TimesOne(n);
    TimesIs(n, 2);
    TimesIs(j, 2);
    if 2 * j < n {
      FlattenBytes(chars, 2 * j);
    }
    if 2 * j + 1 < n {
      FlattenBytes(chars, 2 * j + 1);
    }
    hide Flatten, View, Times;
    var all := BytesAt(Flatten(chars), beyond, 2 * n);
    ViewAt(all, 2, n, j);
    assert all[2 * j..2 * j + 2] == [all[2 * j], all[2 * j + 1]];
  }

  /** The slab that selects everything. */
  function WholeSlab(dims: seq<nat>): (s: Slab)
    ensures Shaped(s, |dims|)
  {
    Slab(Zeros(|dims|), seq(|dims|, i => 1), dims)
  }

  lemma WholeSlabFits(dims: seq<nat>)
    requires forall i :: 0 <= i < |dims| ==> 1 <= dims[i]
    ensures Fits(WholeSlab(dims), dims)
  {
    forall i | 0 <= i < |dims|
      ensures Times(dims[i] - 1, 1) == dims[i] - 1
    {
      TimesOne(dims[i] - 1);
    }
  }

  lemma SameSizeFits(v: Variable, buf: seq<byte>, s: Slab)
    requires v.Valid() && Fits(s, v.dims) && |buf| == |Whole(v)|
    ensures Fitting(v, buf, s)
  {
    FlattenLength(v.data, AtomicSize(v.dtype));
    FlattenView(buf, AtomicSize(v.dtype), |v.data|);
    FitsCovers(View(buf, AtomicSize(v.dtype)), s, v.dims);
  }

  /**
    A miss that the disk cache answers stores a buffer that was never filled.
    That entry answers every later request like a direct read exactly when the
    variable consists of zero bytes.
  */
  lemma UnfilledEntryTransparentIff(v: Variable)
    requires v.Valid() && !Promoted(v.dtype, v.isDap4) && forall i :: 0 <= i < |v.dims| ==> 1 <= v.dims[i]
    ensures (forall s: Slab, beyond: seq<byte> :: Fits(s, v.dims) && Product(s.count) <= |beyond| ==>
               Fitting(v, ZeroBytes(|Whole(v)|), s) && Covers(v.data, s, v.dims)
               && HitAnswer(v, ZeroBytes(|Whole(v)|), s, beyond) == v.Answer(s))
       <==> Whole(v) == ZeroBytes(|Whole(v)|)
  {
    var zeros, all := ZeroBytes(|Whole(v)|), WholeSlab(v.dims);
    if Whole(v) == zeros {
      forall s: Slab, beyond: seq<byte> | Fits(s, v.dims) && Product(s.count) <= |beyond|
        ensures Fitting(v, zeros, s) && Covers(v.data, s, v.dims) && HitAnswer(v, zeros, s, beyond) == v.Answer(s)
      {
        FaithfulHit(v, s, beyond);
      }
    } else {
      WholeSlabFits(v.dims);
      UnfilledEntryShows(v, zeros, all, ZeroBytes(Product(v.dims)));
    }
  }

  lemma UnfilledEntryShows(v: Variable, zeros: seq<byte>, all: Slab, beyond: seq<byte>)
    requires v.Valid() && !Promoted(v.dtype, v.isDap4) && all == WholeSlab(v.dims) && Fits(all, v.dims)
    requires zeros == ZeroBytes(|Whole(v)|) && Whole(v) != zeros && Product(all.count) <= |beyond|
    ensures Fitting(v, zeros, all) && Covers(v.data, all, v.dims)
    ensures HitAnswer(v, zeros, all, beyond) != v.Answer(all)
  {
    var w := AtomicSize(v.dtype);
    SameSizeFits(v, zeros, all);
    FlattenLength(v.data, w);
    FlattenView(zeros, w, |v.data|);
    FullCountIsWholeArray(v.data, all, v.dims);
    FullCountIsWholeArray(View(zeros, w), all, v.dims);
    assert Delivered(v.dtype, v.isDap4, v.data) == v.data;
  }

  // ----- one request

  datatype Origin = Hit | Miss(source: Source)

  datatype HandleError = EmptyBuffer | NoElements | NoDimensions | ReadFailed(error: ReadError) | Malformed(start: nat, stop: nat)

  /** What happens to the cache: a request is served from it or past it, or entries disappear. */
  datatype Event =
    | Served(key: string, isDap4: bool, s: Slab, origin: Origin, answer: seq<Cell>, beyond: seq<byte>)
    | Evicted

  type Owners = map<string, Variable>

  /** Every key belongs to one variable, under either protocol, and its buffer has that variable's size. */
  ghost predicate Sized(contents: map<string, seq<byte>>, owner: Owners)
  {
    forall k :: k in contents ==> k in owner && owner[k].Valid() && |contents[k]| == |Whole(owner[k])|
  }

  /** ... and its bytes. */
  ghost predicate Faithful(contents: map<string, seq<byte>>, owner: Owners)
  {
    forall k :: k in contents ==> k in owner && owner[k].Valid() && contents[k] == Whole(owner[k])
  }

  /** What a miss leaves in the cache: the buffer is filled only by a read from the data file. */
  function Stored(v: Variable, source: Source): (buf: seq<byte>)
    ensures |buf| == |Whole(v)|
  {
    if source.FromDataFile? then Whole(v) else ZeroBytes(|Whole(v)|)
  }

  /** What a file that some process has left in the disk cache, of the right size, makes of the request. */
  ghost predicate DiskAnswer(v: Variable, s: Slab, answer: seq<Cell>)
    requires v.Valid() && Fits(s, v.dims)
  {
    exists seen: seq<byte> :: IsDiskAnswer(v, s, answer, seen)
  }

  ghost predicate IsDiskAnswer(v: Variable, s: Slab, answer: seq<Cell>, seen: seq<byte>)
    requires v.Valid() && Fits(s, v.dims)
  {
    DiskProtocol.Hittable(v.CacheEntry(), v.isDap4, seen) && CFArray.Sized(v, seen) && answer == FileAnswer(v, seen, s)
  }

  ghost predicate Serves(owner: Owners, s: map<string, seq<byte>>, t: map<string, seq<byte>>, e: Event)
  {
    match e
    case Evicted => Sub(t, s)
    case Served(key, d, slab, origin, answer, beyond) =>
      && key in owner && owner[key].Valid()
      && var v := owner[key].Under(d);
         && Fits(slab, v.dims) && Covers(v.data, slab, v.dims) && Product(slab.count) <= |beyond|
         && if key in s then
              origin == Hit && Sub(t, s) && Fitting(v, s[key], slab) && answer == HitAnswer(v, s[key], slab, beyond)
            else
              && origin.Miss? && Sub(t, s[key := Stored(v, origin.source)])
              && if origin.source == FromDataFile then answer == v.Answer(slab) else DiskAnswer(v, slab, answer)
  }

  lemma SizedEntry(contents: map<string, seq<byte>>, owner: Owners, key: string)
    requires Sized(contents, owner) && key in contents
    ensures key in owner && |contents[key]| == |Whole(owner[key])|
  {
  }

  lemma ServesKeepsSizes(owner: Owners, s: map<string, seq<byte>>, t: map<string, seq<byte>>, e: Event)
    requires Sized(s, owner) && Serves(owner, s, t, e)
    ensures Sized(t, owner)
  {
    hide ZeroBytes, HitAnswer, Fitting, Covers, DiskAnswer, Flatten, Fits;
  }

  /** Subsets a cached buffer for the constraint of the request. */
  method ReadDataFromMemCache(arr: HDF5CFArray, buf: seq<byte>, constraint: seq<Dim>, beyond: seq<byte>)
    returns (r: Result<Origin, HandleError>, ghost s: Slab)
    requires arr.v.Valid() && OnArray(constraint, arr.v.dims) && |arr.v.data| <= |beyond|
    requires |buf| == |Whole(arr.v)|
    modifies arr
    ensures arr.v.dims == [] ==> r == Err(NoDimensions)
    ensures arr.v.dims != [] ==> (r.Ok? <==> Legal(constraint))
    ensures r.Ok? ==> SlabOf(constraint, s) && Fits(s, arr.v.dims) && Fitting(arr.v, buf, s) && r.value == Hit
                      && Product(s.count) <= |beyond| && arr.value == HitAnswer(arr.v, buf, s, beyond)
  {
    s := Slab([], [], []);
    if |arr.v.dims| == 0 {
      return Err(NoDimensions), s;
    }
    var nelms, slab := ConstraintToSlab(constraint);
    if nelms.MalformedExpr? {
      return Err(Malformed(nelms.start, nelms.stop)), s;
    }
    s := slab;
    LegalFits(constraint, s);
    AllCountsFit(constraint, s, arr.v.dims);
    SameSizeFits(arr.v, buf, s);
    var val := SubsetAll(View(buf, AtomicSize(arr.v.dtype)), arr.v.dims, slab);
    arr.SetValue(SentAfterHit(arr.v, val, beyond));
    r := Ok(Hit);
  }

  /** A new entry for the whole buffer. */
  method AddEntry<E>(mem: ObjMemCache<E>, key: string, buf: seq<E>, dropped: set<string>)
    modifies mem
    ensures mem.Contents() == old(mem.Contents())[key := buf] - dropped
  {
    var element := new HDF5DataMemCache<E>();
    element.SetDatabuf(buf);
    mem.Add(element, key, dropped);
  }

  lemma NonemptySizes(constraint: seq<Dim>, dims: seq<nat>)
    requires OnArray(constraint, dims)
    ensures 1 <= Product(dims)
  {
    ProductPositive(dims);
  }

  lemma NonemptyWhole(v: Variable, constraint: seq<Dim>)
    requires v.Valid() && OnArray(constraint, v.dims)
    ensures 1 <= |Whole(v)|
  {
    NonemptySizes(constraint, v.dims);
    FlattenLength(v.data, AtomicSize(v.dtype));
    TimesPositive(|v.data|, AtomicSize(v.dtype));
  }

  lemma AllCountsFit(constraint: seq<Dim>, s: Slab, dims: seq<nat>)
    requires OnArray(constraint, dims) && SlabOf(constraint, s)
    ensures Product(s.count) <= Product(dims)
  {
    hide Product, Times;
    CountsFitArray(constraint, s, |constraint|);
    assert s.count[..|constraint|] == s.count;
  }

  lemma StoredIs(v: Variable, source: Source, buf: seq<byte>)
    requires buf == if source == FromDataFile then Flatten(v.data) else ZeroBytes(|Whole(v)|)
    ensures buf == Stored(v, source)
  {
  }

  /** A buffer for the whole variable, not yet filled. */
  method NewBuffer(v: Variable, totalElems: nat) returns (buf: array<byte>)
    requires v.Valid() && totalElems == Product(v.dims)
    ensures fresh(buf) && buf.Length == |Flatten(v.data)| && buf[..] == ZeroBytes(|Whole(v)|)
  {
    hide Times, Product, Flatten;
    TimesIs(totalElems, AtomicSize(v.dtype));
    FlattenLength(v.data, AtomicSize(v.dtype));
    buf := new byte[totalElems * AtomicSize(v.dtype)](i => 0);
  }

  /** A miss: the variable is read past the cache, and what is to be stored with it. */
  method ReadWhole(arr: HDF5CFArray, totalElems: nat, constraint: seq<Dim>,
                   useDiskCache: bool, disk: HDF5DiskCache, io: Io, beyond: seq<byte>)
    returns (read: Result<Source, ReadError>, stored: seq<byte>, ghost s: Slab)
    requires arr.v.Valid() && OnArray(constraint, arr.v.dims) && |arr.v.data| <= |beyond|
    requires totalElems == Product(arr.v.dims) && disk.AtRest() && disk.entry == arr.v.CacheEntry()
    modifies arr, disk
    ensures read.Ok? ==> Fits(s, arr.v.dims) && Covers(arr.v.data, s, arr.v.dims) && Product(s.count) <= |beyond|
    ensures read == Ok(FromDataFile) ==> arr.value == arr.v.Answer(s)
    ensures read == Ok(FromDiskCache) ==> DiskAnswer(arr.v, s, arr.value)
    ensures read.Ok? ==> (!useDiskCache ==> read.value == FromDataFile) && stored == Stored(arr.v, read.value)
    ensures read.Err? ==> arr.v.dims == [] || !Legal(constraint) || (useDiskCache && !io.unlinkOk)
    ensures arr.v.dims == [] || !Legal(constraint) ==> read.Err?
  {
    hide Times, Product, Flatten, Select, Delivered, Whole, Stored, ZeroBytes, DiskProtocol.Inv, DiskProtocol.Left, FileAnswer;
    var buf := NewBuffer(arr.v, totalElems);
    ghost var found;
    read, s, found := arr.ReadDataNotFromMemCache(constraint, useDiskCache, disk, true, buf, io, beyond);
    stored := buf[..];
    if read.Ok? {
      assert read.value == FromDiskCache ==> IsDiskAnswer(arr.v, s, arr.value, found.value);
      AllCountsFit(constraint, s, arr.v.dims);
      StoredIs(arr.v, read.value, stored);
    }
  }

  /** ... and a new entry is added. */
  method ReadAndAdd(arr: HDF5CFArray, mem: ObjMemCache<byte>, key: string, constraint: seq<Dim>,
                    useDiskCache: bool, disk: HDF5DiskCache, io: Io, beyond: seq<byte>, dropped: set<string>)
    returns (r: Result<Origin, HandleError>, ghost s: Slab)
    requires arr.v.Valid() && OnArray(constraint, arr.v.dims) && |arr.v.data| <= |beyond|
    requires disk.AtRest() && disk.entry == arr.v.CacheEntry()
    modifies arr, mem, disk
    ensures r.Ok? ==> Fits(s, arr.v.dims) && Covers(arr.v.data, s, arr.v.dims) && Product(s.count) <= |beyond|
    ensures r == Ok(Miss(FromDataFile)) ==> arr.value == arr.v.Answer(s)
    ensures r == Ok(Miss(FromDiskCache)) ==> DiskAnswer(arr.v, s, arr.value)
    ensures r.Ok? ==> r.value.Miss? && (!useDiskCache ==> r.value.source == FromDataFile)
                      && mem.Contents() == old(mem.Contents())[key := Stored(arr.v, r.value.source)] - dropped
    ensures r.Err? ==> arr.v.dims == [] || !Legal(constraint) || (useDiskCache && !io.unlinkOk)
    ensures arr.v.dims == [] || !Legal(constraint) ==> r.Err?
    ensures r.Err? ==> mem.Contents() == old(mem.Contents())
  {
    hide Times, Product, Flatten, Select, Delivered, Whole, Stored, DiskAnswer, Covers, Fits;
    s := Slab([], [], []);
    var totalElems := HDF5CFArray.CountElements(arr.v.dims);
    NonemptySizes(constraint, arr.v.dims);
    if totalElems == 0 {
      return Err(NoElements), s;
    }
    var read, stored;
    read, stored, s := ReadWhole(arr, totalElems, constraint, useDiskCache, disk, io, beyond);
    if read.Err? {
      return Err(ReadFailed(read.error)), s;
    }
    AddEntry(mem, key, stored, dropped);
    r := Ok(Miss(read.value));
  }

  /**
    Serves a request through the memory cache. The new contents and the answer
    are those of `Serves`; in particular the entry added on a miss is complete
    if and only if the data file was read. `dropped` is what the size limit
    makes the cache drop then. Only an illegal constraint, a variable without
    dimensions and a failed removal in the disk cache are refused.
  */
  method HandleDataWithMemCache(arr: HDF5CFArray, mem: ObjMemCache<byte>, key: string, constraint: seq<Dim>,
                                useDiskCache: bool, disk: HDF5DiskCache, io: Io, beyond: seq<byte>,
                                dropped: set<string>, ghost owner: Owners)
    returns (r: Result<Origin, HandleError>, ghost s: Slab)
    requires arr.v.Valid() && OnArray(constraint, arr.v.dims) && |arr.v.data| <= |beyond|
    requires key in owner && owner[key].Under(arr.v.isDap4) == arr.v && Sized(mem.Contents(), owner)
    requires disk.AtRest() && disk.entry == arr.v.CacheEntry()
    modifies arr, mem, disk
    ensures Sized(mem.Contents(), owner)
    ensures r.Ok? ==> Serves(owner, old(mem.Contents()), mem.Contents(), Served(key, arr.v.isDap4, s, r.value, arr.value, beyond))
    ensures r.Ok? && !useDiskCache && r.value.Miss? ==> r.value.source == FromDataFile
    ensures r == Ok(Hit) ==> mem.Contents() == old(mem.Contents())
    ensures r.Ok? && r.value.Miss? ==>
              mem.Contents() == old(mem.Contents())[key := Stored(arr.v, r.value.source)] - dropped
    ensures r.Ok? ==> (r.value == Hit <==> key in old(mem.Contents()))
    ensures arr.v.dims == [] || !Legal(constraint) ==> r.Err?
    ensures r.Err? ==> arr.v.dims == [] || !Legal(constraint) || (useDiskCache && !io.unlinkOk)
    ensures r.Err? ==> mem.Contents() == old(mem.Contents())
  {
    hide Times, Product, Flatten, Select, Delivered, HitAnswer, Stored, DiskAnswer, Fitting, Whole, Covers, Fits, Sized, DiskProtocol.Inv, DiskProtocol.Left;
    s := Slab([], [], []);
    SameWhole(owner[key], arr.v.isDap4);
    var e := mem.Get(key);
    if e != null {
      SizedEntry(mem.Contents(), owner, key);
      NonemptyWhole(arr.v, constraint);
      if |e.databuf| == 0 {
        return Err(EmptyBuffer), s;
      }
      r, s := ReadDataFromMemCache(arr, e.databuf, constraint, beyond);
      if r.Ok? {
        FitsCovers(arr.v.data, s, arr.v.dims);
      }
    } else {
      r, s := ReadAndAdd(arr, mem, key, constraint, useDiskCache, disk, io, beyond, dropped);
    }
    if r.Ok? {
      ServesKeepsSizes(owner, old(mem.Contents()), mem.Contents(), Served(key, arr.v.isDap4, s, r.value, arr.value, beyond));
    }
  }

  // ----- any sequence of requests and evictions

  ghost predicate Run(owner: Owners, states: seq<map<string, seq<byte>>>, events: seq<Event>)
  {
    && |states| == |events| + 1 && states[0] == map[]
    && forall i :: 0 <= i < |events| ==> Serves(owner, states[i], states[i + 1], events[i])
  }

  /** The event's answer, if it has one, is the direct hyperslab of the variable under the protocol of the request. */
  ghost predicate AnsweredDirectly(owner: Owners, e: Event)
  {
    e.Served? ==>
      && e.key in owner && owner[e.key].Valid()
      && var v := owner[e.key].Under(e.isDap4);
         Fits(e.s, v.dims) && Covers(v.data, e.s, v.dims) && e.answer == v.Answer(e.s)
  }

  ghost predicate NeverFromDiskCache(events: seq<Event>)
  {
    forall i :: 0 <= i < |events| ==> events[i] != Evicted ==> events[i].origin != Miss(FromDiskCache)
  }

  /** All requests are under one of these protocols; `true` stands for DAP4. */
  ghost predicate Under(events: seq<Event>, protocols: set<bool>)
  {
    forall i :: 0 <= i < |events| ==> events[i].Served? ==> events[i].isDap4 in protocols
  }

  /** The disk cache answers a miss only for variables of zero bytes, if at all. */
  ghost predicate Harmless(owner: Owners, events: seq<Event>)
  {
    forall i :: 0 <= i < |events| ==> HarmlessEvent(owner, events[i])
  }

  ghost predicate HarmlessEvent(owner: Owners, e: Event)
  {
    e.Served? && e.origin == Miss(FromDiskCache) && e.key in owner ==>
      Whole(owner[e.key]) == ZeroBytes(|Whole(owner[e.key])|)
  }

  /** No request asks for a signed char under DAP2. */
  ghost predicate Unpromoted(owner: Owners, events: seq<Event>)
  {
    forall i :: 0 <= i < |events| ==> UnpromotedEvent(owner, events[i])
  }

  ghost predicate UnpromotedEvent(owner: Owners, e: Event)
  {
    e.Served? && e.key in owner ==> !Promoted(owner[e.key].dtype, e.isDap4)
  }

  lemma {:induction false} RunFaithful(owner: Owners, states: seq<map<string, seq<byte>>>, events: seq<Event>, i: nat)
    requires Run(owner, states, events) && i < |states| && Harmless(owner, events)
    ensures Faithful(states[i], owner)
  {
    hide ZeroBytes, HitAnswer, Fitting, Covers, DiskAnswer, Flatten;
    if i != 0 {
      RunFaithful(owner, states, events, i - 1);
      assert Serves(owner, states[i - 1], states[i], events[i - 1]);
      assert HarmlessEvent(owner, events[i - 1]);
    }
  }

  lemma ZeroCell(v: Variable, k: nat)
    requires v.Valid() && v.dtype == H5CHAR && Whole(v) == ZeroBytes(|Whole(v)|) && k < |v.data|
    ensures v.data[k] == [0]
  {
    FlattenLength(v.data, 1);
    ViewFlatten(v.data, 1);
    TimesOne(|v.data|);
    ViewAt(Flatten(v.data), 1, |v.data|, k);
  }

  lemma {:induction false} ZeroShorts(cells: seq<Cell>)
    requires forall i :: 0 <= i < |cells| ==> cells[i] == [0, 0]
    ensures forall i :: 0 <= i < |Flatten(cells)| ==> Flatten(cells)[i] == 0
  {
    if cells == [] {
    } else {
      ZeroShorts(cells[1..]);
    }
  }

  /** A signed char of zeros looks the same under both protocols to a DAP4 reader. */
  lemma ZeroCharHit(v: Variable, seen: seq<byte>)
    requires v.Valid() && v.dtype == H5CHAR && v.isDap4 && 1 <= |v.data| && Whole(v) == ZeroBytes(|Whole(v)|)
    requires DiskProtocol.Hittable(v.CacheEntry(), true, seen)
    ensures seen == v.Image()
  {
    SharedCache.CharImages(v);
    SharedCache.CharHittableIff(v, seen);
    DeliveredAsStored(v);
    var shorts := Delivered(H5CHAR, false, v.data);
    forall k | 0 <= k < |shorts|
      ensures shorts[k] == [0, 0]
    {
      ZeroCell(v, k);
    }
    ZeroShorts(shorts);
    hide Flatten, Delivered, Product, Times, DiskProtocol.Left;
    assert v.CacheEntry().dap2.image[..|v.data|] == v.Image();
  }

  /** What the disk cache answers is direct for every variable of zero bytes that is not promoted. */
  lemma HarmlessDiskAnswer(v: Variable, s: Slab, answer: seq<Cell>)
    requires v.Valid() && Fits(s, v.dims) && DiskAnswer(v, s, answer)
    requires !Promoted(v.dtype, v.isDap4) && Whole(v) == ZeroBytes(|Whole(v)|)
    ensures Covers(v.data, s, v.dims) && answer == v.Answer(s)
  {
    hide Flatten, Delivered, Product, Times, Linear, Select, FileAnswer, DiskProtocol.Left, Whole, ZeroBytes;
    var seen: seq<byte> :| IsDiskAnswer(v, s, answer, seen);
    HittableAnswers(v, seen, s);
    ImageAnswers(v, s);
    if v.dtype == H5CHAR {
      NonemptyData(v, s);
      ZeroCharHit(v, seen);
    }
  }

  lemma NonemptyData(v: Variable, s: Slab)
    requires v.Valid() && Fits(s, v.dims)
    ensures 1 <= |v.data|
  {
    hide Product, Linear, LastPos;
    SelectedEndIndices(s, v.dims);
  }

  /**
    Transparency: over any sequence of constrained requests and arbitrary
    evictions every answer is the direct one, provided that no request asks for
    a signed char under DAP2 and the disk cache answers misses of variables of
    zero bytes only.
  */
  lemma RunTransparent(owner: Owners, states: seq<map<string, seq<byte>>>, events: seq<Event>, i: nat)
    requires Run(owner, states, events) && i < |events| && Harmless(owner, events) && Unpromoted(owner, events)
    ensures AnsweredDirectly(owner, events[i])
  {
    hide ZeroBytes, HitAnswer, Fitting, Covers, DiskAnswer, Flatten, Whole, Select, Product;
    RunFaithful(owner, states, events, i);
    var e := events[i];
    assert Serves(owner, states[i], states[i + 1], e);
    assert HarmlessEvent(owner, e) && UnpromotedEvent(owner, e);
    if e.Served? {
      var v := owner[e.key].Under(e.isDap4);
      SameWhole(owner[e.key], e.isDap4);
      if e.key in states[i] {
        FaithfulHit(v, e.s, e.beyond);
      } else if e.origin == Miss(FromDiskCache) {
        HarmlessDiskAnswer(v, e.s, e.answer);
      }
    }
  }

  /** What the memory cache keeps does not depend on the protocol. */
  lemma SameWhole(v: Variable, d: bool)
    ensures Whole(v.Under(d)) == Whole(v)
  {
  }

  /** Every answer of every run of requests under these protocols, with or without the disk cache, is direct. */
  ghost predicate Transparent(owner: Owners, withDiskCache: bool, protocols: set<bool>)
  {
    forall states: seq<map<string, seq<byte>>>, events: seq<Event>, i: nat ::
      Run(owner, states, events) && i < |events| && Under(events, protocols) && (withDiskCache || NeverFromDiskCache(events)) ==>
        AnsweredDirectly(owner, events[i])
  }

  /** A request that misses and is answered directly, from the data file or the disk cache, then one that hits. */
  lemma MissThenHit(v: Variable, key: string, s: Slab, source: Source, beyond: seq<byte>)
    returns (states: seq<map<string, seq<byte>>>, events: seq<Event>)
    requires v.Valid() && Fits(s, v.dims) && Covers(v.data, s, v.dims) && Product(s.count) <= |beyond|
    requires Fitting(v, Stored(v, source), s)
    ensures Run(map[key := v], states, events) && |events| == 2 && Under(events, {v.isDap4})
    ensures source == FromDataFile ==> NeverFromDiskCache(events)
    ensures events[1] == Served(key, v.isDap4, s, Hit, HitAnswer(v, Stored(v, source), s, beyond), beyond)
  {
    OwnDiskAnswer(v, s);
    hide Stored, HitAnswer, Fitting, Covers, Product, DiskAnswer;
    var entry := map[key := Stored(v, source)];
    states := [map[], entry, entry];
    events := [Served(key, v.isDap4, s, Miss(source), v.Answer(s), beyond),
               Served(key, v.isDap4, s, Hit, HitAnswer(v, Stored(v, source), s, beyond), beyond)];
    assert map[][key := Stored(v, source)] == entry;
    assert Serves(map[key := v], states[0], states[1], events[0]);
    assert Serves(map[key := v], states[1], states[2], events[1]);
  }

  /** The image itself is among what may be found. */
  lemma OwnDiskAnswer(v: Variable, s: Slab)
    requires v.Valid() && Fits(s, v.dims) && Covers(v.data, s, v.dims)
    ensures DiskAnswer(v, s, v.Answer(s))
  {
    ImageAnswers(v, s);
    hide Flatten, Delivered, Product, Times, Linear, Select, FileAnswer;
    assert DiskProtocol.Begun(v.CacheContent(), v.Image());
    assert IsDiskAnswer(v, s, v.Answer(s), v.Image());
  }

  /** A signed char asked for under DAP2: a run without the disk cache with a wrong answer. */
  lemma PromotedShows(v: Variable, key: string)
    requires v.Valid() && forall i :: 0 <= i < |v.dims| ==> 1 <= v.dims[i]
    requires Promoted(v.dtype, v.isDap4)
    ensures !Transparent(map[key := v], false, {false}) && !Transparent(map[key := v], true, {false})
  {
    var s := WholeSlab(v.dims);
    WholeSlabFits(v.dims);
    HitTransparentIff(v, s);
    var beyond: seq<byte> :| |beyond| == Product(s.count) && HitAnswer(v, Whole(v), s, beyond) != v.Answer(s);
    var states, events := MissThenHit(v, key, s, FromDataFile, beyond);
    assert !AnsweredDirectly(map[key := v], events[1]);
  }

  /** A nonzero variable: a run with the disk cache with a wrong answer. */
  lemma NonzeroShows(v: Variable, key: string)
    requires v.Valid() && forall i :: 0 <= i < |v.dims| ==> 1 <= v.dims[i]
    requires !Promoted(v.dtype, v.isDap4) && Whole(v) != ZeroBytes(|Whole(v)|)
    ensures !Transparent(map[key := v], true, {v.isDap4})
  {
    var s := WholeSlab(v.dims);
    WholeSlabFits(v.dims);
    var beyond := ZeroBytes(Product(v.dims));
    UnfilledEntryShows(v, ZeroBytes(|Whole(v)|), s, beyond);
    var states, events := MissThenHit(v, key, s, FromDiskCache, beyond);
    assert !AnsweredDirectly(map[key := v], events[1]);
  }

  /** The owner's own protocol plays no part, and more protocols make transparency harder. */
  lemma TransparentUnder(v: Variable, d: bool, key: string, withDiskCache: bool, protocols: set<bool>)
    requires Transparent(map[key := v], withDiskCache, protocols) && d in protocols
    ensures Transparent(map[key := v.Under(d)], withDiskCache, {d})
  {
    hide ZeroBytes, HitAnswer, Fitting, Covers, DiskAnswer, Flatten, Whole, Stored;
    var a, b := map[key := v], map[key := v.Under(d)];
    forall states: seq<map<string, seq<byte>>>, events: seq<Event>, i: nat
      | Run(b, states, events) && i < |events| && Under(events, {d}) && (withDiskCache || NeverFromDiskCache(events))
      ensures AnsweredDirectly(b, events[i])
    {
      forall j | 0 <= j < |events|
        ensures Serves(a, states[j], states[j + 1], events[j])
      {
        assert Serves(b, states[j], states[j + 1], events[j]);
      }
      assert Run(a, states, events) && Under(events, protocols);
      assert AnsweredDirectly(a, events[i]);
    }
  }

  lemma AlwaysTransparent(v: Variable, key: string, withDiskCache: bool, protocols: set<bool>)
    requires v.Valid() && !(v.dtype == H5CHAR && false in protocols)
    requires withDiskCache ==> Whole(v) == ZeroBytes(|Whole(v)|)
    ensures Transparent(map[key := v], withDiskCache, protocols)
  {
    hide ZeroBytes, Whole, AnsweredDirectly, Run;
    var owner := map[key := v];
    forall states: seq<map<string, seq<byte>>>, events: seq<Event>, i: nat
      | Run(owner, states, events) && i < |events| && Under(events, protocols) && (withDiskCache || NeverFromDiskCache(events))
      ensures AnsweredDirectly(owner, events[i])
    {
      forall j | 0 <= j < |events|
        ensures HarmlessEvent(owner, events[j]) && UnpromotedEvent(owner, events[j])
      {
      }
      RunTransparent(owner, states, events, i);
    }
  }

  /**
    Without the disk cache a variable is served transparently under these
    protocols if and only if it is not a signed char asked for under DAP2.
  */
  lemma TransparentIff(v: Variable, key: string, protocols: set<bool>)
    requires v.Valid() && forall i :: 0 <= i < |v.dims| ==> 1 <= v.dims[i]
    ensures Transparent(map[key := v], false, protocols) <==> !(v.dtype == H5CHAR && false in protocols)
  {
    hide Transparent;
    if v.dtype == H5CHAR && false in protocols {
      PromotedShows(v.Under(false), key);
      if Transparent(map[key := v], false, protocols) {
        TransparentUnder(v, false, key, false, protocols);
      }
    } else {
      AlwaysTransparent(v, key, false, protocols);
    }
  }

  /** With the disk cache it is if and only if, besides, it consists of zero bytes. */
  lemma TransparentWithDiskCacheIff(v: Variable, key: string, protocols: set<bool>)
    requires v.Valid() && (forall i :: 0 <= i < |v.dims| ==> 1 <= v.dims[i]) && (true in protocols || false in protocols)
    ensures Transparent(map[key := v], true, protocols)
       <==> !(v.dtype == H5CHAR && false in protocols) && Whole(v) == ZeroBytes(|Whole(v)|)
  {
    hide Transparent, Whole, ZeroBytes;
    if v.dtype == H5CHAR && false in protocols {
      PromotedShows(v.Under(false), key);
      if Transparent(map[key := v], true, protocols) {
        TransparentUnder(v, false, key, true, protocols);
      }
    } else if Whole(v) != ZeroBytes(|Whole(v)|) {
      var d := true in protocols;
      SameWhole(v, d);
      NonzeroShows(v.Under(d), key);
      if Transparent(map[key := v], true, protocols) {
        TransparentUnder(v, d, key, true, protocols);
      }
    } else {
      AlwaysTransparent(v, key, true, protocols);
    }
  }
}
