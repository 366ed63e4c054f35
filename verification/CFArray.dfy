/**
  Reading a numeric CF array past the memory cache: from the disk cache if a
  complete image of the variable is there, otherwise from the data file, in
  which case the image is written for the next reader.
*/
module CFArray {
  import opened Arith
  import opened Common
  import opened Cells
  import opened Grid
  import opened Hyperslab
  import opened Enumerate
  import opened DiskCache
  import DiskProtocol

  datatype H5DataType = H5CHAR | H5UCHAR | H5INT16 | H5UINT16 | H5INT32 | H5UINT32 | H5INT64 | H5UINT64 | H5FLOAT32 | H5FLOAT64

  function AtomicSize(t: H5DataType): (w: nat)
    ensures 1 <= w
  {
    match t
    case H5CHAR => 1
    case H5UCHAR => 1
    case H5INT16 => 2
    case H5UINT16 => 2
    case H5INT32 => 4
    case H5UINT32 => 4
    case H5FLOAT32 => 4
    case H5FLOAT64 => 8
    case H5INT64 => 8
    case H5UINT64 => 8
  }

  lemma BitsOf(t: H5DataType)
    ensures t == H5CHAR || t == H5UCHAR ==> 8 * AtomicSize(t) == 8
    ensures t == H5INT16 || t == H5UINT16 ==> 8 * AtomicSize(t) == 16
    ensures t == H5INT32 || t == H5UINT32 || t == H5FLOAT32 ==> 8 * AtomicSize(t) == 32
    ensures t == H5INT64 || t == H5UINT64 || t == H5FLOAT64 ==> 8 * AtomicSize(t) == 64
  {
  }

  /** DAP2 has no signed byte: one is promoted to a (little-endian) short. */
  function Promoted(t: H5DataType, isDap4: bool): bool
  {
    t == H5CHAR && !isDap4
  }

  /** The short has the value of the byte: both are in two's complement, the short with its low byte first. */
  function Short(b: byte): (c: Cell)
    ensures |c| == 2
    ensures c[0] as int + 256 * c[1] as int - (if c[1] < 128 then 0 else 65536) == b as int - (if b < 128 then 0 else 256)
  {
    [b, if 128 <= b then 255 else 0]
  }

  /** Width of an element as it is delivered and as the disk cache stores it. */
  function DeliveredSize(t: H5DataType, isDap4: bool): (w: nat)
    ensures 1 <= w
  {
    if Promoted(t, isDap4) then 2 else AtomicSize(t)
  }

  /** The values a reader sends for stored elements. */
  function Delivered(t: H5DataType, isDap4: bool, stored: seq<Cell>): (r: seq<Cell>)
    requires Wide(stored, AtomicSize(t))
    ensures |r| == |stored| && Wide(r, DeliveredSize(t, isDap4))
    ensures forall i :: 0 <= i < |r| ==> r[i] == if Promoted(t, isDap4) then Short(stored[i][0]) else stored[i]
  {
    seq(|stored|, i requires 0 <= i < |stored| =>
      if Promoted(t, isDap4) then Short(stored[i][0]) else stored[i])
  }

  /** Each sent short, its low byte first, has the value of the stored byte, both in two's complement. */
  ghost predicate SameNumbers(stored: seq<Cell>, sent: seq<Cell>)
  {
    && |sent| == |stored|
    && forall i :: 0 <= i < |sent| ==>
         && |stored[i]| == 1 && |sent[i]| == 2
         && sent[i][0] as int + 256 * sent[i][1] as int - (if sent[i][1] < 128 then 0 else 65536)
            == stored[i][0] as int - (if stored[i][0] < 128 then 0 else 256)
  }

  /** What is sent for the selected elements, value by value. */
  lemma AnswerNumbers(v: Variable, s: Slab)
    requires v.Valid() && Fits(s, v.dims) && Covers(v.data, s, v.dims)
    ensures if v.dtype == H5CHAR && !v.isDap4 then SameNumbers(Select(v.data, s, v.dims), v.Answer(s))
            else v.Answer(s) == Select(v.data, s, v.dims)
  {
    hide Product, Linear, SelectedIndex;
  }

  /** A variable: what its dataset holds and how it is to be delivered. */
  datatype Variable = Variable(dims: seq<nat>, dtype: H5DataType, isDap4: bool, data: seq<Cell>)
  {
    ghost predicate Valid()
    {
      Wide(data, AtomicSize(dtype)) && |data| == Product(dims)
    }

    /** The complete file of the disk cache. */
    function Image(): seq<byte>
      requires Valid()
    {
      Flatten(Delivered(dtype, isDap4, data))
    }

    /** What belongs into the cache file: the image, of which a signed char under DAP4 is written with as much again behind it. */
    function CacheContent(): (c: DiskProtocol.Content)
      requires Valid()
      ensures c.image == Image()
    {
      DiskProtocol.Content(Image(), if dtype == H5CHAR && isDap4 then |Image()| + |Image()| else |Image()|)
    }

    /** The same dataset, requested under DAP2 or under DAP4. */
    function Under(d: bool): (v: Variable)
      ensures Valid() ==> v.Valid()
      ensures d == isDap4 ==> v == this
    {
      this.(isDap4 := d)
    }

    /** What belongs under the name of the cache file, which is the same for both protocols. */
    function CacheEntry(): (e: DiskProtocol.Entry)
      requires Valid()
      ensures e.Of(isDap4) == CacheContent()
    {
      DiskProtocol.Entry(Under(false).CacheContent(), Under(true).CacheContent())
    }

    /** What a request for the slab `s` must be answered. */
    function Answer(s: Slab): seq<Cell>
      requires Valid() && Shaped(s, |dims|) && Covers(data, s, dims)
    {
      Delivered(dtype, isDap4, Select(data, s, dims))
    }
  }

  /** A constraint that libdap accepts on an array of these sizes, except perhaps start > stop. */
  ghost predicate OnArray(constraint: seq<Dim>, dims: seq<nat>)
  {
    && Sizes(constraint) == dims
    && forall i :: 0 <= i < |constraint| ==> 1 <= constraint[i].stride && constraint[i].stop < constraint[i].size
  }

  // ----- the window of the cached image

  lemma DeliverSelect(v: Variable, s: Slab)
    requires v.Valid() && Fits(s, v.dims)
    ensures Covers(v.data, s, v.dims) && Covers(Delivered(v.dtype, v.isDap4, v.data), s, v.dims)
    ensures v.Answer(s) == Select(Delivered(v.dtype, v.isDap4, v.data), s, v.dims)
  {
    FitsCovers(v.data, s, v.dims);
    FitsCovers(Delivered(v.dtype, v.isDap4, v.data), s, v.dims);
  }

  lemma ImageLength(v: Variable)
    requires v.Valid()
    ensures |v.Image()| == Times(Product(v.dims), DeliveredSize(v.dtype, v.isDap4))
  {
    FlattenLength(Delivered(v.dtype, v.isDap4, v.data), DeliveredSize(v.dtype, v.isDap4));
  }

  /** A file of the size of the image has as many elements as the variable. */
  ghost predicate Sized(v: Variable, file: seq<byte>)
  {
    v.Valid() && |file| == |v.Image()|
  }

  lemma SizedCells(v: Variable, file: seq<byte>, w: nat)
    requires Sized(v, file) && w == DeliveredSize(v.dtype, v.isDap4)
    ensures |file| == Times(Product(v.dims), w) && |View(file, w)| == Product(v.dims) && Flatten(View(file, w)) == file
  {
    ImageLength(v);
    FlattenView(file, w, Product(v.dims));
  }

  /** The byte window of a file, seen as elements. */
  lemma FileWindow(v: Variable, file: seq<byte>, w: nat, first: nat, last: nat)
    requires Sized(v, file) && w == DeliveredSize(v.dtype, v.isDap4) && first <= last < Product(v.dims)
    ensures |View(file, w)| == Product(v.dims)
    ensures Times(first, w) + Times(last - first + 1, w) <= |file|
    ensures View(file[Times(first, w)..Times(first, w) + Times(last - first + 1, w)], w) == View(file, w)[first..last + 1]
  {
    var cells := View(file, w);
    SizedCells(v, file, w);
    FlattenWindow(cells, w, first, last + 1);
    ViewFlatten(cells[first..last + 1], w);
  }

  /** What the elements of a file of the right size make of a request. */
  function FileAnswer(v: Variable, file: seq<byte>, s: Slab): seq<Cell>
    requires Sized(v, file) && Fits(s, v.dims)
  {
    SizedCells(v, file, DeliveredSize(v.dtype, v.isDap4));
    FitsCovers(View(file, DeliveredSize(v.dtype, v.isDap4)), s, v.dims);
    Select(View(file, DeliveredSize(v.dtype, v.isDap4)), s, v.dims)
  }

  /** The j-th element of the answer is the bytes of the j-th selected element in the file. */
  lemma FileAnswerAt(v: Variable, file: seq<byte>, s: Slab, j: nat)
    requires Sized(v, file) && Fits(s, v.dims) && j < Product(s.count)
    ensures var w, k := DeliveredSize(v.dtype, v.isDap4), SelectedIndex(s, v.dims, j);
            && k * w + w <= |file| && |FileAnswer(v, file, s)| == Product(s.count)
            && FileAnswer(v, file, s)[j] == file[k * w..k * w + w]
  {
    var w, k := DeliveredSize(v.dtype, v.isDap4), SelectedIndex(s, v.dims, j);
    SizedCells(v, file, w);
    SelectedInRange(s, v.dims, j);
    LinearBound(v.dims, SelectedPos(s, j));
    ViewAt(file, w, Product(v.dims), k);
    TimesIs(k, w);
    hide Product, Times, View, Linear, SelectedIndex, Flatten, Delivered;
  }

  /** The image answers every request directly. */
  lemma ImageAnswers(v: Variable, s: Slab)
    requires v.Valid() && Fits(s, v.dims)
    ensures Sized(v, v.Image()) && Covers(v.data, s, v.dims) && FileAnswer(v, v.Image(), s) == v.Answer(s)
  {
    hide Product, Linear, Select, Delivered, Flatten, View;
    DeliverSelect(v, s);
    ViewFlatten(Delivered(v.dtype, v.isDap4, v.data), DeliveredSize(v.dtype, v.isDap4));
  }

  /**
    A window with as many elements as are selected is the selection as it
    stands; any window re-selected from zero is the selection.
  */
  lemma WindowAnswers<T>(all: seq<T>, s: Slab, dims: seq<nat>, window: seq<T>, first: nat, last: nat)
    requires Fits(s, dims) && |all| == Product(dims)
    requires first == Linear(dims, s.start) && last == Linear(dims, LastPos(s))
    requires first <= last < |all| && window == all[first..last + 1]
    ensures Covers(all, s, dims) && Covers(window, FromZero(s), dims)
    ensures Select(window, FromZero(s), dims) == Select(all, s, dims)
    ensures Product(s.count) == last - first + 1 ==> window == Select(all, s, dims)
  {
    hide Product, Linear, Select;
    WindowSelection(all, s, dims, window);
    ContiguousWindow(all, s, dims, window, first, last);
  }

  // ----- what is written to the cache

  /** The element size the reader passes along: 2 for every signed char. */
  function PassedSize(t: H5DataType): (w: nat)
    ensures 1 <= w
  {
    if t == H5CHAR then 2 else AtomicSize(t)
  }

  /** The first `n` bytes at an address where `b` is stored, followed by `pad`. */
  function BytesAt(b: seq<byte>, pad: seq<byte>, n: nat): (r: seq<byte>)
    requires n <= |b| + |pad|
    ensures |r| == n && (n == |b| ==> r == b)
  {
    (b + pad)[..n]
  }

  /**
    The bytes handed to the cache. `sent` are the elements just read for the
    request and `beyond` is what follows them in memory. Unless they happen to
    be as many as the variable has, the whole variable is read again.
  */
  function Payload(v: Variable, sent: seq<Cell>, beyond: seq<byte>): (r: seq<byte>)
    requires v.Valid() && Wide(sent, AtomicSize(v.dtype))
    requires |sent| == |v.data| ==> Times(|v.data|, PassedSize(v.dtype)) <= |Flatten(sent)| + |beyond|
  {
    var n := Times(|v.data|, PassedSize(v.dtype));
    if Promoted(v.dtype, v.isDap4) then
      Flatten(Delivered(v.dtype, v.isDap4, if |sent| == |v.data| then sent else v.data))
    else if |sent| == |v.data| then
      BytesAt(Flatten(sent), beyond, n)
    else
      BytesAt(Flatten(v.data), seq(n, i => 0), n)
  }

  lemma DeliveredAsStored(v: Variable)
    requires v.Valid() && !Promoted(v.dtype, v.isDap4)
    ensures v.Image() == Flatten(v.data)
  {
    assert Delivered(v.dtype, v.isDap4, v.data) == v.data;
  }

  lemma PaddingSuffices(v: Variable, beyond: seq<byte>)
    requires v.Valid() && |v.data| <= |beyond|
    ensures Times(|v.data|, PassedSize(v.dtype)) <= |Flatten(v.data)| + |beyond|
  {
    FlattenLength(v.data, AtomicSize(v.dtype));
    TimesIs(|v.data|, PassedSize(v.dtype));
    TimesIs(|v.data|, AtomicSize(v.dtype));
  }

  /**
    The cache receives the image first, and exactly the image when the variable
    is not a signed char under DAP4. That one gets a file of twice the size that
    the next DAP4 reader expects, and of the size that a DAP2 reader expects.
  */
  lemma PayloadIsImage(v: Variable, s: Slab, sent: seq<Cell>, beyond: seq<byte>)
    requires v.Valid() && Fits(s, v.dims) && Covers(v.data, s, v.dims) && sent == Select(v.data, s, v.dims)
    requires |v.data| <= |beyond|
    ensures |sent| == |v.data| ==> sent == v.data
    ensures Times(|v.data|, PassedSize(v.dtype)) <= |Flatten(v.data)| + |beyond|
    ensures Payload(v, sent, beyond) == v.Image() <==> !(v.dtype == H5CHAR && v.isDap4)
    ensures DiskProtocol.Payload(v.CacheContent(), Payload(v, sent, beyond))
  {
    hide Product, Linear, Flatten, Delivered, Select, Times;
    FullCountIsWholeArray(v.data, s, v.dims);
    PaddingSuffices(v, beyond);
    if v.dtype == H5CHAR && v.isDap4 {
      DoubledNeverMatches(v, s);
      TimesIs(|v.data|, 2);
      TimesOne(|v.data|);
      TimesCommutes(|v.data|, 1);
      DoubledPayload(v, sent, beyond);
    } else if !Promoted(v.dtype, v.isDap4) {
      DeliveredAsStored(v);
      FlattenLength(v.data, AtomicSize(v.dtype));
    }
  }

  lemma BytesAtStart(b: seq<byte>, pad: seq<byte>, n: nat)
    requires |b| <= n <= |b| + |pad|
    ensures b <= BytesAt(b, pad, n)
  {
  }

  /** A signed char under DAP4: the image, and as many bytes behind it. */
  lemma DoubledPayload(v: Variable, sent: seq<Cell>, beyond: seq<byte>)
    requires v.Valid() && v.dtype == H5CHAR && v.isDap4 && Wide(sent, 1) && |v.data| <= |beyond|
    requires |sent| == |v.data| ==> sent == v.data
    requires Times(|v.data|, 2) <= |Flatten(v.data)| + |beyond|
    ensures |Payload(v, sent, beyond)| == |v.Image()| + |v.Image()| && v.Image() <= Payload(v, sent, beyond)
    ensures |v.Image()| == |v.data|
  {
    hide Flatten, Delivered, Times;
    DeliveredAsStored(v);
    FlattenLength(v.data, 1);
    TimesIs(|v.data|, 2);
    TimesOne(|v.data|);
    var n := Times(|v.data|, 2);
    BytesAtStart(Flatten(v.data), beyond, n);
    BytesAtStart(Flatten(v.data), seq(n, i => 0), n);
  }

  lemma DoubledNeverMatches(v: Variable, s: Slab)
    requires v.Valid() && Fits(s, v.dims) && v.dtype == H5CHAR
    ensures Times(|v.data|, 2) != Times(|v.data|, 1)
  {
    SelectedEnds(s, v.dims);
    SelectedInRange(s, v.dims, 0);
    LinearBound(v.dims, SelectedPos(s, 0));
    TimesIs(|v.data|, 2);
    TimesIs(|v.data|, 1);
  }

  /** The protocols agree on every variable but a signed char. */
  lemma AgreeUnlessChar(v: Variable)
    requires v.Valid() && v.dtype != H5CHAR
    ensures DiskProtocol.Agree(v.CacheEntry())
  {
    assert Delivered(v.dtype, false, v.data) == Delivered(v.dtype, true, v.data);
  }

  /** For such a variable every hit is the image, and its answer direct. */
  lemma HittableAnswers(v: Variable, file: seq<byte>, s: Slab)
    requires v.Valid() && Fits(s, v.dims) && DiskProtocol.Hittable(v.CacheEntry(), v.isDap4, file)
    ensures Sized(v, file) && Covers(v.data, s, v.dims)
    ensures v.dtype != H5CHAR ==> file == v.Image() && FileAnswer(v, file, s) == v.Answer(s)
  {
    hide Product, Linear, Select, Delivered, Flatten, View, FileAnswer, DiskProtocol.Left;
    ImageAnswers(v, s);
    if v.dtype != H5CHAR {
      AgreeUnlessChar(v);
      DiskProtocol.AgreedHittable(v.CacheEntry(), v.isDap4, file);
    }
  }

  // ----- the reader

  datatype ReadError = RankNotPositive | BadConstraint(start: nat, stop: nat) | NoMemoryBuffer | WriteFailed

  datatype Source = FromDiskCache | FromDataFile

  class HDF5CFArray {
    const v: Variable
    var value: seq<Cell>
    var readP: bool

    constructor (v: Variable)
      ensures this.v == v
    {
      this.v := v;
      value, readP := [], false;
    }

    method SetValue(cells: seq<Cell>)
      modifies this
      ensures value == cells && readP
    {
      value, readP := cells, true;
    }

    static method CountElements(counts: seq<nat>) returns (n: nat)
      ensures n == Product(counts)
    {
      n := 1;
      var i := 0;
      while i < |counts|
        invariant 0 <= i <= |counts| && n == Product(counts[..i])
      {
        ProductLast(counts[..i], counts[i]);
        assert counts[..i + 1] == counts[..i] + [counts[i]];
        TimesIs(n, counts[i]);
        n := n * counts[i];
        i := i + 1;
      }
      assert counts[..i] == counts;
    }

    /**
      Answers from the elements of the window: as they stand if they are as many
      as were selected, otherwise re-selected with every start at zero.
    */
    method SendWindow(cells: seq<Cell>, nelems: nat, step: seq<nat>, count: seq<nat>,
                      ghost all: seq<Cell>, ghost s: Slab, ghost first: nat, ghost last: nat)
      requires v.dims != [] && Fits(s, v.dims) && step == s.step && count == s.count && |all| == Product(v.dims)
      requires first == Linear(v.dims, s.start) && last == Linear(v.dims, LastPos(s)) && first <= last < |all|
      requires cells == all[first..last + 1] && nelems == last - first + 1
      modifies this
      ensures Covers(all, s, v.dims) && value == Select(all, s, v.dims) && readP
    {
      hide Product, Linear, Select;
      WindowAnswers(all, s, v.dims, cells, first, last);
      var neleToRead := CountElements(count);
      if neleToRead == nelems {
        SetValue(cells);
      } else {
        var final := SubsetAll(cells, v.dims, Slab(Zeros(|v.dims|), step, count));
        SetValue(final);
      }
    }

    /**
      Reads the byte window from the cache file, releases the lock, and answers
      from the window as the whole file would be answered from. After a short
      read it asks for the file's removal and answers nothing.
    */
    method ObtainCachedData(cache: HDF5DiskCache, step: seq<nat>, count: seq<nat>, totalRead: nat, w: nat, got: nat,
                            ghost s: Slab, ghost first: nat, ghost last: nat) returns (ok: bool, ghost seen: seq<byte>)
      requires v.Valid() && v.dims != [] && Fits(s, v.dims) && step == s.step && count == s.count
      requires first == Linear(v.dims, s.start) && last == Linear(v.dims, LastPos(s)) && first <= last < |v.data|
      requires w == DeliveredSize(v.dtype, v.isDap4) && totalRead == Times(last - first + 1, w)
      requires cache.Sound() && cache.Phase() == DiskProtocol.Validated(v.isDap4) && cache.fpos == Times(first, w)
      requires cache.file.Some? && Sized(v, cache.file.value)
      modifies this, cache
      ensures cache.AtRest() && cache.lock == NoLock
      ensures ok <==> totalRead <= got
      ensures old(cache.file) == Some(seen) && Sized(v, seen)
      ensures ok ==> value == FileAnswer(v, seen, s) && readP
      ensures !ok ==> value == old(value) && cache.HasMissed(v.isDap4)
    {
      hide Times, Product, Linear, Flatten, Select, Delivered, View, LastPos, DiskProtocol.Inv, DiskProtocol.Hittable;
      seen := cache.file.value;
      FileWindow(v, seen, w, first, last);
      var buf := cache.Read(totalRead, got);
      cache.UnlockAndClose();
      if |buf| != totalRead {
        cache.PurgeFile();
        return false, seen;
      }
      QuotientOfProduct(last - first + 1, w, totalRead);
      SendWindow(View(buf, w), totalRead / w, step, count, View(seen, w), s, first, last);
      ok := true;
    }

    /** Writes the image for later readers; an exception is passed on. */
    method WriteDataToCache(cache: HDF5DiskCache, sent: seq<Cell>, beyond: seq<byte>, io: Io, ghost s: Slab)
      returns (r: Result<bool, CacheError>)
      requires v.Valid() && Fits(s, v.dims) && Covers(v.data, s, v.dims) && sent == Select(v.data, s, v.dims)
      requires |v.data| <= |beyond|
      requires cache.HasMissed(v.isDap4) && cache.entry == v.CacheEntry()
      modifies cache
      ensures r.Ok? ==> cache.AtRest() && cache.lock == NoLock
      ensures r.Err? ==> !io.unlinkOk
      ensures r == Ok(true) ==> (cache.file == Some(v.Image()) <==> !(v.dtype == H5CHAR && v.isDap4))
    {
      PayloadIsImage(v, s, sent, beyond);
      r := cache.WriteCachedData2(Payload(v, sent, beyond), io, v.isDap4);
    }

    /** The indices of the first and the last selected element. */
    method WindowEnds(slab: Slab) returns (offset1st: nat, offsetLast: nat)
      requires v.Valid() && v.dims != [] && Fits(slab, v.dims)
      ensures offset1st == Linear(v.dims, slab.start) && offsetLast == Linear(v.dims, LastPos(slab))
      ensures offset1st <= offsetLast < |v.data|
    {
      hide Product, Linear, LastPos;
      SelectedEndIndices(slab, v.dims);
      BelowLast(slab, v.dims, 0);
      var _, first := IndexNDTo1D(v.dims, slab.start);
      var _, last := IndexNDTo1D(v.dims, LastPos(slab));
      offset1st, offsetLast := first, last;
    }

    /**
      The disk-cache part of a read: the window between the first and the last
      selected element of a file that some process has left, of the right size.
    */
    method ReadWindow(cache: HDF5DiskCache, slab: Slab, io: Io) returns (fromDisk: bool, ghost found: Option<seq<byte>>)
      requires v.Valid() && v.dims != [] && Fits(slab, v.dims)
      requires cache.AtRest() && cache.entry == v.CacheEntry()
      modifies this, cache
      ensures cache.AtRest() && cache.lock == NoLock
      ensures fromDisk ==> found.Some? && |found.value| == |v.Image()|
      ensures found.Some? && |found.value| == |v.Image()| && io.seekOk && |v.Image()| <= io.got ==> fromDisk
      ensures fromDisk ==> DiskProtocol.Hittable(v.CacheEntry(), v.isDap4, found.value) && Sized(v, found.value)
      ensures if fromDisk then value == FileAnswer(v, found.value, slab) && readP else value == old(value) && cache.HasMissed(v.isDap4)
    {
      hide Times, Product, Linear, Flatten, Select, Delivered, LastPos, DiskProtocol.Inv, DiskProtocol.Left, FileAnswer;
      var w := DeliveredSize(v.dtype, v.isDap4);
      var totalElems := CountElements(v.dims);
      ImageLength(v);
      TimesIs(totalElems, w);
      var hit;
      hit, found := cache.GetDataFromCache(w * totalElems, v.isDap4);
      if !hit {
        return false, found;
      }
      var offset1st, offsetLast := WindowEnds(slab);
      TimesIs(offsetLast - offset1st + 1, w);
      TimesIs(offset1st, w);
      var sought := cache.Seek(w * offset1st, io.seekOk);
      if !sought {
        cache.UnlockAndClose();
        cache.PurgeFile();
        return false, found;
      }
      ghost var seen;
      fromDisk, seen := ObtainCachedData(cache, slab.step, slab.count, w * (offsetLast - offset1st + 1), w, io.got,
                                         slab, offset1st, offsetLast);
    }

    /** The part of a read that goes to the data file: the answer, the memory-cache buffer and the disk cache. */
    method ReadDataFile(slab: Slab, dataToDiskCache: bool, cache: HDF5DiskCache,
                        addMemCache: bool, buf: array?<byte>, io: Io, beyond: seq<byte>) returns (r: Result<Source, ReadError>)
      requires v.Valid() && Fits(slab, v.dims) && Covers(v.data, slab, v.dims) && |v.data| <= |beyond|
      requires cache.AtRest() && cache.entry == v.CacheEntry() && (dataToDiskCache ==> cache.HasMissed(v.isDap4))
      requires buf != null ==> buf.Length == |Flatten(v.data)|
      modifies this, cache, buf
      ensures r == Ok(FromDataFile) || r == Err(WriteFailed) || r == Err(NoMemoryBuffer)
      ensures r != Err(NoMemoryBuffer) ==> readP && value == v.Answer(slab)
      ensures r != Err(WriteFailed) ==> cache.AtRest()
      ensures r == Ok(FromDataFile) && addMemCache ==> buf != null && buf[..] == Flatten(v.data)
      ensures r == Err(NoMemoryBuffer) <==> addMemCache && buf == null
      ensures r == Err(WriteFailed) ==> dataToDiskCache && !io.unlinkOk
    {
      hide Times, Product, Linear, Flatten, Select, Delivered, Payload, DiskProtocol.Inv, DiskProtocol.Left;
      if addMemCache {
        if buf == null {
          return Err(NoMemoryBuffer);
        }
        var whole := Flatten(v.data);
        forall i | 0 <= i < buf.Length {
          buf[i] := whole[i];
        }
        assert buf[..] == whole;
      }
      var val := Select(v.data, slab, v.dims);
      SetValue(Delivered(v.dtype, v.isDap4, val));
      if dataToDiskCache {
        var written := WriteDataToCache(cache, val, beyond, io, slab);
        if written.Err? {
          return Err(WriteFailed);
        }
      }
      r := Ok(FromDataFile);
    }

    /**
      The whole read. Whatever the other processes, under either protocol, and
      the operating system do, a normal return holds no lock, and has delivered
      exactly the direct hyperslab of the dataset if it was read from the data
      file or is not a signed char; otherwise that of a file `found` of the right
      size that some process has left. Such a file, if it is found, is what the
      request is answered from unless the system fails to seek or read. Only a
      read from the data file fills `buf`.
    */
    method ReadDataNotFromMemCache(constraint: seq<Dim>, useDiskCache: bool, cache: HDF5DiskCache,
                                   addMemCache: bool, buf: array?<byte>, io: Io, beyond: seq<byte>)
      returns (r: Result<Source, ReadError>, ghost s: Slab, ghost found: Option<seq<byte>>)
      requires v.Valid() && OnArray(constraint, v.dims) && |v.data| <= |beyond|
      requires cache.AtRest() && cache.entry == v.CacheEntry()
      requires buf != null ==> buf.Length == |Flatten(v.data)|
      modifies this, cache, buf
      ensures r.Ok? || r == Err(WriteFailed) ==>
                SlabOf(constraint, s) && Fits(s, v.dims) && Covers(v.data, s, v.dims) && readP
      ensures r == Ok(FromDataFile) || r == Err(WriteFailed) || (r.Ok? && v.dtype != H5CHAR) ==> value == v.Answer(s)
      ensures r == Ok(FromDataFile) || r == Err(WriteFailed) || (r.Ok? && v.dtype != H5CHAR) ==>
                if v.dtype == H5CHAR && !v.isDap4 then SameNumbers(Select(v.data, s, v.dims), value)
                else value == Select(v.data, s, v.dims)
      ensures r == Ok(FromDiskCache) ==> found.Some? && DiskProtocol.Hittable(v.CacheEntry(), v.isDap4, found.value)
                                         && Sized(v, found.value) && value == FileAnswer(v, found.value, s)
      ensures v.dims != [] && Legal(constraint) && io.seekOk && |v.Image()| <= io.got
              && found.Some? && |found.value| == |v.Image()|
              ==> r == Ok(FromDiskCache)
      ensures r != Err(WriteFailed) ==> cache.AtRest()
      ensures r == Ok(FromDiskCache) ==> useDiskCache && (buf != null ==> buf[..] == old(buf[..]))
      ensures r == Ok(FromDataFile) && addMemCache ==> buf != null && buf[..] == Flatten(v.data)
      ensures v.dims == [] <==> r == Err(RankNotPositive)
      ensures v.dims != [] ==> (r.Err? && r.error.BadConstraint? <==> !Legal(constraint))
      ensures r == Err(NoMemoryBuffer) ==> addMemCache && buf == null
      ensures r == Err(WriteFailed) ==> useDiskCache && !io.unlinkOk
    {
      hide Times, Product, Linear, Flatten, Select, Delivered, Payload, SameNumbers, Variable.Answer, DiskProtocol.Inv, DiskProtocol.Left, FileAnswer;
      s, found := Slab([], [], []), None;
      if |v.dims| <= 0 {
        return Err(RankNotPositive), s, found;
      }
      var nelms, slab := ConstraintToSlab(constraint);
      if nelms.MalformedExpr? {
        return Err(BadConstraint(nelms.start, nelms.stop)), s, found;
      }
      s := slab;
      LegalFits(constraint, s);
      DeliverSelect(v, s);
      AnswerNumbers(v, s);

      var dataFromDiskCache, dataToDiskCache := false, false;
      if useDiskCache {
        dataFromDiskCache, found := ReadWindow(cache, slab, io);
        if dataFromDiskCache {
          HittableAnswers(v, found.value, s);
          return Ok(FromDiskCache), s, found;
        }
        dataToDiskCache := true;
      }

      r := ReadDataFile(slab, dataToDiskCache, cache, addMemCache, buf, io, beyond);
    }
  }
}
