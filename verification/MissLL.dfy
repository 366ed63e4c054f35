/**
  Latitudes and longitudes that a file does not store: they are generated from
  grid attributes, either for the requested elements or, for the memory cache,
  for the whole grid. Values are real numbers.
*/
module MissLL {
  import opened Arith
  import opened Common
  import opened Grid
  import opened Hyperslab
  import opened Enumerate
  import opened CFArray
  import opened MemCache

  /** Which coordinate, and the attributes that describe the grid. */
  datatype Coordinate =
    | AquariusLat(swPoint: real, step: real, lines: int)
    | AquariusLon(swPoint: real, step: real, lines: int)
    | GpmLat(start: real, res: real, size: int, otherSize: int)
    | GpmLon(start: real, res: real, size: int, otherSize: int)

  /** A coordinate variable: what it is generated from, and the sizes of its dimensions in the DAP tree. */
  datatype Generated = Generated(c: Coordinate, dims: seq<nat>)

  /**
    `GridExceedsBuffer` is not an exception of the readers: it marks the
    requests for which they copy the grid beyond the end of the buffer.
  */
  datatype LLError =
    RankNotOne | NoLines | SizeIsZero | TooManyElements | GridExceedsBuffer | NoElements | BadConstraint

  predicate IsAquarius(c: Coordinate)
  {
    c.AquariusLat? || c.AquariusLon?
  }

  /** The number of grid points the attributes announce. */
  function Points(c: Coordinate): int
  {
    if IsAquarius(c) then c.lines else c.size
  }

  /** Whether a request for `n` elements is refused. The number of points need not be the size of the dimension. */
  function Admits(g: Generated, n: nat): Result<(), LLError>
  {
    if |g.dims| != 1 then Err(RankNotOne)
    else if IsAquarius(g.c) && g.c.lines <= 0 then Err(NoLines)
    else if !IsAquarius(g.c) && (g.c.size == 0 || g.c.otherSize == 0) then Err(SizeIsZero)
    else if n > Points(g.c) then Err(TooManyElements)
    else Ok(())
  }

  /** ... and, when the whole grid is wanted as well, whether it fits a buffer of `room` elements. */
  function Outcome(g: Generated, n: nat, addCache: bool, room: nat): Result<(), LLError>
  {
    if Admits(g, n).Ok? && addCache && Points(g.c) > room then Err(GridExceedsBuffer) else Admits(g, n)
  }

  /** The i-th grid point: latitudes of the first kind run from north to south. */
  function Point(c: Coordinate, i: nat): real
  {
    match c
    case AquariusLat(sw, step, lines) => sw + (lines - 1 - i) as real * step
    case AquariusLon(sw, step, lines) => sw + i as real * step
    case GpmLat(start, res, size, _) => start + (i as real + 0.5) * res
    case GpmLon(start, res, size, _) => start + (i as real + 0.5) * res
  }

  /** The first `n` points, be they more or fewer than the attributes announce. */
  function Extended(c: Coordinate, n: nat): (r: seq<real>)
    ensures |r| == n
    ensures forall i :: 0 <= i < n ==> r[i] == Point(c, i)
  {
    seq(n, i requires 0 <= i => Point(c, i))
  }

  /** What a miss leaves in the cache: the announced points in a buffer of zeros for the dimension. */
  function Padded(g: Generated): (r: seq<real>)
    requires |g.dims| == 1 && 0 <= Points(g.c) <= g.dims[0]
    ensures |r| == g.dims[0]
  {
    Extended(g.c, Points(g.c)) + seq(g.dims[0] - Points(g.c), i => 0.0)
  }

  /** The answer of a read without the memory cache. */
  function Direct(g: Generated, s: Slab): (r: Result<seq<real>, LLError>)
    requires Fits(s, g.dims)
    ensures r.Ok? <==> Admits(g, Product(s.count)).Ok?
  {
    match Admits(g, Product(s.count))
    case Err(e) => Err(e)
    case Ok(_) =>
      CoversLine(Extended(g.c, g.dims[0]), s, g.dims);
      Ok(Select(Extended(g.c, g.dims[0]), s, g.dims))
  }

  // ----- one dimension

  lemma OneDimension(n: nat, x: nat)
    ensures Product([n]) == n
    ensures Linear([n], [x]) == x
    ensures x < n ==> Unrank([n], x) == [x]
  {
    TimesOne(n);
    TimesOne(x);
    if x < n {
      UnrankUnique([n], [x], x);
    }
  }

  lemma SelectedIn1D(s: Slab, size: nat, n: nat, j: nat)
    requires Fits(s, [size]) && n == s.count[0] && j < n
    ensures Product(s.count) == n && Product([size]) == size
    ensures SelectedIndex(s, [size], j) == s.start[0] + Times(j, s.step[0]) < size
  {
    OneDimension(n, j);
    OneDimension(size, s.start[0] + Times(j, s.step[0]));
    assert s.count == [n];
    hide Product, Linear, Unrank, Times;
    assert SelectedPos(s, j) == [s.start[0] + Times(j, s.step[0])];
    SelectedInRange(s, [size], j);
  }

  lemma CoversLine(data: seq<real>, s: Slab, dims: seq<nat>)
    requires |dims| == 1 && Fits(s, dims) && |data| == dims[0]
    ensures Covers(data, s, dims)
  {
    assert dims == [dims[0]];
    OneDimension(dims[0], 0);
    FitsCovers(data, s, dims);
  }

  // ----- real arithmetic

  lemma {:induction false} RealTimes(a: nat, b: nat)
    ensures Times(a, b) as real == a as real * b as real
  {
    if a == 0 {
    } else {
      RealTimes(a - 1, b);
      assert (a - 1) as real * b as real + b as real == a as real * b as real;
    }
  }

  /** The first point and the step that the Aquarius reader derives from the attributes. */
  ghost predicate Derived(c: Coordinate, first: real, llStep: real)
  {
    if c.AquariusLat? then first == c.swPoint + (c.lines - 1) as real * c.step && llStep == c.step * -1.0
    else c.AquariusLon? && first == c.swPoint && llStep == c.step
  }

  lemma FromFirst(c: Coordinate, first: real, llStep: real, k: nat)
    requires Derived(c, first, llStep)
    ensures first + k as real * llStep == Point(c, k)
  {
    if c.AquariusLat? {
      var a, b := (c.lines - 1) as real, k as real;
      assert (c.lines - 1 - k) as real == a - b;
      assert (a - b) * c.step == a * c.step - b * c.step;
      assert b * (c.step * -1.0) == -(b * c.step);
    }
  }

  /** Starting half a cell from the edge of the requested points, or of the grid, is the same. */
  lemma StridedFromCenter(c: Coordinate, start: real, res: real, offset: nat, i: nat, step: nat)
    requires (c.GpmLat? || c.GpmLon?) && start == c.start && res == c.res
    ensures start + offset as real * res + res / 2.0 + i as real * res * step as real == Point(c, offset + Times(i, step))
  {
    RealTimes(i, step);
    var x, y := i as real, step as real;
    assert (offset + Times(i, step)) as real == offset as real + x * y;
    assert x * res * y == x * y * res;
    assert (offset as real + x * y + 0.5) * res == offset as real * res + x * y * res + 0.5 * res;
  }

  lemma CenterFrom(c: Coordinate, start: real, res: real, k: nat)
    requires (c.GpmLat? || c.GpmLon?) && start == c.start && res == c.res
    ensures start + res / 2.0 + k as real * res == Point(c, k)
  {
    assert (k as real + 0.5) * res == k as real * res + 0.5 * res;
  }

  /** The values of the requested points, in order, are the selection from the points of the dimension. */
  lemma GeneratedIsSelection(g: Generated, s: Slab, val: seq<real>)
    requires |g.dims| == 1 && Fits(s, g.dims) && |val| == Product(s.count)
    requires forall i :: 0 <= i < |val| ==> val[i] == Point(g.c, s.start[0] + Times(i, s.step[0]))
    ensures Covers(Extended(g.c, g.dims[0]), s, g.dims)
    ensures val == Select(Extended(g.c, g.dims[0]), s, g.dims)
  {
    hide Point, Times, Product, Linear, Unrank;
    var all, n := Extended(g.c, g.dims[0]), s.count[0];
    assert g.dims == [g.dims[0]];
    CoversLine(all, s, g.dims);
    SelectedIn1D(s, g.dims[0], n, 0);
    forall i | 0 <= i < n
      ensures val[i] == Select(all, s, g.dims)[i]
    {
      SelectedIn1D(s, g.dims[0], n, i);
    }
  }

  /** The values are the coordinates of the grid points `offset`, `offset + step`, ... */
  ghost predicate Coordinates(c: Coordinate, val: seq<real>, offset: nat, step: nat)
  {
    forall j :: 0 <= j < |val| ==>
      match c
      case AquariusLat(swPoint, llStep, lines) => val[j] == swPoint + (lines - 1 - (offset + j * step)) as real * llStep
      case AquariusLon(swPoint, llStep, lines) => val[j] == swPoint + (offset + j * step) as real * llStep
      case GpmLat(start, res, _, _) => val[j] == start + (offset + j * step) as real * res + res / 2.0
      case GpmLon(start, res, _, _) => val[j] == start + (offset + j * step) as real * res + res / 2.0
  }

  lemma HalfCell(k: int, res: real)
    ensures (k as real + 0.5) * res == k as real * res + res / 2.0
  {
  }

  lemma SelectedCoordinates(g: Generated, s: Slab)
    requires |g.dims| == 1 && Fits(s, g.dims)
    ensures Covers(Extended(g.c, g.dims[0]), s, g.dims)
    ensures Coordinates(g.c, Select(Extended(g.c, g.dims[0]), s, g.dims), s.start[0], s.step[0])
  {
    hide Times, Product, Linear, Unrank, SelectedIndex;
    var all, n := Extended(g.c, g.dims[0]), s.count[0];
    assert g.dims == [g.dims[0]];
    CoversLine(all, s, g.dims);
    SelectedIn1D(s, g.dims[0], n, 0);
    forall j | 0 <= j < n
      ensures Select(all, s, g.dims)[j] == Point(g.c, s.start[0] + j * s.step[0])
    {
      SelectedIn1D(s, g.dims[0], n, j);
      TimesIs(j, s.step[0]);
    }
    if g.c.GpmLat? || g.c.GpmLon? {
      forall j | 0 <= j < n
        ensures Select(all, s, g.dims)[j] == g.c.start + (s.start[0] + j * s.step[0]) as real * g.c.res + g.c.res / 2.0
      {
        HalfCell(s.start[0] + j * s.step[0], g.c.res);
      }
    }
  }

  // ----- the readers

  class HDF5GMCFMissLLArray {
    const g: Generated
    var value: seq<real>

    constructor (g: Generated)
      ensures this.g == g
    {
      this.g := g;
      value := [];
    }

    /** Point `offset`, `offset + step`, ... counted from the first grid point. */
    method FillFromFirst(val: array<real>, first: real, llStep: real, offset: nat, step: nat)
      requires Derived(g.c, first, llStep)
      modifies val
      ensures forall k :: 0 <= k < val.Length ==> val[k] == Point(g.c, offset + Times(k, step))
    {
      hide Point, Times, Derived;
      var i := 0;
      while i < val.Length
        invariant 0 <= i <= val.Length
        invariant forall k :: 0 <= k < i ==> val[k] == Point(g.c, offset + Times(k, step))
      {
        TimesIs(i, step);
        FromFirst(g.c, first, llStep, offset + i * step);
        val[i] := first + (offset + i * step) as real * llStep;
        i := i + 1;
      }
    }

    method FillGridFromFirst(buf: array<real>, first: real, llStep: real)
      requires Derived(g.c, first, llStep)
      modifies buf
      ensures forall k :: 0 <= k < buf.Length ==> buf[k] == Point(g.c, k)
    {
      hide Point, Derived;
      var i := 0;
      while i < buf.Length
        invariant 0 <= i <= buf.Length
        invariant forall k :: 0 <= k < i ==> buf[k] == Point(g.c, k)
      {
        FromFirst(g.c, first, llStep, i);
        buf[i] := first + i as real * llStep;
        i := i + 1;
      }
    }

    /** Copies the grid to the start of the buffer. */
    method CopyGrid(buf: array<real>, total: array<real>)
      requires total.Length <= buf.Length && total != buf
      modifies buf
      ensures buf[..] == total[..] + old(buf[total.Length..])
    {
      forall i | 0 <= i < total.Length {
        buf[i] := total[i];
      }
    }

    method RequestedFromFirst(slab: Slab, nelms: nat, first: real, llStep: real) returns (val: seq<real>)
      requires Derived(g.c, first, llStep) && |g.dims| == 1 && Fits(slab, g.dims) && nelms == Product(slab.count)
      ensures Covers(Extended(g.c, g.dims[0]), slab, g.dims) && val == Select(Extended(g.c, g.dims[0]), slab, g.dims)
    {
      hide Point, Times, Product, Derived, Select, Covers, Extended;
      var points := new real[nelms];
      FillFromFirst(points, first, llStep, slab.start[0], slab.step[0]);
      GeneratedIsSelection(g, slab, points[..]);
      val := points[..];
    }

    /** The whole grid, copied to `buf` if it fits. */
    method CacheFromFirst(buf: array<real>, first: real, llStep: real) returns (fits: bool)
      requires Derived(g.c, first, llStep) && 0 <= Points(g.c)
      modifies buf
      ensures fits <==> Points(g.c) <= buf.Length
      ensures fits ==> buf[..] == Extended(g.c, Points(g.c)) + old(buf[Points(g.c)..])
    {
      hide Point, Derived;
      var total := new real[Points(g.c)];
      FillGridFromFirst(total, first, llStep);
      fits := total.Length <= buf.Length;
      if fits {
        assert total[..] == Extended(g.c, Points(g.c));
        CopyGrid(buf, total);
      }
    }

    /** Aquarius and OBPG level 3: the requested points, and the whole grid into `buf` if asked. */
    method ObtainAquObpgL3LL(slab: Slab, nelms: nat, addCache: bool, buf: array<real>) returns (r: Result<(), LLError>)
      requires IsAquarius(g.c)
      requires Fits(slab, g.dims) && nelms == Product(slab.count)
      modifies this, buf
      ensures r == Outcome(g, nelms, addCache, buf.Length)
      ensures r.Ok? ==> Covers(Extended(g.c, g.dims[0]), slab, g.dims) && value == Select(Extended(g.c, g.dims[0]), slab, g.dims)
      ensures r.Ok? && addCache ==> buf[..] == Extended(g.c, Points(g.c)) + old(buf[Points(g.c)..])
      ensures r.Err? ==> value == old(value)
    {
      hide Point, Times, Product, Linear, Unrank, Select, Extended, Covers, Fits;
      if 1 != |g.dims| {
        return Err(RankNotOne);
      }
      if g.c.lines <= 0 {
        return Err(NoLines);
      }
      var first, llStep := g.c.swPoint, g.c.step;
      if g.c.AquariusLat? {
        first := g.c.swPoint + (g.c.lines - 1) as real * g.c.step;
        llStep := g.c.step * -1.0;
      }
      if nelms > g.c.lines {
        return Err(TooManyElements);
      }
      var val := RequestedFromFirst(slab, nelms, first, llStep);
      if addCache {
        var fits := CacheFromFirst(buf, first, llStep);
        if !fits {
          return Err(GridExceedsBuffer);
        }
      }
      value := val;
      r := Ok(());
    }

    method FillFromCenter(val: array<real>, start: real, res: real, offset: nat, step: nat)
      requires !IsAquarius(g.c) && start == g.c.start && res == g.c.res
      modifies val
      ensures forall k :: 0 <= k < val.Length ==> val[k] == Point(g.c, offset + Times(k, step))
    {
      hide Point, Times;
      var i := 0;
      while i < val.Length
        invariant 0 <= i <= val.Length
        invariant forall k :: 0 <= k < i ==> val[k] == Point(g.c, offset + Times(k, step))
      {
        StridedFromCenter(g.c, start, res, offset, i, step);
        val[i] := start + offset as real * res + res / 2.0 + i as real * res * step as real;
        i := i + 1;
      }
    }

    method FillGridFromCenter(buf: array<real>, start: real, res: real)
      requires !IsAquarius(g.c) && start == g.c.start && res == g.c.res
      modifies buf
      ensures forall k :: 0 <= k < buf.Length ==> buf[k] == Point(g.c, k)
    {
      hide Point;
      var i := 0;
      while i < buf.Length
        invariant 0 <= i <= buf.Length
        invariant forall k :: 0 <= k < i ==> buf[k] == Point(g.c, k)
      {
        CenterFrom(g.c, start, res, i);
        buf[i] := start + res / 2.0 + i as real * res;
        i := i + 1;
      }
    }

    method RequestedFromCenter(slab: Slab, nelms: nat, start: real, res: real) returns (val: seq<real>)
      requires !IsAquarius(g.c) && start == g.c.start && res == g.c.res && |g.dims| == 1 && Fits(slab, g.dims) && nelms == Product(slab.count)
      ensures Covers(Extended(g.c, g.dims[0]), slab, g.dims) && val == Select(Extended(g.c, g.dims[0]), slab, g.dims)
    {
      hide Point, Times, Product, Select, Covers, Extended;
      var points := new real[nelms];
      FillFromCenter(points, start, res, slab.start[0], slab.step[0]);
      GeneratedIsSelection(g, slab, points[..]);
      val := points[..];
    }

    /** The whole grid, copied to `buf` if it fits. */
    method CacheFromCenter(buf: array<real>, start: real, res: real) returns (fits: bool)
      requires !IsAquarius(g.c) && start == g.c.start && res == g.c.res && 0 <= Points(g.c)
      modifies buf
      ensures fits <==> Points(g.c) <= buf.Length
      ensures fits ==> buf[..] == Extended(g.c, Points(g.c)) + old(buf[Points(g.c)..])
    {
      hide Point;
      var total := new real[Points(g.c)];
      FillGridFromCenter(total, start, res);
      fits := total.Length <= buf.Length;
      if fits {
        assert total[..] == Extended(g.c, Points(g.c));
        CopyGrid(buf, total);
      }
    }

    /** GPM level 3: cell centres. */
    method SendGpmL3LLToDap(slab: Slab, nelms: nat, addCache: bool, buf: array<real>) returns (r: Result<(), LLError>)
      requires !IsAquarius(g.c) && |g.dims| == 1
      requires Fits(slab, g.dims) && nelms == Product(slab.count)
      modifies this, buf
      ensures r == Outcome(g, nelms, addCache, buf.Length)
      ensures r.Ok? ==> Covers(Extended(g.c, g.dims[0]), slab, g.dims) && value == Select(Extended(g.c, g.dims[0]), slab, g.dims)
      ensures r.Ok? && addCache ==> buf[..] == Extended(g.c, Points(g.c)) + old(buf[Points(g.c)..])
      ensures r.Err? ==> value == old(value)
    {
      hide Point, Times, Product, Linear, Unrank, Select, Extended, Covers, Fits;
      if g.c.size == 0 || g.c.otherSize == 0 {
        return Err(SizeIsZero);
      }
      if nelms > g.c.size {
        return Err(TooManyElements);
      }
      var val := RequestedFromCenter(slab, nelms, g.c.start, g.c.res);
      if addCache {
        var fits := CacheFromCenter(buf, g.c.start, g.c.res);
        if !fits {
          return Err(GridExceedsBuffer);
        }
      }
      value := val;
      r := Ok(());
    }

    method ObtainGpmL3LL(slab: Slab, nelms: nat, addCache: bool, buf: array<real>) returns (r: Result<(), LLError>)
      requires !IsAquarius(g.c)
      requires Fits(slab, g.dims) && nelms == Product(slab.count)
      modifies this, buf
      ensures r == Outcome(g, nelms, addCache, buf.Length)
      ensures r.Ok? ==> Covers(Extended(g.c, g.dims[0]), slab, g.dims) && value == Select(Extended(g.c, g.dims[0]), slab, g.dims)
      ensures r.Ok? && addCache ==> buf[..] == Extended(g.c, Points(g.c)) + old(buf[Points(g.c)..])
      ensures r.Err? ==> value == old(value)
    {
      if 1 != |g.dims| {
        return Err(RankNotOne);
      }
      r := SendGpmL3LLToDap(slab, nelms, addCache, buf);
    }

    method ReadDataNotFromMemCache(slab: Slab, nelms: nat, addCache: bool, buf: array<real>) returns (r: Result<(), LLError>)
      requires Fits(slab, g.dims) && nelms == Product(slab.count)
      modifies this, buf
      ensures r == Outcome(g, nelms, addCache, buf.Length)
      ensures r == Err(RankNotOne) <==> |g.dims| != 1
      ensures |g.dims| == 1 && (g.c.AquariusLat? || g.c.AquariusLon?) ==>
                && (r == Err(NoLines) <==> g.c.lines <= 0)
                && (r == Err(TooManyElements) <==> 0 < g.c.lines < nelms)
                && (r == Err(GridExceedsBuffer) <==> 0 < g.c.lines && nelms <= g.c.lines && addCache && buf.Length < g.c.lines)
                && (r == Ok(()) <==> 0 < g.c.lines && nelms <= g.c.lines && (addCache ==> g.c.lines <= buf.Length))
      ensures |g.dims| == 1 && (g.c.GpmLat? || g.c.GpmLon?) ==>
                && (r == Err(SizeIsZero) <==> g.c.size == 0 || g.c.otherSize == 0)
                && (r == Err(TooManyElements) <==> g.c.size != 0 && g.c.otherSize != 0 && g.c.size < nelms)
                && (r == Err(GridExceedsBuffer) <==>
                      g.c.size != 0 && g.c.otherSize != 0 && nelms <= g.c.size && addCache && buf.Length < g.c.size)
                && (r == Ok(()) <==>
                      g.c.size != 0 && g.c.otherSize != 0 && nelms <= g.c.size && (addCache ==> g.c.size <= buf.Length))
      ensures r.Ok? ==> |value| == nelms && Coordinates(g.c, value, slab.start[0], slab.step[0])
      ensures r.Ok? ==> Covers(Extended(g.c, g.dims[0]), slab, g.dims) && value == Select(Extended(g.c, g.dims[0]), slab, g.dims)
      ensures r.Ok? && addCache ==> buf[..] == Extended(g.c, Points(g.c)) + old(buf[Points(g.c)..])
      ensures r.Err? ==> value == old(value)
    {
      if |g.dims| == 1 {
        SelectedCoordinates(g, slab);
        SelectedEnds(slab, g.dims);
      }
      hide Coordinates, Extended, Point, Covers, Select;
      if g.c.GpmLat? || g.c.GpmLon? {
        r := ObtainGpmL3LL(slab, nelms, addCache, buf);
      } else {
        r := ObtainAquObpgL3LL(slab, nelms, addCache, buf);
      }
    }

    /** A miss: the coordinate is generated and an entry for the whole dimension is added. */
    method GenerateAndAdd(mem: ObjMemCache<real>, key: string, nelms: nat, slab: Slab, dropped: set<string>)
      returns (r: Result<(), LLError>)
      requires Fits(slab, g.dims) && nelms == Product(slab.count)
      modifies this, mem
      ensures Product(g.dims) != 0 ==> MissesGrid(g, key, slab, old(mem.Contents()), mem.Contents(), Sent(r, value))
      ensures r.Ok? ==> |g.dims| == 1 && 0 <= Points(g.c) <= g.dims[0]
                        && mem.Contents() == old(mem.Contents())[key := Padded(g)] - dropped
    {
      var total := HDF5CFArray.CountElements(g.dims);
      if total == 0 {
        return Err(LLError.NoElements);
      }
      if |g.dims| == 1 {
        assert g.dims == [g.dims[0]];
        OneDimension(g.dims[0], 0);
      }
      hide Point, Times, Product, Linear, Unrank, Select, Extended, Covers, Fits;
      var buf := new real[total](i => 0.0);
      r := ReadDataNotFromMemCache(slab, nelms, true, buf);
      assert mem.Contents() == old(mem.Contents());
      if r.Ok? {
        assert buf[..] == Padded(g);
        AddEntry(mem, key, buf[..], dropped);
      }
    }

    /**
      A request through the memory cache. An illegal constraint is refused;
      otherwise the answer or the refusal and the new contents are those of
      `ServesGrid`. A coordinate whose attributes agree with its dimension is
      never refused and is answered with the requested points.
    */
    method HandleDataWithMemCache(mem: ObjMemCache<real>, key: string, constraint: seq<Dim>, dropped: set<string>, ghost owner: Owners)
      returns (r: Result<(), LLError>, ghost s: Slab)
      requires forall i :: 0 <= i < |constraint| ==> 1 <= constraint[i].stride && constraint[i].stop < constraint[i].size
      requires Sizes(constraint) == g.dims
      requires key in owner && owner[key] == g && SizedGrids(mem.Contents(), owner)
      modifies this, mem
      ensures SizedGrids(mem.Contents(), owner)
      ensures old(PaddedGrids(mem.Contents(), owner)) ==> PaddedGrids(mem.Contents(), owner)
      ensures Legal(constraint) && Ordinary(g) && old(PaddedGrids(mem.Contents(), owner)) ==>
                r.Ok? && Shaped(s, 1) && |value| == s.count[0] && Coordinates(g.c, value, s.start[0], s.step[0])
      ensures r.Ok? && key in old(mem.Contents()) ==> mem.Contents() == old(mem.Contents())
      ensures r.Ok? && key !in old(mem.Contents()) ==>
                |g.dims| == 1 && 0 <= Points(g.c) <= g.dims[0]
                && mem.Contents() == old(mem.Contents())[key := Padded(g)] - dropped
      ensures !Legal(constraint) ==> r == Err(LLError.BadConstraint) && mem.Contents() == old(mem.Contents())
      ensures Legal(constraint) ==>
                SlabOf(constraint, s)
                && ServesGrid(owner, old(mem.Contents()), mem.Contents(),
                              Asked(key, s, key in old(mem.Contents()), Sent(r, value)))
    {
      hide Point, Times, Product, Linear, Unrank, Select, Extended, Covers, Fits, PaddedGrids, Ordinary, Coordinates, Direct, Padded;
      var nelms, slab := ConstraintToSlab(constraint);
      s := slab;
      assert mem.Contents() == old(mem.Contents());
      if nelms.MalformedExpr? {
        return Err(LLError.BadConstraint), s;
      }
      LegalFits(constraint, s);
      NonemptyGrid(constraint);
      var e := mem.Get(key);
      if e != null {
        assert e.databuf == mem.Contents()[key];
        CoversLine(e.databuf, s, g.dims);
        value := SubsetAll(e.databuf, g.dims, slab);
        r := Ok(());
      } else {
        r := GenerateAndAdd(mem, key, nelms.nelms, slab, dropped);
      }
      ghost var e' := Asked(key, s, key in old(mem.Contents()), Sent(r, value));
      if old(PaddedGrids(mem.Contents(), owner)) {
        ServesKeepsPadded(owner, old(mem.Contents()), mem.Contents(), e');
        if Ordinary(g) {
          OrdinaryServed(owner, old(mem.Contents()), mem.Contents(), e');
        }
      }
    }
  }

  lemma NonemptyGrid(constraint: seq<Dim>)
    requires forall i :: 0 <= i < |constraint| ==> constraint[i].stop < constraint[i].size
    ensures Product(Sizes(constraint)) != 0
  {
    ProductPositive(Sizes(constraint));
  }

  // ----- any sequence of requests and evictions

  /** What happens to the cache of generated coordinates: a request is answered or refused, or entries disappear. */
  datatype Request =
    | Asked(key: string, s: Slab, hit: bool, answer: Result<seq<real>, LLError>)
    | Dropped

  type Owners = map<string, Generated>

  function Sent(r: Result<(), LLError>, value: seq<real>): Result<seq<real>, LLError>
  {
    match r
    case Ok(_) => Ok(value)
    case Err(e) => Err(e)
  }

  /** Every key belongs to one variable of one dimension, and its buffer has that size. */
  ghost predicate SizedGrids(contents: map<string, seq<real>>, owner: Owners)
  {
    forall k :: k in contents ==> k in owner && |owner[k].dims| == 1 && |contents[k]| == owner[k].dims[0]
  }

  /** Every entry holds the announced points of its variable, which has some and no more than fit, and zeros. */
  ghost predicate PaddedGrids(contents: map<string, seq<real>>, owner: Owners)
  {
    forall k :: k in contents ==>
      k in owner && Admits(owner[k], 1).Ok? && Points(owner[k].c) <= owner[k].dims[0] && contents[k] == Padded(owner[k])
  }

  /** A request that finds no entry. */
  ghost predicate MissesGrid(g: Generated, key: string, slab: Slab, s: map<string, seq<real>>, t: map<string, seq<real>>,
                             answer: Result<seq<real>, LLError>)
    requires Fits(slab, g.dims)
  {
    if Direct(g, slab).Err? then t == s && answer == Direct(g, slab)
    else if Points(g.c) > g.dims[0] then t == s && answer == Err(GridExceedsBuffer)
    else Sub(t, s[key := Padded(g)]) && answer == Direct(g, slab)
  }

  ghost predicate ServesGrid(owner: Owners, s: map<string, seq<real>>, t: map<string, seq<real>>, e: Request)
  {
    match e
    case Dropped => Sub(t, s)
    case Asked(key, slab, hit, answer) =>
      && key in owner && Fits(slab, owner[key].dims) && hit == (key in s)
      && if key in s then
           Sub(t, s) && Covers(s[key], slab, owner[key].dims) && answer == Ok(Select(s[key], slab, owner[key].dims))
         else
           MissesGrid(owner[key], key, slab, s, t, answer)
  }

  ghost predicate GridRun(owner: Owners, states: seq<map<string, seq<real>>>, requests: seq<Request>)
  {
    && |states| == |requests| + 1 && states[0] == map[]
    && forall i :: 0 <= i < |requests| ==> ServesGrid(owner, states[i], states[i + 1], requests[i])
  }

  ghost predicate DirectlyAnswered(owner: Owners, e: Request)
  {
    e.Asked? ==> e.key in owner && Fits(e.s, owner[e.key].dims) && e.answer == Direct(owner[e.key], e.s)
  }

  /** The attributes announce as many points as the dimension has, or else every request is refused. */
  predicate Exact(g: Generated)
  {
    Admits(g, 1).Ok? ==> Points(g.c) == g.dims[0]
  }

  lemma AdmittedOne(g: Generated, s: Slab)
    requires Fits(s, g.dims) && Direct(g, s).Ok?
    ensures Admits(g, 1).Ok?
  {
    hide Product, Times, Linear, Unrank;
    SelectedEnds(s, g.dims);
  }

  lemma ServesKeepsPadded(owner: Owners, s: map<string, seq<real>>, t: map<string, seq<real>>, e: Request)
    requires PaddedGrids(s, owner) && ServesGrid(owner, s, t, e)
    ensures PaddedGrids(t, owner)
  {
    hide Point, Extended, Covers, Select, Fits, Padded, Direct;
    if e.Asked? && e.key !in s && Direct(owner[e.key], e.s).Ok? {
      AdmittedOne(owner[e.key], e.s);
    }
  }

  /** The attributes announce as many points as the dimension has, and no size is 0. */
  predicate Ordinary(g: Generated)
  {
    |g.dims| == 1 && 1 <= g.dims[0]
    && match g.c
       case AquariusLat(_, _, lines) => lines == g.dims[0]
       case AquariusLon(_, _, lines) => lines == g.dims[0]
       case GpmLat(_, _, size, otherSize) => size == g.dims[0] && 1 <= otherSize
       case GpmLon(_, _, size, otherSize) => size == g.dims[0] && 1 <= otherSize
  }

  /** A hit or a miss, such a coordinate is answered, with the requested points. */
  lemma OrdinaryServed(owner: Owners, s: map<string, seq<real>>, t: map<string, seq<real>>, e: Request)
    requires PaddedGrids(s, owner) && ServesGrid(owner, s, t, e) && e.Asked? && e.key in owner && Ordinary(owner[e.key])
    ensures e.answer.Ok? && Shaped(e.s, 1) && |e.answer.value| == e.s.count[0]
    ensures Coordinates(owner[e.key].c, e.answer.value, e.s.start[0], e.s.step[0])
  {
    var g := owner[e.key];
    SelectedCoordinates(g, e.s);
    CountBounded(e.s, g.dims);
    assert e.s.count == [e.s.count[0]];
    OneDimension(e.s.count[0], 0);
    hide Point, Covers, Select, Fits, Product, Coordinates;
    assert Padded(g) == Extended(g.c, g.dims[0]);
  }

  lemma {:induction false} GridRunPadded(owner: Owners, states: seq<map<string, seq<real>>>, requests: seq<Request>, i: nat)
    requires GridRun(owner, states, requests) && i < |states|
    ensures PaddedGrids(states[i], owner)
  {
    hide PaddedGrids, ServesGrid;
    if i != 0 {
      GridRunPadded(owner, states, requests, i - 1);
      assert ServesGrid(owner, states[i - 1], states[i], requests[i - 1]);
      ServesKeepsPadded(owner, states[i - 1], states[i], requests[i - 1]);
    } else {
      NoGrids(owner);
    }
  }

  lemma NoGrids(owner: Owners)
    ensures PaddedGrids(map[], owner)
  {
  }

  lemma CountBounded(s: Slab, dims: seq<nat>)
    requires |dims| == 1 && Fits(s, dims)
    ensures Product(s.count) <= dims[0]
  {
    assert s.count == [s.count[0]];
    OneDimension(s.count[0], 0);
    if 1 < s.count[0] {
      TimesCommutes(s.count[0] - 1, s.step[0]);
      TimesPositive(s.step[0], s.count[0] - 1);
    }
  }

  /**
    Over any sequence of requests and evictions every answer and every refusal
    is that of a direct read, provided that the attributes announce as many
    points as the dimensions have.
  */
  lemma GridRunTransparent(owner: Owners, states: seq<map<string, seq<real>>>, requests: seq<Request>, i: nat)
    requires GridRun(owner, states, requests) && i < |requests| && forall k :: k in owner ==> Exact(owner[k])
    ensures DirectlyAnswered(owner, requests[i])
  {
    hide Point, Extended, Covers, Select, Fits, Product;
    GridRunPadded(owner, states, requests, i);
    var e := requests[i];
    assert ServesGrid(owner, states[i], states[i + 1], e);
    if e.Asked? {
      var g := owner[e.key];
      if e.key in states[i] {
        assert Padded(g) == Extended(g.c, g.dims[0]);
        CountBounded(e.s, g.dims);
      } else if Direct(g, e.s).Ok? {
        AdmittedOne(g, e.s);
      }
    }
  }

  /** What a hit sends: beyond the announced points it is zero, where a direct read continues the grid. */
  lemma HitShows(g: Generated, s: Slab, j: nat)
    requires |g.dims| == 1 && 0 <= Points(g.c) <= g.dims[0] && Fits(s, g.dims) && j < Product(s.count)
    ensures Covers(Padded(g), s, g.dims) && Covers(Extended(g.c, g.dims[0]), s, g.dims)
    ensures var at := s.start[0] + Times(j, s.step[0]);
            && Select(Padded(g), s, g.dims)[j] == (if at < Points(g.c) then Point(g.c, at) else 0.0)
            && Select(Extended(g.c, g.dims[0]), s, g.dims)[j] == Point(g.c, at)
  {
    hide Point, Times, Linear, Unrank, Product, SelectedIndex;
    assert g.dims == [g.dims[0]] && s.count == [s.count[0]];
    OneDimension(s.count[0], 0);
    SelectedIn1D(s, g.dims[0], s.count[0], j);
    CoversLine(Padded(g), s, g.dims);
    CoversLine(Extended(g.c, g.dims[0]), s, g.dims);
  }

  // ----- exactly when

  /** Every answer and every refusal of every run is that of a direct read. */
  ghost predicate GridTransparent(owner: Owners)
  {
    forall states: seq<map<string, seq<real>>>, requests: seq<Request>, i: nat ::
      GridRun(owner, states, requests) && i < |requests| ==> DirectlyAnswered(owner, requests[i])
  }

  /** No run copies a grid beyond its buffer. */
  ghost predicate NeverExceeds(owner: Owners)
  {
    forall states: seq<map<string, seq<real>>>, requests: seq<Request>, i: nat ::
      GridRun(owner, states, requests) && i < |requests| && requests[i].Asked? ==> requests[i].answer != Err(GridExceedsBuffer)
  }

  /** A grid larger than its dimension: the first request of one element writes beyond the buffer. */
  lemma LargerGridExceeds(g: Generated, key: string)
    requires Admits(g, 1).Ok? && 1 <= g.dims[0] < Points(g.c)
    ensures !NeverExceeds(map[key := g]) && !GridTransparent(map[key := g])
  {
    var owner, one := map[key := g], Slab([0], [1], [1]);
    OneDimension(1, 0);
    var states := [map[], map[]];
    var requests := [Asked(key, one, false, Err(GridExceedsBuffer))];
    assert ServesGrid(owner, states[0], states[1], requests[0]);
    assert GridRun(owner, states, requests);
    assert !DirectlyAnswered(owner, requests[0]);
  }

  /** A smaller one: after one element has been read, the whole dimension is answered instead of refused. */
  lemma SmallerGridHits(g: Generated, key: string)
    requires Admits(g, 1).Ok? && Points(g.c) < g.dims[0]
    ensures !GridTransparent(map[key := g])
  {
    var owner, one, all := map[key := g], Slab([0], [1], [1]), WholeSlab(g.dims);
    OneDimension(1, 0);
    assert g.dims == [g.dims[0]];
    OneDimension(g.dims[0], 0);
    WholeSlabFits(g.dims);
    CoversLine(Padded(g), all, g.dims);
    hide Extended, Padded, Covers, Select, Fits;
    var entry := map[key := Padded(g)];
    var states := [map[], entry, entry];
    var requests := [Asked(key, one, false, Direct(g, one)), Asked(key, all, true, Ok(Select(Padded(g), all, g.dims)))];
    assert map[][key := Padded(g)] == entry;
    assert ServesGrid(owner, states[0], states[1], requests[0]);
    assert ServesGrid(owner, states[1], states[2], requests[1]);
    assert GridRun(owner, states, requests);
    assert !DirectlyAnswered(owner, requests[1]);
  }

  /**
    A generated coordinate is served transparently if and only if the attributes
    announce as many points as its dimension has, or every request is refused.
  */
  lemma GridTransparentIff(g: Generated, key: string)
    requires forall i :: 0 <= i < |g.dims| ==> 1 <= g.dims[i]
    ensures GridTransparent(map[key := g]) <==> Exact(g)
  {
    hide GridRun, DirectlyAnswered;
    if Exact(g) {
      forall states: seq<map<string, seq<real>>>, requests: seq<Request>, i: nat
        | GridRun(map[key := g], states, requests) && i < |requests|
        ensures DirectlyAnswered(map[key := g], requests[i])
      {
        GridRunTransparent(map[key := g], states, requests, i);
      }
    } else if Points(g.c) > g.dims[0] {
      LargerGridExceeds(g, key);
    } else {
      SmallerGridHits(g, key);
    }
  }

  /** The cached grid stays within its buffer if and only if the attributes announce no more points than the dimension has. */
  lemma NeverExceedsIff(g: Generated, key: string)
    requires forall i :: 0 <= i < |g.dims| ==> 1 <= g.dims[i]
    ensures NeverExceeds(map[key := g]) <==> (Admits(g, 1).Ok? ==> Points(g.c) <= g.dims[0])
  {
    hide Select, Fits, Covers, Padded, Extended;
    if Admits(g, 1).Ok? && Points(g.c) > g.dims[0] {
      LargerGridExceeds(g, key);
    } else {
      forall states: seq<map<string, seq<real>>>, requests: seq<Request>, i: nat
        | GridRun(map[key := g], states, requests) && i < |requests| && requests[i].Asked?
        ensures requests[i].answer != Err(GridExceedsBuffer)
      {
        var e := requests[i];
        assert ServesGrid(map[key := g], states[i], states[i + 1], e);
        if e.key !in states[i] && Direct(g, e.s).Ok? {
          AdmittedOne(g, e.s);
        }
      }
    }
  }

  /** The first generated latitude is the northern edge, the last one the south-west point of the attributes. */
  lemma NorthToSouth(c: Coordinate)
    requires c.AquariusLat? && c.lines > 0
    ensures var all := Extended(c, c.lines);
            && all[c.lines - 1] == c.swPoint
            && all[0] == c.swPoint + (c.lines - 1) as real * c.step
            && (0.0 < c.step ==> forall i, j :: 0 <= i < j < c.lines ==> all[j] < all[i])
  {
    if 0.0 < c.step {
      forall i, j | 0 <= i < j < c.lines
        ensures Point(c, j) < Point(c, i)
      {
        assert (c.lines - 1 - i) as real * c.step == (c.lines - 1 - j) as real * c.step + (j - i) as real * c.step;
      }
    }
  }
}
