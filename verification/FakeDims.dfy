/**
  Names for dimensions that have none: one name per size, shared between
  variables, but never twice in the same variable.
*/
module FakeDims {
  import opened Names

  class Dimension {
    const size: nat
    const unlimited: bool
    var name: string
    var newname: string

    constructor (size: nat, unlimited: bool)
      ensures this.size == size && this.unlimited == unlimited && name == "" && newname == ""
    {
      this.size, this.unlimited := size, unlimited;
      name, newname := "", "";
    }
  }

  function FakeDim(k: nat): string
  {
    "FakeDim" + Dec(k)
  }

  lemma FirstFakeDims()
    ensures FakeDim(0) == "FakeDim0" && FakeDim(12) == "FakeDim12"
  {
    assert Dec(12) == Dec(1) + [Digit(2)] == "12";
  }

  lemma OnlyOne(k: nat)
    ensures forall j: nat :: FakeDim(j) == FakeDim(k) ==> j == k
  {
    forall j: nat | FakeDim(j) == FakeDim(k)
      ensures j == k
    {
      SuffixInjective("FakeDim", j, k);
    }
  }

  ghost predicate DistinctDims(dims: seq<Dimension>)
  {
    forall i, j :: 0 <= i < j < |dims| ==> dims[i] != dims[j]
  }

  ghost predicate Sizes(dims: seq<Dimension>, sizes: seq<nat>)
  {
    |sizes| == |dims| && forall i :: 0 <= i < |dims| ==> sizes[i] == dims[i].size
  }

  /** The dimensions have these names. */
  ghost predicate Carry(dims: seq<Dimension>, names: seq<string>)
    reads dims
  {
    |names| == |dims| && forall i :: 0 <= i < |dims| ==> dims[i].name == dims[i].newname == names[i]
  }

  ghost function AllDims(vars: seq<seq<Dimension>>): set<Dimension>
  {
    set v, i | 0 <= v < |vars| && 0 <= i < |vars[v]| :: vars[v][i]
  }

  /** No dimension object occurs twice, in one variable or in two. */
  ghost predicate Separate(vars: seq<seq<Dimension>>)
  {
    && (forall v :: 0 <= v < |vars| ==> DistinctDims(vars[v]))
    && (forall u, v, i, j :: 0 <= u < v < |vars| && 0 <= i < |vars[u]| && 0 <= j < |vars[v]| ==> vars[u][i] != vars[v][j])
  }

  // ----- the names of one variable

  /** No earlier dimension of the variable has the size of dimension `i`. */
  ghost predicate FirstOfSize(sizes: seq<nat>, i: nat)
    requires i < |sizes|
  {
    forall j :: 0 <= j < i ==> sizes[j] != sizes[i]
  }

  /**
    `names` are proper names for dimensions of these sizes: each is recorded
    with its size, no two are equal, and the first dimension of every size has
    the name that size shares between variables.
  */
  ghost predicate Proper(names: seq<string>, sizes: seq<nat>, shared: map<nat, string>, recorded: map<string, nat>)
  {
    && |names| == |sizes|
    && (forall i :: 0 <= i < |names| ==> names[i] in recorded && recorded[names[i]] == sizes[i])
    && (forall i, j :: 0 <= i < j < |names| ==> names[i] != names[j])
    && (forall i :: 0 <= i < |names| && FirstOfSize(sizes, i) ==> sizes[i] in shared && shared[sizes[i]] == names[i])
  }

  ghost predicate Extends<K, V>(bigger: map<K, V>, smaller: map<K, V>)
  {
    forall k :: k in smaller ==> k in bigger && bigger[k] == smaller[k]
  }

  lemma NoNames(shared: map<nat, string>, recorded: map<string, nat>)
    ensures Proper([], [], shared, recorded)
  {
  }

  lemma SameTable(shared: map<nat, string>, recorded: map<string, nat>)
    ensures Extends(shared, shared) && Extends(recorded, recorded)
  {
  }

  lemma ExtendsTrans<K, V>(a: map<K, V>, b: map<K, V>, c: map<K, V>)
    requires Extends(b, a) && Extends(c, b)
    ensures Extends(c, a)
  {
  }

  /** The table only grows, so names stay proper. */
  lemma StayProper(names: seq<string>, sizes: seq<nat>, shared: map<nat, string>, recorded: map<string, nat>,
                   shared': map<nat, string>, recorded': map<string, nat>)
    requires Proper(names, sizes, shared, recorded) && Extends(shared', shared) && Extends(recorded', recorded)
    ensures Proper(names, sizes, shared', recorded')
  {
  }

  /** One more dimension: the shared name if its size is new, otherwise a name the others do not have. */
  lemma AddProper(names: seq<string>, sizes: seq<nat>, shared: map<nat, string>, recorded: map<string, nat>,
                  name: string, size: nat)
    requires Proper(names, sizes, shared, recorded)
    requires name in recorded && recorded[name] == size
    requires if size in sizes then name !in names else size in shared && shared[size] == name
    ensures Proper(names + [name], sizes + [size], shared, recorded)
  {
    var names', sizes' := names + [name], sizes + [size];
    forall i, j | 0 <= i < j < |names'|
      ensures names'[i] != names'[j]
    {
      if j == |names| && size !in sizes {
        assert recorded[names[i]] == sizes[i] != size;
      }
    }
    forall i | 0 <= i < |names'| && FirstOfSize(sizes', i)
      ensures sizes'[i] in shared && shared[sizes'[i]] == names'[i]
    {
      if i < |names| {
        assert forall j :: 0 <= j < i ==> sizes'[j] == sizes[j];
        assert FirstOfSize(sizes, i);
      } else {
        assert forall j :: 0 <= j < |sizes| ==> sizes'[j] == sizes[j];
      }
    }
  }

  /** A size that has occurred has a shared name: that of its first dimension. */
  lemma {:induction false} SeenIsShared(names: seq<string>, sizes: seq<nat>, shared: map<nat, string>, recorded: map<string, nat>, i: nat)
    requires Proper(names, sizes, shared, recorded) && i < |sizes|
    ensures sizes[i] in shared
  {
    if !FirstOfSize(sizes, i) {
      var j :| 0 <= j < i && sizes[j] == sizes[i];
      SeenIsShared(names, sizes, shared, recorded, j);
    }
  }

  /** Proper names are recorded names. */
  lemma RecordedNames(names: seq<string>, sizes: seq<nat>, shared: map<nat, string>, recorded: map<string, nat>, name: string)
    requires Proper(names, sizes, shared, recorded)
    ensures name in names ==> name in recorded
  {
  }

  class DimensionTable {
    const dimnamelist: NameSet
    var dimsizeToFakedimname: map<nat, string>
    var dimnameToDimsize: map<string, nat>
    var dimnameToUnlimited: map<string, bool>
    var addeddimindex: nat

    constructor ()
      ensures Valid() && fresh(dimnamelist) && addeddimindex == 0 && dimnameToDimsize == map[]
    {
      dimnamelist := new NameSet();
      dimsizeToFakedimname, dimnameToDimsize, dimnameToUnlimited := map[], map[], map[];
      addeddimindex := 0;
    }

    ghost predicate Unused(k: nat)
      reads this, dimnamelist
    {
      FakeDim(k) !in dimnamelist.names && FakeDim(k) !in dimnameToDimsize && FakeDim(k) !in dimnameToUnlimited
    }

    /** Generated names lie ahead, and the name kept for a size is the name of a dimension of that size. */
    ghost predicate Valid()
      reads this, dimnamelist
    {
      && (forall k :: addeddimindex <= k ==> Unused(k))
      && (forall size :: size in dimsizeToFakedimname ==>
            dimsizeToFakedimname[size] in dimnameToDimsize && dimnameToDimsize[dimsizeToFakedimname[size]] == size)
    }

    /** The table knows a dimension of that name and size. */
    ghost predicate Recorded(name: string, size: nat)
      reads this
    {
      name in dimnameToDimsize && dimnameToDimsize[name] == size
    }

    /** Entering one generated name leaves the later ones unused. */
    twostate lemma StillUnused(added: string)
      requires dimnamelist.names <= old(dimnamelist.names) + {added}
      requires dimnameToDimsize.Keys <= old(dimnameToDimsize).Keys + {added}
      requires dimnameToUnlimited.Keys <= old(dimnameToUnlimited).Keys + {added}
      requires old(addeddimindex) < addeddimindex
      requires exists k: nat :: k < addeddimindex && added == FakeDim(k)
      ensures old(Valid()) ==> forall k :: addeddimindex <= k ==> Unused(k)
    {
      if old(Valid()) {
        var n: nat :| n < addeddimindex && added == FakeDim(n);
        forall k | addeddimindex <= k
          ensures Unused(k)
        {
          OnlyOne(n);
          assert old(Unused(k)) && FakeDim(k) != added;
        }
      }
    }

    /** Sizes once recorded for a name, and the name shared by a size, never change. */
    twostate predicate Grows()
      reads this
    {
      Extends(dimnameToDimsize, old(dimnameToDimsize)) && Extends(dimsizeToFakedimname, old(dimsizeToFakedimname))
    }

    method InsertOneNameSizeMapElement(name: string, size: nat, unlimited: bool) returns (ok: bool)
      modifies this`dimnameToDimsize, this`dimnameToUnlimited
      ensures ok <==> name !in old(dimnameToDimsize) && name !in old(dimnameToUnlimited)
      ensures ok ==> dimnameToDimsize == old(dimnameToDimsize)[name := size]
                     && dimnameToUnlimited == old(dimnameToUnlimited)[name := unlimited]
    {
      if name in dimnameToDimsize {
        return false;
      }
      dimnameToDimsize := dimnameToDimsize[name := size];
      if name in dimnameToUnlimited {
        return false;
      }
      dimnameToUnlimited := dimnameToUnlimited[name := unlimited];
      ok := true;
    }

    /** The name of this size if it has one, otherwise the next generated name. False stands for an exception. */
    method AddOneFakeDimName(dim: Dimension) returns (ok: bool)
      modifies this, dimnamelist, dim
      ensures ok <==> dim.size in old(dimsizeToFakedimname) || old(Unused(addeddimindex))
      ensures ok && dim.size in old(dimsizeToFakedimname) ==>
                unchanged(this) && unchanged(dimnamelist) && dim.name == dimsizeToFakedimname[dim.size]
      ensures ok && dim.size !in old(dimsizeToFakedimname) ==>
                && dim.name == FakeDim(old(addeddimindex)) && addeddimindex == old(addeddimindex) + 1
                && dimsizeToFakedimname == old(dimsizeToFakedimname)[dim.size := dim.name]
                && dimnameToDimsize == old(dimnameToDimsize)[dim.name := dim.size]
                && dimnameToUnlimited == old(dimnameToUnlimited)[dim.name := dim.unlimited]
                && dimnamelist.names == old(dimnamelist.names) + {dim.name}
      ensures ok ==> dim.newname == dim.name
      ensures old(Valid()) ==> ok && Valid() && Grows() && Recorded(dim.name, dim.size)
    {
      OnlyOne(addeddimindex);
      var added := FakeDim(addeddimindex);
      if dim.size in dimsizeToFakedimname {
        dim.name := dimsizeToFakedimname[dim.size];
        dim.newname := dim.name;
        return true;
      }
      dimsizeToFakedimname := dimsizeToFakedimname[dim.size := added];
      var inserted := dimnamelist.Insert(added);
      if !inserted {
        // The generated name is entered a second time, which always fails.
        var unique, index := GenUniqueName(added + "_", dimnamelist, 1);
        dim.name := unique;
        dim.newname := unique;
        var again := dimnamelist.Insert(unique);
        assert !again;
        return false;
      }
      dim.name := added;
      dim.newname := dim.name;
      ok := InsertOneNameSizeMapElement(dim.name, dim.size, dim.unlimited);
      if ok {
        addeddimindex := addeddimindex + 1;
        StillUnused(added);
      }
    }

    /** A name of its own for a dimension whose size occurs twice in a variable. */
    method AdjustDuplicateFakeDimName(dim: Dimension) returns (ok: bool)
      modifies this, dimnamelist, dim
      ensures ok <==> old(Unused(addeddimindex + 1))
      ensures ok ==>
                && dim.name == FakeDim(old(addeddimindex) + 1) && addeddimindex == old(addeddimindex) + 2
                && dimsizeToFakedimname == old(dimsizeToFakedimname)
                && dimnameToDimsize == old(dimnameToDimsize)[dim.name := dim.size]
                && dimnameToUnlimited == old(dimnameToUnlimited)[dim.name := dim.unlimited]
                && dimnamelist.names == old(dimnamelist.names) + {dim.name}
      ensures ok ==> dim.newname == dim.name
      ensures old(Valid()) ==> ok && Valid() && Grows() && Recorded(dim.name, dim.size)
      ensures old(Valid()) ==> dim.name !in old(dimnamelist.names) && dim.name !in old(dimnameToDimsize)
    {
      OnlyOne(addeddimindex + 1);
      addeddimindex := addeddimindex + 1;
      var added := FakeDim(addeddimindex);
      var inserted := dimnamelist.Insert(added);
      if !inserted {
        var unique, index := GenUniqueName(added + "_", dimnamelist, 1);
        dim.name := unique;
        dim.newname := unique;
        var again := dimnamelist.Insert(unique);
        assert !again;
        return false;
      }
      dim.name := added;
      dim.newname := dim.name;
      ok := InsertOneNameSizeMapElement(dim.name, dim.size, dim.unlimited);
      if ok {
        addeddimindex := addeddimindex + 1;
        StillUnused(added);
      }
    }

    /** One round of the loop over the dimensions of a variable. */
    method NameDimension(dim: Dimension, repeated: bool, ghost names: seq<string>, ghost sizes: seq<nat>) returns (ok: bool)
      requires Valid() && Proper(names, sizes, dimsizeToFakedimname, dimnameToDimsize)
      requires repeated <==> dim.size in sizes
      modifies this, dimnamelist, dim
      ensures ok && Valid() && Grows() && dim.newname == dim.name
      ensures if repeated then dim.name == FakeDim(old(addeddimindex) + 1) && addeddimindex == old(addeddimindex) + 2
              else if dim.size in old(dimsizeToFakedimname) then
                dim.name == old(dimsizeToFakedimname)[dim.size] && addeddimindex == old(addeddimindex)
              else dim.name == FakeDim(old(addeddimindex)) && addeddimindex == old(addeddimindex) + 1
      ensures Proper(names + [dim.name], sizes + [dim.size], dimsizeToFakedimname, dimnameToDimsize)
    {
      hide FakeDim, Dec, Proper, Valid;
      if repeated {
        ghost var i :| 0 <= i < |sizes| && sizes[i] == dim.size;
        SeenIsShared(names, sizes, dimsizeToFakedimname, dimnameToDimsize, i);
      }
      ok := AddOneFakeDimName(dim);
      StayProper(names, sizes, old(dimsizeToFakedimname), old(dimnameToDimsize), dimsizeToFakedimname, dimnameToDimsize);
      ghost var shared, recorded := dimsizeToFakedimname, dimnameToDimsize;
      if repeated {
        ok := AdjustDuplicateFakeDimName(dim);
        RecordedNames(names, sizes, shared, recorded, dim.name);
        StayProper(names, sizes, shared, recorded, dimsizeToFakedimname, dimnameToDimsize);
      }
      AddProper(names, sizes, dimsizeToFakedimname, dimnameToDimsize, dim.name, dim.size);
    }

    /**
      Names the dimensions of one variable: the first of each size gets the
      name shared by that size, every further one a name of its own. From a
      valid table it never throws.
    */
    method NameDimensions(dims: seq<Dimension>, ghost sizes: seq<nat>) returns (ok: bool, ghost names: seq<string>)
      requires Valid() && DistinctDims(dims) && Sizes(dims, sizes)
      modifies this, dimnamelist, dims
      ensures ok && Valid() && Grows()
      ensures Proper(names, sizes, dimsizeToFakedimname, dimnameToDimsize) && Carry(dims, names)
    {
      hide FakeDim, Dec, Proper, Valid, Extends;
      var fakedimsize: set<nat> := {};
      var n := 0;
      names := [];
      NoNames(dimsizeToFakedimname, dimnameToDimsize);
      SameTable(old(dimsizeToFakedimname), old(dimnameToDimsize));
      while n < |dims|
        invariant 0 <= n <= |dims| && |names| == n && Valid() && Grows()
        invariant Proper(names, sizes[..n], dimsizeToFakedimname, dimnameToDimsize)
        invariant forall i :: 0 <= i < n ==> dims[i].name == dims[i].newname == names[i]
        invariant forall size :: size in fakedimsize <==> size in sizes[..n]
      {
        ghost var shared, recorded := dimsizeToFakedimname, dimnameToDimsize;
        ok := NameDimension(dims[n], dims[n].size in fakedimsize, names, sizes[..n]);
        ExtendsTrans(old(dimsizeToFakedimname), shared, dimsizeToFakedimname);
        ExtendsTrans(old(dimnameToDimsize), recorded, dimnameToDimsize);
        fakedimsize := fakedimsize + {dims[n].size};
        names := names + [dims[n].name];
        assert sizes[..n + 1] == sizes[..n] + [dims[n].size];
        n := n + 1;
      }
      assert sizes[..n] == sizes;
      ok := true;
    }

    /**
      All variables of a file. The names of every variable are proper in the
      final table, so two variables that first meet a size give it one name.
    */
    method NameVariables(vars: seq<seq<Dimension>>, ghost sizes: seq<seq<nat>>) returns (ok: bool, ghost names: seq<seq<string>>)
      requires Valid() && Separate(vars)
      requires |sizes| == |vars| && forall v :: 0 <= v < |vars| ==> Sizes(vars[v], sizes[v])
      modifies this, dimnamelist, AllDims(vars)
      ensures ok && Valid() && Grows() && |names| == |vars|
      ensures forall v :: 0 <= v < |vars| ==>
                Proper(names[v], sizes[v], dimsizeToFakedimname, dimnameToDimsize) && Carry(vars[v], names[v])
    {
      hide FakeDim, Dec, Proper, Valid, Extends, Carry, Sizes;
      names := [];
      SameTable(old(dimsizeToFakedimname), old(dimnameToDimsize));
      var v := 0;
      while v < |vars|
        invariant 0 <= v <= |vars| && |names| == v && Valid() && Grows()
        invariant forall u :: 0 <= u < v ==> Proper(names[u], sizes[u], dimsizeToFakedimname, dimnameToDimsize)
        invariant forall u :: 0 <= u < v ==> Carry(vars[u], names[u])
      {
        ghost var shared, recorded := dimsizeToFakedimname, dimnameToDimsize;
        ghost var given;
        ok, given := NameDimensions(vars[v], sizes[v]);
        ExtendsTrans(old(dimsizeToFakedimname), shared, dimsizeToFakedimname);
        ExtendsTrans(old(dimnameToDimsize), recorded, dimnameToDimsize);
        forall u | 0 <= u < v
          ensures Proper(names[u], sizes[u], dimsizeToFakedimname, dimnameToDimsize)
        {
          StayProper(names[u], sizes[u], shared, recorded, dimsizeToFakedimname, dimnameToDimsize);
        }
        names := names + [given];
        v := v + 1;
      }
      ok := true;
    }
  }
}
