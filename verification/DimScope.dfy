/**
  Shared dimensions in DAP4: which dimension object a named dimension of a
  variable is bound to, by a walk from the variable's group to the root.
*/
module DimScope {
  import opened Common
  import opened Paths

  class D4Dimension {
    const name: string
    const size: nat

    constructor (name: string, size: nat)
      ensures this.name == name && this.size == size
    {
      this.name, this.size := name, size;
    }
  }

  /** The first dimension of that name. */
  function First(entries: seq<D4Dimension>, name: string): (d: D4Dimension?)
    ensures d == null <==> forall i :: 0 <= i < |entries| ==> entries[i].name != name
    ensures d != null ==> d in entries && d.name == name
  {
    if entries == [] then null
    else if entries[0].name == name then entries[0]
    else First(entries[1..], name)
  }

  /** Appending does not change what a name is found to be, unless it was not found. */
  lemma {:induction false} FirstAppend(entries: seq<D4Dimension>, more: seq<D4Dimension>, name: string)
    ensures First(entries + more, name) == if First(entries, name) != null then First(entries, name) else First(more, name)
  {
    if entries == [] {
      assert entries + more == more;
    } else {
      assert (entries + more)[1..] == entries[1..] + more;
      FirstAppend(entries[1..], more, name);
    }
  }

  /** The dimensions declared in one group. */
  class D4Dimensions {
    var entries: seq<D4Dimension>

    constructor ()
      ensures entries == []
    {
      entries := [];
    }

    function FindDim(name: string): D4Dimension?
      reads this
    {
      First(entries, name)
    }

    method AddDim(d: D4Dimension)
      modifies this
      ensures entries == old(entries) + [d]
    {
      entries := entries + [d];
    }
  }

  /** A group with its chain of parents. Its dimensions are an object of their own that lookups add to. */
  datatype D4Group = D4Group(name: string, parent: Option<D4Group>, dims: D4Dimensions)
  {
    /** The fully qualified name; that of the root is a slash. */
    function FQN(): string
    {
      match parent
      case None => "/"
      case Some(p) => p.FQN() + name + "/"
    }

    ghost function Components(): seq<string>
    {
      match parent
      case None => []
      case Some(p) => p.Components() + [name]
    }
  }

  /** The group and its ancestors, the root last. */
  ghost function Chain(g: D4Group): (c: seq<D4Group>)
    ensures |c| > 0 && c[0] == g
  {
    match g.parent
    case None => [g]
    case Some(p) => [g] + Chain(p)
  }

  lemma {:induction false} FQNIsDir(g: D4Group)
    ensures g.FQN() == Dir(g.Components())
  {
    match g.parent
    case None =>
    case Some(p) =>
      FQNIsDir(p);
      TailSnoc(p.Components(), g.name);
  }

  lemma SmallGroups(d: D4Dimensions)
    ensures D4Group("b", Some(D4Group("a", Some(D4Group("", None, d)), d)), d).FQN() == "/a/b/"
  {
    var root := D4Group("", None, d);
    var a := D4Group("a", Some(root), d);
    assert root.FQN() == "/";
    assert a.FQN() == "/" + "a" + "/" == "/a/";
    assert D4Group("b", Some(a), d).FQN() == "/a/" + "b" + "/" == "/a/b/";
  }

  /** Going up shortens the name. */
  lemma {:induction false} AncestorPrefix(g: D4Group, i: nat)
    requires i < |Chain(g)|
    ensures Chain(g)[i].FQN() <= g.FQN() && (i > 0 ==> |Chain(g)[i].FQN()| < |g.FQN()|)
  {
    if i > 0 {
      AncestorPrefix(g.parent.value, i - 1);
      assert g.parent.value.FQN() <= g.FQN();
    }
  }

  predicate Related(p: string, q: string)
  {
    p <= q || q <= p
  }

  lemma SelfRelated(p: string)
    ensures Related(p, p)
  {
  }

  lemma RelatedSymmetric(p: string, q: string)
    ensures Related(p, q) == Related(q, p)
  {
  }

  lemma ParentRelated(g: D4Group, path: string)
    requires g.parent.Some? && Related(g.FQN(), path)
    ensures Related(g.parent.value.FQN(), path)
  {
    var p, q := g.parent.value.FQN(), g.FQN();
    assert p <= q;
    if q <= path {
    } else if |p| <= |path| {
      assert p == q[..|p|] == path[..|p|];
    } else {
      assert path == q[..|path|] == p[..|path|];
    }
  }

  /** The dimensions declared in the group and in its ancestors. */
  ghost function Tables(g: D4Group): (t: seq<seq<D4Dimension>>)
    reads set x | x in Chain(g) :: x.dims
    ensures |t| == |Chain(g)| && forall i :: 0 <= i < |t| ==> t[i] == Chain(g)[i].dims.entries
  {
    match g.parent
    case None => [g.dims.entries]
    case Some(p) => [g.dims.entries] + Tables(p)
  }

  /** The dimension of that name in the group on the chain whose name is `path`. */
  ghost function Target(g: D4Group, tables: seq<seq<D4Dimension>>, name: string, path: string): (d: D4Dimension?)
    requires |tables| == |Chain(g)|
    ensures d != null ==> d.name == name
  {
    if g.FQN() == path then First(tables[0], name)
    else match g.parent
      case None => null
      case Some(p) => Target(p, tables[1..], name, path)
  }

  /** No group has a name longer than its own above it. */
  lemma {:induction false} NoTargetAbove(g: D4Group, tables: seq<seq<D4Dimension>>, name: string, path: string)
    requires |tables| == |Chain(g)| && |g.FQN()| < |path|
    ensures Target(g, tables, name, path) == null
  {
    match g.parent
    case None =>
    case Some(p) =>
      assert |p.FQN()| < |g.FQN()|;
      NoTargetAbove(p, tables[1..], name, path);
  }

  /** The group of that name is the only one of it, so it decides. */
  lemma {:induction false} TargetIsHome(g: D4Group, tables: seq<seq<D4Dimension>>, name: string, path: string)
    requires |tables| == |Chain(g)|
    ensures forall i :: 0 <= i < |tables| && Chain(g)[i].FQN() == path ==> Target(g, tables, name, path) == First(tables[i], name)
    ensures (forall i :: 0 <= i < |tables| ==> Chain(g)[i].FQN() != path) ==> Target(g, tables, name, path) == null
  {
    forall i | 0 <= i < |tables|
      ensures i > 0 ==> |Chain(g)[i].FQN()| < |g.FQN()|
    {
      AncestorPrefix(g, i);
    }
    if g.parent.Some? {
      TargetIsHome(g.parent.value, tables[1..], name, path);
      assert forall i :: 0 < i < |tables| ==> Chain(g)[i] == Chain(g.parent.value)[i - 1];
      if (forall i :: 0 <= i < |tables| ==> Chain(g)[i].FQN() != path) {
        forall i | 0 <= i < |tables[1..]|
          ensures Chain(g.parent.value)[i].FQN() != path
        {
          assert Chain(g)[i + 1] == Chain(g.parent.value)[i];
        }
      }
    }
  }

  /** One step up keeps the target, unless it was found. */
  lemma TargetUp(g: D4Group, name: string, path: string)
    ensures g.FQN() == path ==> Target(g, Tables(g), name, path) == g.dims.FindDim(name)
    ensures g.FQN() != path && g.parent.None? ==> Target(g, Tables(g), name, path) == null
    ensures g.parent.Some? && (g.FQN() != path || g.dims.FindDim(name) == null) ==>
              Target(g.parent.value, Tables(g.parent.value), name, path) == Target(g, Tables(g), name, path)
  {
    if g.parent.Some? {
      var p := g.parent.value;
      assert Tables(g)[1..] == Tables(p);
      if g.FQN() == path {
        assert |p.FQN()| < |g.FQN()|;
        NoTargetAbove(p, Tables(p), name, path);
      }
    }
  }

  /** The walk up. It leaves the path of the dimension exactly if the group is on another one. */
  method WalkUp(grp: D4Group, name: string, dimpath: string) returns (d4Dim: D4Dimension?, isDimNonc4Grp: bool)
    ensures isDimNonc4Grp <==> !Related(grp.FQN(), BeforeLastSlash(dimpath))
    ensures !isDimNonc4Grp ==> d4Dim == Target(grp, Tables(grp), name, BeforeLastSlash(dimpath))
    ensures Tables(grp) == old(Tables(grp))
  {
    hide D4Group.FQN, Chain, Tables, Target, D4Dimensions.FindDim, BeforeLastSlash, Related;
    ghost var path := BeforeLastSlash(dimpath);
    var tempGrp := Some(grp);
    d4Dim, isDimNonc4Grp := null, false;
    while tempGrp.Some?
      invariant !isDimNonc4Grp && d4Dim == null
      invariant tempGrp.Some? && tempGrp != Some(grp) ==> Related(tempGrp.value.FQN(), path) && Related(grp.FQN(), path)
      invariant tempGrp.Some? ==> Target(tempGrp.value, Tables(tempGrp.value), name, path) == Target(grp, Tables(grp), name, path)
      invariant Tables(grp) == old(Tables(grp))
      invariant tempGrp.None? ==> Related(grp.FQN(), path) && Target(grp, Tables(grp), name, path) == null
      decreases tempGrp
    {
      var g := tempGrp.value;
      d4Dim := g.dims.FindDim(name);
      var d4DimPath := BeforeLastSlash(dimpath);
      var ancestorGrp := Related(d4DimPath, g.FQN());
      RelatedSymmetric(d4DimPath, g.FQN());
      TargetUp(g, name, path);
      if d4Dim != null && g.FQN() == d4DimPath {
        SelfRelated(path);
        return;
      } else if !ancestorGrp {
        isDimNonc4Grp := true;
        return;
      } else {
        d4Dim := null;
      }
      if g.parent.Some? {
        ParentRelated(g, path);
      }
      tempGrp := g.parent;
    }
  }

  /** A dimension of an array, and the shared dimension it is bound to. */
  datatype Dim = Dim(size: nat, name: string, dim: D4Dimension?)

  /** No ancestor shares the table of dimensions of the group. */
  ghost predicate OwnTable(grp: D4Group)
  {
    forall i :: 0 < i < |Chain(grp)| ==> Chain(grp)[i].dims != grp.dims
  }

  lemma ChainOf(g: D4Group) returns (c: seq<D4Group>)
    ensures c == Chain(g)
  {
    c := Chain(g);
  }

  /** Only lookups of a missing dimension in the group itself change when a dimension is added to it. */
  lemma TargetKept(g: D4Group, tables: seq<seq<D4Dimension>>, more: seq<D4Dimension>, name: string, path: string)
    requires |tables| == |Chain(g)|
    ensures Target(g, tables[0 := tables[0] + more], name, path)
            == if path == g.FQN() && Target(g, tables, name, path) == null then First(more, name) else Target(g, tables, name, path)
  {
    hide D4Group.FQN;
    FirstAppend(tables[0], more, name);
    assert tables[0 := tables[0] + more][1..] == tables[1..];
  }

  method AddNewDimension(grp: D4Group, name: string, size: nat) returns (d: D4Dimension)
    requires OwnTable(grp)
    modifies grp.dims
    ensures fresh(d) && d.name == name && d.size == size
    ensures Tables(grp) == old(Tables(grp))[0 := old(Tables(grp))[0] + [d]]
  {
    ghost var chain := ChainOf(grp);
    ghost var tables := Tables(grp);
    d := new D4Dimension(name, size);
    grp.dims.AddDim(d);
    forall i | 0 < i < |chain|
      ensures chain[i].dims.entries == tables[i]
    {
      assert chain[i].dims.entries == old(chain[i].dims.entries);
    }
  }

  /**
    What a dimension must be bound to: if its home on the chain declares it,
    to that declaration, otherwise to a dimension of the group.
  */
  ghost predicate Bound(grp: D4Group, tables: seq<seq<D4Dimension>>, path: string, d: Dim, out: Dim)
    requires |tables| == |Chain(grp)|
  {
    if d.name == "" then out == d
    else
      && out == d.(dim := out.dim) && out.dim != null && out.dim.name == d.name
      && var target := Target(grp, tables, d.name, path);
         if target != null then out.dim == target
         else out.dim in tables[0] && out.dim.size == d.size
  }

  lemma BoundToNew(grp: D4Group, tables: seq<seq<D4Dimension>>, path: string, d: Dim, fresh': D4Dimension)
    requires |tables| == |Chain(grp)| && d.name != "" && fresh'.name == d.name && fresh'.size == d.size
    requires Target(grp, tables, d.name, path) == null
    ensures Bound(grp, tables[0 := tables[0] + [fresh']], path, d, d.(dim := fresh'))
  {
    TargetKept(grp, tables, [fresh'], d.name, path);
  }

  lemma BoundStays(grp: D4Group, tables: seq<seq<D4Dimension>>, more: seq<D4Dimension>, path: string, d: Dim, out: Dim)
    requires |tables| == |Chain(grp)| && Bound(grp, tables, path, d, out)
    ensures Bound(grp, tables[0 := tables[0] + more], path, d, out)
  {
    hide D4Group.FQN;
    TargetKept(grp, tables, more, d.name, path);
    if d.name != "" && Target(grp, tables, d.name, path) == null {
      if path == grp.FQN() {
        assert false;
      }
    }
  }

  lemma NothingAdded<T>(tables: seq<seq<T>>)
    requires |tables| > 0
    ensures tables[0 := tables[0] + []] == tables
  {
    assert tables[0] + [] == tables[0];
  }

  /** One dimension: bound to the target of the walk, or else to a new dimension of the group; `None` stands for an exception. */
  method BindDimension(grp: D4Group, d: Dim, dimpath: string) returns (r: Option<Dim>, ghost more: seq<D4Dimension>)
    requires OwnTable(grp)
    modifies grp.dims
    ensures r.None? <==> d.name != "" && !Related(grp.FQN(), BeforeLastSlash(dimpath))
    ensures r.Some? ==> Bound(grp, Tables(grp), BeforeLastSlash(dimpath), d, r.value)
    ensures Tables(grp) == old(Tables(grp))[0 := old(Tables(grp))[0] + more]
    ensures if r.Some? && d.name != "" && old(Target(grp, Tables(grp), d.name, BeforeLastSlash(dimpath))) == null
            then r.value.dim != null && more == [r.value.dim] && fresh(r.value.dim)
            else more == []
  {
    hide D4Group.FQN, Chain, Tables, BeforeLastSlash, Related;
    more := [];
    NothingAdded(Tables(grp));
    if d.name == "" {
      return Some(d), [];
    }
    var d4Dim, isDimNonc4Grp := WalkUp(grp, d.name, dimpath);
    if isDimNonc4Grp {
      return None, [];
    }
    if d4Dim == null {
      ghost var tables := Tables(grp);
      d4Dim := AddNewDimension(grp, d.name, d.size);
      more := [d4Dim];
      BoundToNew(grp, tables, BeforeLastSlash(dimpath), d, d4Dim);
    }
    r := Some(d.(dim := d4Dim));
  }

  lemma AddedTwice<T>(tables: seq<seq<T>>, more: seq<T>, again: seq<T>)
    requires |tables| > 0
    ensures var once := tables[0 := tables[0] + more];
            once[0 := once[0] + again] == tables[0 := tables[0] + (more + again)]
  {
    assert tables[0] + more + again == tables[0] + (more + again);
  }

  /**
    The DAP4 copy of an array's dimensions. It throws exactly if the group and
    the directory of some named dimension are on different paths; otherwise
    every dimension is bound properly with respect to the final declarations,
    to which new ones were only added, at the end of the group's own, each for
    one of these dimensions.
  */
  method H5dimsTransformToDap4(grp: Option<D4Group>, dims: seq<Dim>, dimpath: seq<string>)
    returns (r: Result<Option<seq<Dim>>, string>, ghost more: seq<D4Dimension>)
    requires |dimpath| == |dims| && (grp.Some? ==> OwnTable(grp.value))
    modifies if grp.Some? then {grp.value.dims} else {}
    ensures grp == None ==> r == Ok(None)
    ensures grp.Some? ==> (r.Err? <==> exists k :: 0 <= k < |dims| && OffPath(grp.value, dims[k], dimpath[k]))
    ensures grp.Some? && r.Ok? ==> r.value.Some? && |r.value.value| == |dims|
    ensures grp.Some? && r.Ok? ==>
              forall k :: 0 <= k < |dims| ==>
                Bound(grp.value, Tables(grp.value), BeforeLastSlash(dimpath[k]), dims[k], r.value.value[k])
    ensures grp.Some? ==> Tables(grp.value) == old(Tables(grp.value))[0 := old(Tables(grp.value))[0] + more]
    ensures forall d :: d in more ==> fresh(d)
    ensures grp.Some? && r.Ok? ==> forall d :: d in more ==> exists k :: 0 <= k < |dims| && r.value.value[k].dim == d
  {
    hide D4Group.FQN, Chain, Tables, BeforeLastSlash, Related, Bound;
    more := [];
    if grp == None {
      return Ok(None), [];
    }
    ghost var tables := Tables(grp.value);
    NothingAdded(tables);
    var dest := dims;
    var k := 0;
    while k < |dest|
      invariant 0 <= k <= |dest| == |dims| && dest[k..] == dims[k..]
      invariant Tables(grp.value) == tables[0 := tables[0] + more]
      invariant forall d :: d in more ==> fresh(d) && exists j :: 0 <= j < k && dest[j].dim == d
      invariant forall j :: 0 <= j < k ==> !OffPath(grp.value, dims[j], dimpath[j])
      invariant forall j :: 0 <= j < k ==> Bound(grp.value, Tables(grp.value), BeforeLastSlash(dimpath[j]), dims[j], dest[j])
    {
      assert dest[k] == dest[k..][0] == dims[k];
      ghost var before := Tables(grp.value);
      ghost var again;
      var bound;
      bound, again := BindDimension(grp.value, dest[k], dimpath[k]);
      AddedTwice(tables, more, again);
      more := more + again;
      if bound == None {
        return Err(dimpath[k]), more;
      }
      forall j | 0 <= j < k
        ensures Bound(grp.value, Tables(grp.value), BeforeLastSlash(dimpath[j]), dims[j], dest[j])
      {
        BoundStays(grp.value, before, again, BeforeLastSlash(dimpath[j]), dims[j], dest[j]);
      }
      ghost var was := dest;
      dest := dest[k := bound.value];
      forall d | d in more
        ensures exists j :: 0 <= j < k + 1 && dest[j].dim == d
      {
        if d in again {
          assert dest[k].dim == d;
        } else {
          var j :| 0 <= j < k && was[j].dim == d;
          assert dest[j].dim == d;
        }
      }
      k := k + 1;
    }
    r := Ok(Some(dest));
  }

  /** The group is neither above nor below the directory of the dimension. */
  predicate OffPath(grp: D4Group, d: Dim, dimpath: string)
  {
    d.name != "" && !Related(grp.FQN(), BeforeLastSlash(dimpath))
  }

  // ----- in terms of directories

  /** For a dimension at a path, the exception means that neither directory is an ancestor of the other. */
  lemma OffPathIsUnrelated(grp: D4Group, d: Dim, dir: seq<string>, base: string)
    requires AllSlashFree(grp.Components()) && AllSlashFree(dir) && SlashFree(base) && d.name != ""
    ensures OffPath(grp, d, Dir(dir) + base) <==> !(grp.Components() <= dir) && !(dir <= grp.Components())
  {
    DirectoryOf(dir, base);
    FQNIsDir(grp);
    DirIsAncestor(grp.Components(), dir);
    DirIsAncestor(dir, grp.Components());
  }

  lemma {:induction false} ChainComponents(g: D4Group, i: nat)
    requires i < |Chain(g)|
    ensures |Chain(g)| == |g.Components()| + 1 && Chain(g)[i].Components() == g.Components()[..|g.Components()| - i]
  {
    if i > 0 {
      ChainComponents(g.parent.value, i - 1);
    } else if g.parent.Some? {
      ChainComponents(g.parent.value, 0);
    }
  }

  /**
    The target is looked up in the ancestor that is the directory of the
    dimension; a directory that is no ancestor has no target.
  */
  lemma TargetInDirectory(g: D4Group, tables: seq<seq<D4Dimension>>, name: string, dir: seq<string>, base: string)
    requires |tables| == |Chain(g)| && AllSlashFree(g.Components()) && AllSlashFree(dir) && SlashFree(base)
    ensures |Chain(g)| == |g.Components()| + 1
    ensures Target(g, tables, name, BeforeLastSlash(Dir(dir) + base))
            == if dir <= g.Components() then First(tables[|g.Components()| - |dir|], name) else null
  {
    DirectoryOf(dir, base);
    ChainComponents(g, 0);
    TargetIsHome(g, tables, name, Dir(dir));
    if dir <= g.Components() {
      var i := |g.Components()| - |dir|;
      ChainComponents(g, i);
      assert Chain(g)[i].Components() == dir;
      FQNIsDir(Chain(g)[i]);
    } else {
      forall i | 0 <= i < |Chain(g)|
        ensures Chain(g)[i].FQN() != Dir(dir)
      {
        ChainComponents(g, i);
        FQNIsDir(Chain(g)[i]);
        DirIsAncestor(Chain(g)[i].Components(), dir);
      }
    }
  }

  /**
    A dimension of a directory below the group has no target, so each lookup
    adds a dimension of that name to the group, however many it has already.
  */
  lemma BelowAlwaysAdds(g: D4Group, tables: seq<seq<D4Dimension>>, d: Dim, dir: seq<string>, base: string)
    requires |tables| == |Chain(g)| && AllSlashFree(g.Components()) && AllSlashFree(dir) && SlashFree(base)
    requires g.Components() < dir && d.name != ""
    ensures !OffPath(g, d, Dir(dir) + base) && Target(g, tables, d.name, BeforeLastSlash(Dir(dir) + base)) == null
  {
    OffPathIsUnrelated(g, d, dir, base);
    TargetInDirectory(g, tables, d.name, dir, base);
  }
}
