/**
  Names in a "coordinates" attribute, made into full paths: a name without a
  path gets the directory of the variable, leading "../" steps are taken up
  from that directory.
*/
module CoordPath {
  import opened Common
  import opened Paths

  // ----- occurrences of a substring

  predicate Occurs(s: string, sub: string, i: nat)
  {
    i + |sub| <= |s| && s[i..i + |sub|] == sub
  }

  /** All positions from `at` on where `sub` occurs, in order. */
  function Occurrences(s: string, sub: string, at: nat): (ps: seq<nat>)
    ensures forall i :: 0 <= i < |ps| ==> at <= ps[i] <= ps[i] + |sub| <= |s| && Occurs(s, sub, ps[i])
    decreases |s| - at
  {
    if at >= |s| then []
    else (if Occurs(s, sub, at) then [at] else []) + Occurrences(s, sub, at + 1)
  }

  /** The occurrences from the found position `p` on. */
  function Upcoming(s: string, sub: string, p: nat): seq<nat>
  {
    if p < |s| then [p] + Occurrences(s, sub, p + 1) else []
  }

  /** The first position from `at` on, as a string search returns it; `|s|` if there is none. */
  function Find(s: string, sub: string, at: nat): (p: nat)
    requires sub != ""
    ensures p < |s| ==> at <= p && Occurs(s, sub, p)
    ensures p <= |s| && Occurrences(s, sub, at) == Upcoming(s, sub, p)
    decreases |s| - at
  {
    if at >= |s| then |s|
    else if Occurs(s, sub, at) then at
    else Find(s, sub, at + 1)
  }

  method GetRelpathPos(tempStr: string, relpath: string) returns (sPos: seq<nat>)
    requires relpath != ""
    ensures sPos == Occurrences(tempStr, relpath, 0)
  {
    hide Occurrences, Occurs;
    sPos := [];
    var pos := Find(tempStr, relpath, 0);
    while pos < |tempStr|
      invariant pos <= |tempStr|
      invariant Occurrences(tempStr, relpath, 0) == sPos + Upcoming(tempStr, relpath, pos)
      decreases |tempStr| - pos
    {
      ConcatAssoc(sPos, [pos], Occurrences(tempStr, relpath, pos + 1));
      sPos := sPos + [pos];
      pos := Find(tempStr, relpath, pos + 1);
    }
  }

  /** They are all there are, in increasing order. */
  lemma {:induction false} OccurrencesAre(s: string, sub: string, at: nat)
    requires sub != ""
    ensures forall i: nat :: i in Occurrences(s, sub, at) <==> at <= i && i + |sub| <= |s| && s[i..i + |sub|] == sub
    ensures forall j, k :: 0 <= j < k < |Occurrences(s, sub, at)| ==> Occurrences(s, sub, at)[j] < Occurrences(s, sub, at)[k]
    decreases |s| - at
  {
    if at < |s| {
      OccurrencesAre(s, sub, at + 1);
    }
  }

  /** Positions without an occurrence can be skipped. */
  lemma {:induction false} Skip(s: string, sub: string, at: nat, to: nat)
    requires at <= to <= |s| && forall i :: at <= i < to ==> !Occurs(s, sub, i)
    ensures Occurrences(s, sub, at) == Occurrences(s, sub, to)
    decreases if at < to then to - at else 0
  {
    if at < to {
      Skip(s, sub, at + 1, to);
    }
  }

  lemma OccursSlash(s: string, i: nat)
    ensures Occurs(s, "/", i) <==> i < |s| && s[i] == '/'
  {
    if i < |s| {
      assert s[i..i + 1][0] == s[i];
    }
  }

  lemma SlashInside(s: string)
    requires Occurrences(s, "/", 1) != []
    ensures |BeforeLastSlash(s)| >= 2
  {
    hide Occurrences, Occurs;
    OccursSlash(s, Occurrences(s, "/", 1)[0]);
  }

  // ----- the rewriting of one name

  /** What becomes of the name `co` in an attribute of the variable at `vpath`. */
  function Reduced(co: string, vpath: string): string
  {
    var seps, ups := Occurrences(vpath, "/", 0), Occurrences(co, "../", 0);
    if Occurrences(vpath, "/", 1) == [] then co
    else if Occurrences(co, "/", 0) == [] then
      SlashInside(vpath);
      BeforeLastSlash(vpath)[1..] + co
    else if ups != [] && ups[0] == 0 && |ups| < |seps| then
      var varPrefixPos, last := seps[|seps| - |ups| - 1], ups[|ups| - 1];
      vpath[1..1 + varPrefixPos] + co[last + 3..]
    else co
  }

  method ChaCo(co: string, vpath: string) returns (r: string)
    ensures r == Reduced(co, vpath)
  {
    hide Occurrences, Occurs, BeforeLastSlash;
    r := co;
    if Find(vpath, "/", 1) < |vpath| {
      if Find(co, "/", 0) < |co| {
        if Find(co, "../", 0) < |co| {
          var varSepPos := GetRelpathPos(vpath, "/");
          var coRpSepPos := GetRelpathPos(co, "../");
          if coRpSepPos[0] == 0 {
            if |coRpSepPos| < |varSepPos| {
              var varPrefixPos := varSepPos[|varSepPos| - |coRpSepPos| - 1];
              var varPrefix := vpath[1..1 + varPrefixPos];
              var coSuffix := co[coRpSepPos[|coRpSepPos| - 1] + 3..];
              r := varPrefix + coSuffix;
            }
          }
        }
      } else {
        SlashInside(vpath);
        var varPrefix := BeforeLastSlash(vpath)[1..];
        r := varPrefix + co;
      }
    }
  }

  // ----- positions in terms of directory names

  /** The j-th slash ends the j-th directory. */
  lemma {:induction false} SlashPositions(s: string, pre: string, cs: seq<string>, base: string)
    requires AllSlashFree(cs) && SlashFree(base) && s == pre + Tail(cs) + base
    ensures |Occurrences(s, "/", |pre|)| == |cs|
    ensures forall j :: 0 <= j < |cs| ==> Occurrences(s, "/", |pre|)[j] == |pre| + |Tail(cs[..j + 1])| - 1
    decreases |cs|
  {
    hide Occurrences, Occurs;
    if cs == [] {
      NameOnly(s, pre, base);
      Skip(s, "/", |pre|, |s|);
      NoneLeft(s, "/");
    } else {
      var pre' := pre + cs[0] + "/";
      SplitHead(pre, cs, base);
      FirstSlash(s, pre, cs[0], Tail(cs[1..]) + base);
      SlashPositions(s, pre', cs[1..], base);
      forall j | 0 <= j < |cs|
        ensures |Tail(cs[..j + 1])| == |cs[0]| + 1 + |Tail(cs[1..][..j])|
      {
        assert cs[..j + 1][1..] == cs[1..][..j];
      }
    }
  }

  lemma NoneLeft(s: string, sub: string)
    ensures Occurrences(s, sub, |s|) == []
  {
  }

  lemma FirstSlash(s: string, pre: string, c: string, rest: string)
    requires SlashFree(c) && s == pre + c + "/" + rest
    ensures Occurrences(s, "/", |pre|) == [|pre| + |c|] + Occurrences(s, "/", |pre| + |c| + 1)
  {
    hide Occurs, Occurrences;
    var at := |pre| + |c|;
    InHead(s, pre, c, rest);
    Skip(s, "/", |pre|, at);
    OccursSlash(s, at);
    OneHere(s, "/", at);
  }

  lemma SplitHead(pre: string, cs: seq<string>, base: string)
    requires cs != []
    ensures pre + Tail(cs) + base == pre + cs[0] + "/" + Tail(cs[1..]) + base == pre + cs[0] + "/" + (Tail(cs[1..]) + base)
  {
    assert pre + (cs[0] + "/" + Tail(cs[1..])) == pre + cs[0] + "/" + Tail(cs[1..]);
    ConcatAssoc(pre + cs[0] + "/", Tail(cs[1..]), base);
  }

  /** The characters of the last name. */
  lemma NameOnly(s: string, pre: string, base: string)
    requires s == pre + Tail([]) + base && SlashFree(base)
    ensures forall i :: |pre| <= i < |s| ==> s[i] != '/' && !Occurs(s, "/", i)
  {
    forall i | |pre| <= i < |s|
      ensures s[i] != '/' && !Occurs(s, "/", i)
    {
      assert s[i] == base[i - |pre|];
      OccursSlash(s, i);
    }
  }

  /** The characters of a directory name and the slash after it. */
  lemma InHead(s: string, pre: string, c: string, rest: string)
    requires SlashFree(c) && s == pre + c + "/" + rest
    ensures |pre| + |c| < |s| && s[|pre| + |c|] == '/'
    ensures forall i :: |pre| <= i < |pre| + |c| ==> s[i] == c[i - |pre|] != '/' && !Occurs(s, "/", i)
  {
    hide Occurs;
    forall i | |pre| <= i < |pre| + |c|
      ensures s[i] == c[i - |pre|] != '/' && !Occurs(s, "/", i)
    {
      OccursSlash(s, i);
    }
  }

  /** A name whose slash completes a "../". */
  predicate EndsUp(c: string)
  {
    |c| >= 2 && c[|c| - 2] == '.' && c[|c| - 1] == '.'
  }

  /** How many directories are counted as steps up. */
  function Ups(cs: seq<string>): (n: nat)
    ensures n <= |cs|
  {
    if cs == [] then 0 else (if EndsUp(cs[0]) then 1 else 0) + Ups(cs[1..])
  }

  /** The directories after the last one counted. */
  function AfterUps(cs: seq<string>): (rest: seq<string>)
    ensures |rest| <= |cs| - Ups(cs)
  {
    if Ups(cs) == 0 then cs else AfterUps(cs[1..])
  }

  lemma OccursUp(s: string, i: nat)
    ensures Occurs(s, "../", i) <==> i + 3 <= |s| && s[i] == '.' && s[i + 1] == '.' && s[i + 2] == '/'
  {
    if i + 3 <= |s| {
      var t := s[i..i + 3];
      assert t[0] == s[i] && t[1] == s[i + 1] && t[2] == s[i + 2];
    }
  }

  /** In a directory name, "../" occurs at its end or nowhere. */
  lemma FirstUp(s: string, pre: string, c: string, rest: string)
    requires SlashFree(c) && s == pre + c + "/" + rest
    ensures Occurrences(s, "../", |pre|)
            == (if EndsUp(c) then [|pre| + |c| - 2] else []) + Occurrences(s, "../", |pre| + |c| + 1)
  {
    hide Occurs, Occurrences;
    var at := |pre| + |c| + 1;
    InHead(s, pre, c, rest);
    forall i | |pre| <= i < at
      ensures Occurs(s, "../", i) <==> EndsUp(c) && i == at - 3
    {
      OccursUp(s, i);
    }
    if EndsUp(c) {
      Skip(s, "../", |pre|, at - 3);
      OneHere(s, "../", at - 3);
      Skip(s, "../", at - 2, at);
    } else {
      Skip(s, "../", |pre|, at);
    }
  }

  lemma OneHere(s: string, sub: string, at: nat)
    requires sub != "" && Occurs(s, sub, at)
    ensures Occurrences(s, sub, at) == [at] + Occurrences(s, sub, at + 1)
  {
  }

  /** The steps up that are counted, and what follows the last of them. */
  lemma {:induction false} UpPositions(s: string, pre: string, cs: seq<string>, base: string)
    requires AllSlashFree(cs) && SlashFree(base) && s == pre + Tail(cs) + base
    ensures |Occurrences(s, "../", |pre|)| == Ups(cs)
    ensures Ups(cs) > 0 ==> s[Occurrences(s, "../", |pre|)[Ups(cs) - 1] + 3..] == Tail(AfterUps(cs)) + base
    decreases |cs|
  {
    hide Occurrences, Occurs;
    if cs == [] {
      NameOnly(s, pre, base);
      forall i | |pre| <= i < |s|
        ensures !Occurs(s, "../", i)
      {
        OccursUp(s, i);
      }
      Skip(s, "../", |pre|, |s|);
      NoneLeft(s, "../");
    } else {
      var pre' := pre + cs[0] + "/";
      SplitHead(pre, cs, base);
      FirstUp(s, pre, cs[0], Tail(cs[1..]) + base);
      UpPositions(s, pre', cs[1..], base);
      if EndsUp(cs[0]) && Ups(cs[1..]) == 0 {
        assert AfterUps(cs[1..]) == cs[1..];
        assert s[|pre'|..] == Tail(cs[1..]) + base;
      }
    }
  }

  /** A path starts with "../" exactly if its first directory is "..". */
  lemma StartsUp(s: string, cs: seq<string>, base: string)
    requires AllSlashFree(cs) && SlashFree(base) && s == Tail(cs) + base
    ensures Occurrences(s, "../", 0) != [] && Occurrences(s, "../", 0)[0] == 0 <==> cs != [] && cs[0] == ".."
  {
    hide Occurrences, Occurs;
    if cs == [] {
      UpPositions(s, "", cs, base);
    } else {
      SplitHead("", cs, base);
      FirstUp(s, "", cs[0], Tail(cs[1..]) + base);
      UpStart(cs[0]);
    }
  }

  lemma UpStart(c: string)
    ensures EndsUp(c) && |c| == 2 <==> c == ".."
  {
  }

  // ----- what the rewriting gives

  lemma ReducedSteps(co: string, vpath: string, head: string, rest: string)
    requires Occurrences(vpath, "/", 1) != [] && Occurrences(co, "/", 0) != []
    requires var seps, ups := Occurrences(vpath, "/", 0), Occurrences(co, "../", 0);
             && ups != [] && ups[0] == 0 && |ups| < |seps|
             && vpath[1..1 + seps[|seps| - |ups| - 1]] == head && co[ups[|ups| - 1] + 3..] == rest
    ensures Reduced(co, vpath) == head + rest
  {
    hide Occurrences, Occurs, BeforeLastSlash;
  }

  lemma ReducedJoin(co: string, vpath: string, head: string)
    requires Occurrences(vpath, "/", 1) != [] && Occurrences(co, "/", 0) == [] && BeforeLastSlash(vpath) == "/" + head
    ensures Reduced(co, vpath) == head + co
  {
    assert BeforeLastSlash(vpath)[1..] == head;
  }

  lemma ReducedNot(co: string, vpath: string)
    requires Occurrences(vpath, "/", 1) == []
             || (Occurrences(co, "/", 0) != []
                 && var seps, ups := Occurrences(vpath, "/", 0), Occurrences(co, "../", 0);
                    ups == [] || ups[0] != 0 || |ups| >= |seps|)
    ensures Reduced(co, vpath) == co
  {
  }

  /** What becomes of the name `base` in a directory `cs` that is written before it, for a variable in a directory `ds`. */
  ghost function Rewritten(ds: seq<string>, cs: seq<string>, base: string): string
  {
    if ds == [] then Tail(cs) + base
    else if cs == [] then Tail(ds) + base
    else if cs[0] == ".." && Ups(cs) <= |ds| then Tail(ds[..|ds| - Ups(cs)]) + (Tail(AfterUps(cs)) + base)
    else Tail(cs) + base
  }

  /**
    A name without a directory is put into that of the variable. If it starts
    with a step up, all its steps up are counted and as many directories of the
    variable dropped, unless there are too few. Every other name is left alone,
    as are all names if the variable is in the root.
  */
  lemma ReducedIs(ds: seq<string>, v: string, cs: seq<string>, base: string)
    requires AllSlashFree(ds) && SlashFree(v) && AllSlashFree(cs) && SlashFree(base)
    ensures Reduced(Tail(cs) + base, Dir(ds) + v) == Rewritten(ds, cs, base)
  {
    hide Occurrences, Occurs, BeforeLastSlash, Tail, Dir, Ups, AfterUps, Reduced, AllSlashFree;
    var co, vpath := Tail(cs) + base, Dir(ds) + v;
    VariableSlashes(ds, v);
    NameSlashes(cs, base);
    if ds == [] {
      ReducedNot(co, vpath);
    } else if cs == [] {
      EmptyDirectory(base);
      DirectoryOf(ds, v);
      DirTail(ds);
      ReducedJoin(co, vpath, Tail(ds));
    } else {
      StartsUp(co, cs, base);
      EmptyPrefix(co, cs, base);
      UpPositions(co, "", cs, base);
      if cs[0] == ".." && Ups(cs) <= |ds| {
        VariablePrefix(ds, v, |ds| - Ups(cs));
        ReducedSteps(co, vpath, Tail(ds[..|ds| - Ups(cs)]), Tail(AfterUps(cs)) + base);
      } else {
        ReducedNot(co, vpath);
      }
    }
  }

  lemma EmptyDirectory(base: string)
    ensures Tail([]) + base == base
  {
  }

  lemma EmptyPrefix(s: string, cs: seq<string>, base: string)
    requires s == Tail(cs) + base
    ensures s == "" + Tail(cs) + base
  {
  }

  lemma DirTail(ds: seq<string>)
    ensures Dir(ds) == "/" + Tail(ds)
  {
  }

  /** The slashes of a variable's path: the root's and one for each directory. */
  lemma VariableSlashes(ds: seq<string>, v: string)
    requires AllSlashFree(ds) && SlashFree(v)
    ensures Occurrences(Dir(ds) + v, "/", 1) == [] <==> ds == []
    ensures |Occurrences(Dir(ds) + v, "/", 0)| == |ds| + 1
    ensures forall j :: 0 <= j <= |ds| ==> Occurrences(Dir(ds) + v, "/", 0)[j] == |Tail(ds[..j])|
  {
    hide Occurrences, Occurs;
    var vpath := Dir(ds) + v;
    var cs := [""] + ds;
    assert cs[1..] == ds;
    EmptyPrefix(vpath, cs, v);
    SlashPositions(vpath, "", cs, v);
    SlashPositions(vpath, "/", ds, v);
    forall j | 0 <= j <= |ds|
      ensures |Tail(cs[..j + 1])| == 1 + |Tail(ds[..j])|
    {
      assert cs[..j + 1][1..] == ds[..j];
    }
  }

  /** The path of the variable up to a slash, without the first one. */
  lemma VariablePrefix(ds: seq<string>, v: string, j: nat)
    requires j <= |ds|
    ensures 1 + |Tail(ds[..j])| <= |Dir(ds) + v|
    ensures (Dir(ds) + v)[1..1 + |Tail(ds[..j])|] == Tail(ds[..j])
  {
    TailAppend(ds[..j], ds[j..]);
    assert ds == ds[..j] + ds[j..];
    TakeTail(Tail(ds[..j]), Tail(ds[j..]), v, Dir(ds) + v);
  }

  lemma TakeTail(t: string, u: string, v: string, s: string)
    requires s == "/" + (t + u) + v
    ensures s[1..1 + |t|] == t
  {
  }

  lemma NameSlashes(cs: seq<string>, base: string)
    requires AllSlashFree(cs) && SlashFree(base)
    ensures Occurrences(Tail(cs) + base, "/", 0) == [] <==> cs == []
  {
    assert Tail(cs) + base == "" + Tail(cs) + base;
    SlashPositions(Tail(cs) + base, "", cs, base);
  }

  // ----- whether that is right

  /** The directory reached from `dirs` by going down for a name and up for "..". */
  function Resolve(dirs: seq<string>, cs: seq<string>): Option<seq<string>>
    decreases |cs|
  {
    if cs == [] then Some(dirs)
    else if cs[0] == ".." then
      if dirs == [] then None else Resolve(dirs[..|dirs| - 1], cs[1..])
    else Resolve(dirs + [cs[0]], cs[1..])
  }

  /** How many steps up the path starts with. */
  function Leading(cs: seq<string>): nat
  {
    if cs != [] && cs[0] == ".." then 1 + Leading(cs[1..]) else 0
  }

  ghost function Steps(cs: seq<string>): nat
  {
    if cs == [] then 0 else (if cs[0] == ".." then 1 else 0) + Steps(cs[1..])
  }

  lemma {:induction false} ResolveLength(dirs: seq<string>, cs: seq<string>)
    requires Resolve(dirs, cs).Some?
    ensures |Resolve(dirs, cs).value| == |dirs| + |cs| - 2 * Steps(cs)
    decreases |cs|
  {
    if cs != [] {
      ResolveLength(if cs[0] == ".." then dirs[..|dirs| - 1] else dirs + [cs[0]], cs[1..]);
    }
  }

  /** Directory names that are not steps up. */
  ghost predicate Plain(cs: seq<string>)
  {
    AllSlashFree(cs) && forall i :: 0 <= i < |cs| ==> cs[i] != ".."
  }

  lemma {:induction false} ResolvePlain(dirs: seq<string>, cs: seq<string>)
    requires Plain(dirs) && AllSlashFree(cs) && Resolve(dirs, cs).Some?
    ensures Plain(Resolve(dirs, cs).value)
    decreases |cs|
  {
    if cs != [] {
      ResolvePlain(if cs[0] == ".." then dirs[..|dirs| - 1] else dirs + [cs[0]], cs[1..]);
    }
  }

  lemma {:induction false} ResolveDown(dirs: seq<string>, cs: seq<string>)
    requires Ups(cs) == 0
    ensures Resolve(dirs, cs) == Some(dirs + cs)
    decreases |cs|
  {
    if cs == [] {
      assert dirs + cs == dirs;
    } else {
      ResolveDown(dirs + [cs[0]], cs[1..]);
      assert dirs + [cs[0]] + cs[1..] == dirs + cs;
    }
  }

  /** Steps up that all come first are resolved by dropping directories. */
  lemma {:induction false} ResolveUp(dirs: seq<string>, cs: seq<string>)
    requires Leading(cs) == Ups(cs)
    ensures Resolve(dirs, cs)
            == if Ups(cs) <= |dirs| then Some(dirs[..|dirs| - Ups(cs)] + AfterUps(cs)) else None
    decreases |cs|
  {
    if Ups(cs) == 0 {
      ResolveDown(dirs, cs);
      assert dirs[..|dirs|] == dirs;
    } else if dirs != [] {
      var up := dirs[..|dirs| - 1];
      ResolveUp(up, cs[1..]);
      assert Ups(cs) <= |dirs| ==> up[..|up| - Ups(cs[1..])] == dirs[..|dirs| - Ups(cs)];
    }
  }

  lemma {:induction false} StepsCounted(cs: seq<string>)
    ensures Steps(cs) <= Ups(cs) <= |cs| - |AfterUps(cs)|
    ensures Steps(cs) == |cs| - |AfterUps(cs)| ==> Leading(cs) == Ups(cs)
  {
    if cs != [] {
      StepsCounted(cs[1..]);
      if Ups(cs) == 0 {
        assert Leading(cs) == 0;
      } else if Ups(cs[1..]) == 0 {
        assert AfterUps(cs[1..]) == cs[1..];
        assert Leading(cs[1..]) <= Ups(cs[1..]) by {
          LeadingCounted(cs[1..]);
        }
      }
    }
  }

  lemma {:induction false} LeadingCounted(cs: seq<string>)
    ensures Leading(cs) <= Ups(cs)
  {
    if cs != [] {
      LeadingCounted(cs[1..]);
    }
  }

  lemma SameDirectories(cs: seq<string>, ds: seq<string>, base: string)
    requires AllSlashFree(cs) && AllSlashFree(ds) && Tail(cs) + base == Tail(ds) + base
    ensures cs == ds
  {
    assert |Tail(cs)| == |Tail(ds)|;
    assert Tail(cs) == (Tail(cs) + base)[..|Tail(cs)|] == Tail(ds);
    DirIsAncestor(cs, ds);
  }

  /**
    For a name that starts with a step up, the rewriting gives the file that is
    meant if and only if no step up follows anything else and the steps stay
    below the root.
  */
  lemma ReducedRightIff(ds: seq<string>, v: string, cs: seq<string>, base: string)
    requires ds != [] && Plain(ds) && SlashFree(v) && AllSlashFree(cs) && SlashFree(base) && cs != [] && cs[0] == ".."
    ensures Resolve(ds, cs).Some? && Reduced(Tail(cs) + base, Dir(ds) + v) == Tail(Resolve(ds, cs).value) + base
            <==> Leading(cs) == Ups(cs) && Ups(cs) <= |ds|
  {
    hide Reduced, Rewritten, Resolve, Leading, Ups;
    ReducedIs(ds, v, cs, base);
    RewrittenRightIff(ds, cs, base);
  }

  /** A bare name is one in the directory of the variable; every other name without a leading step up is left alone. */
  lemma ReducedOtherwise(ds: seq<string>, v: string, cs: seq<string>, base: string)
    requires AllSlashFree(ds) && SlashFree(v) && AllSlashFree(cs) && SlashFree(base) && (cs == [] || cs[0] != "..")
    ensures Reduced(Tail(cs) + base, Dir(ds) + v) == (if cs == [] then Tail(ds) else Tail(cs)) + base
  {
    hide Reduced;
    ReducedIs(ds, v, cs, base);
  }

  /** The variable v in /x/y, and four names. */
  lemma SmallNames()
    ensures Reduced("b", "/x/y/v") == "x/y/b" && Reduced("a/b", "/x/y/v") == "a/b"
    ensures Reduced("../b", "/x/y/v") == "x/b" && Reduced("../../../b", "/x/y/v") == "../../../b"
  {
    hide Reduced, Rewritten;
    SmallPaths();
    SmallRewritten();
    ReducedIs(["x", "y"], "v", [], "b");
    ReducedIs(["x", "y"], "v", ["a"], "b");
    ReducedIs(["x", "y"], "v", [".."], "b");
    ReducedIs(["x", "y"], "v", ["..", "..", ".."], "b");
  }

  lemma SmallPaths()
    ensures Dir(["x", "y"]) + "v" == "/x/y/v" && Tail([]) + "b" == "b" && Tail(["a"]) + "b" == "a/b"
    ensures Tail([".."]) + "b" == "../b" && Tail(["..", "..", ".."]) + "b" == "../../../b"
    ensures Tail(["x"]) + "b" == "x/b" && Tail(["x", "y"]) + "b" == "x/y/b"
  {
    hide Tail;
    NoTail();
    InteriorPaths();
    TailSnoc([], "a");
    TailSnoc([], "x");
    TailSnoc(["x"], "y");
    TailSnoc([], "..");
    TailSnoc([".."], "..");
    TailSnoc(["..", ".."], "..");
    assert [] + ["a"] == ["a"] && [] + ["x"] == ["x"] && ["x"] + ["y"] == ["x", "y"] && [] + [".."] == [".."];
    assert [".."] + [".."] == ["..", ".."] && ["..", ".."] + [".."] == ["..", "..", ".."];
  }

  lemma SmallRewritten()
    ensures Rewritten(["x", "y"], [], "b") == Tail(["x", "y"]) + "b"
    ensures Rewritten(["x", "y"], ["a"], "b") == Tail(["a"]) + "b"
    ensures Rewritten(["x", "y"], [".."], "b") == Tail(["x"]) + "b"
    ensures Rewritten(["x", "y"], ["..", "..", ".."], "b") == Tail(["..", "..", ".."]) + "b"
  {
    assert [".."][1..] == [] && ["..", ".."][1..] == [".."] && ["..", "..", ".."][1..] == ["..", ".."];
    assert ["x", "y"][..1] == ["x"] && Ups([".."]) == 1 && Ups(["..", "..", ".."]) == 3 && AfterUps([".."]) == [];
  }

  /** The same of the directories it is rewritten to. */
  lemma RewrittenRightIff(ds: seq<string>, cs: seq<string>, base: string)
    requires ds != [] && Plain(ds) && AllSlashFree(cs) && cs != [] && cs[0] == ".."
    ensures Resolve(ds, cs).Some? && Rewritten(ds, cs, base) == Tail(Resolve(ds, cs).value) + base
            <==> Leading(cs) == Ups(cs) && Ups(cs) <= |ds|
  {
    hide Resolve, Leading, Steps, Tail, Ups, AfterUps;
    var kept := if Ups(cs) <= |ds| then ds[..|ds| - Ups(cs)] else ds;
    TailAppend(kept, AfterUps(cs));
    ConcatAssoc(Tail(kept), Tail(AfterUps(cs)), base);
    AfterUpsNames(cs);
    if Leading(cs) == Ups(cs) {
      ResolveUp(ds, cs);
    } else if Resolve(ds, cs).Some? {
      var r := Resolve(ds, cs).value;
      ResolvePlain(ds, cs);
      if Rewritten(ds, cs, base) == Tail(r) + base {
        if Ups(cs) <= |ds| {
          SameDirectories(kept + AfterUps(cs), r, base);
          ResolveLength(ds, cs);
          StepsCounted(cs);
        } else {
          SameDirectories(cs, r, base);
        }
        assert false;
      }
    }
  }

  lemma {:induction false} AfterUpsNames(cs: seq<string>)
    requires AllSlashFree(cs)
    ensures AllSlashFree(AfterUps(cs))
  {
    if Ups(cs) != 0 {
      AfterUpsNames(cs[1..]);
    }
  }

  /** A step up after a name is counted as one from the variable's directory. */
  lemma InteriorStepMiscounted()
    ensures Reduced("../a/../b", "/x/y/v") == "b"
    ensures Resolve(["x", "y"], ["..", "a", ".."]) == Some(["x"])
  {
    hide Reduced;
    InteriorPaths();
    ReducedIs(["x", "y"], "v", ["..", "a", ".."], "b");
    InteriorCounts();
    InteriorResolved();
  }

  lemma NoTail()
    ensures Tail([]) == ""
  {
  }

  lemma InteriorPaths()
    ensures Dir(["x", "y"]) + "v" == "/x/y/v" && Tail(["..", "a", ".."]) + "b" == "../a/../b"
  {
    hide Tail;
    NoTail();
    TailSnoc([], "x");
    TailSnoc(["x"], "y");
    TailSnoc([], "..");
    TailSnoc([".."], "a");
    TailSnoc(["..", "a"], "..");
    assert [] + ["x"] == ["x"] && ["x"] + ["y"] == ["x", "y"];
    assert [] + [".."] == [".."] && [".."] + ["a"] == ["..", "a"] && ["..", "a"] + [".."] == ["..", "a", ".."];
  }

  lemma InteriorCounts()
    ensures Ups(["..", "a", ".."]) == 2 && AfterUps(["..", "a", ".."]) == []
    ensures Rewritten(["x", "y"], ["..", "a", ".."], "b") == "b"
  {
    assert ["..", "a", ".."][1..] == ["a", ".."] && ["a", ".."][1..] == [".."] && [".."][1..] == [];
    assert ["x", "y"][..0] == [];
  }

  lemma InteriorResolved()
    ensures Resolve(["x", "y"], ["..", "a", ".."]) == Some(["x"])
  {
    assert ["..", "a", ".."][1..] == ["a", ".."] && ["a", ".."][1..] == [".."] && [".."][1..] == [];
    assert ["x", "y"][..1] == ["x"] && ["x"] + ["a"] == ["x", "a"] && ["x", "a"][..1] == ["x"];
  }

  /** Every path is a list of directories and a name. */
  lemma {:induction false} EveryPathSplits(s: string) returns (cs: seq<string>, base: string)
    ensures AllSlashFree(cs) && SlashFree(base) && s == Tail(cs) + base
    decreases |s|
  {
    var p := LastSlash(s);
    if p < 0 {
      cs, base := [], s;
    } else {
      var last;
      cs, last := EveryPathSplits(s[..p]);
      TailSnoc(cs, last);
      cs, base := cs + [last], s[p + 1..];
      assert s == s[..p] + "/" + base;
    }
  }
}
