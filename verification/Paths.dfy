/**
  Slash-separated paths and the directories they are made of.
*/
module Paths {
  import opened Common

  predicate SlashFree(s: string) { '/' !in s }

  ghost predicate AllSlashFree(cs: seq<string>)
  {
    forall i :: 0 <= i < |cs| ==> SlashFree(cs[i])
  }

  /** The last slash of `s`, -1 if there is none. */
  function LastSlash(s: string): (p: int)
    ensures -1 <= p < |s| && (p >= 0 ==> s[p] == '/')
    ensures forall i :: p < i < |s| ==> s[i] != '/'
  {
    if s == "" then -1
    else if s[|s| - 1] == '/' then |s| - 1
    else LastSlash(s[..|s| - 1])
  }

  /** Everything up to the last slash, that slash included; nothing if there is no slash. */
  function BeforeLastSlash(s: string): string
  {
    s[..LastSlash(s) + 1]
  }

  /** Directory names, each followed by a slash. */
  function Tail(cs: seq<string>): (s: string)
    ensures cs != [] ==> s != "" && s[|s| - 1] == '/'
  {
    if cs == [] then "" else cs[0] + "/" + Tail(cs[1..])
  }

  /** The slash-terminated path of a directory. */
  function Dir(cs: seq<string>): (s: string)
    ensures s != "" && s[|s| - 1] == '/'
  {
    "/" + Tail(cs)
  }

  lemma {:induction false} TailAppend(cs: seq<string>, ds: seq<string>)
    ensures Tail(cs + ds) == Tail(cs) + Tail(ds)
  {
    if cs == [] {
      assert cs + ds == ds;
    } else {
      TailAppend(cs[1..], ds);
      assert (cs + ds)[1..] == cs[1..] + ds;
      ConcatAssoc(cs[0] + "/", Tail(cs[1..]), Tail(ds));
    }
  }

  lemma TailSnoc(cs: seq<string>, c: string)
    ensures Tail(cs + [c]) == Tail(cs) + c + "/"
  {
    TailAppend(cs, [c]);
    assert Tail([c]) == c + "/" by {
      assert [c][1..] == [];
    }
  }

  /** The directory of a path is what precedes its last name. */
  lemma DirectoryOf(cs: seq<string>, base: string)
    requires SlashFree(base)
    ensures BeforeLastSlash(Dir(cs) + base) == Dir(cs)
  {
    var d := Dir(cs);
    var s := d + base;
    assert s[|d| - 1] == '/';
    assert forall i :: |d| <= i < |s| ==> s[i] == base[i - |d|];
    assert LastSlash(s) == |d| - 1;
  }

  /** Names up to the first slash agree, and so does what follows. */
  lemma SameHead(c: string, s: string, d: string, t: string)
    requires SlashFree(c) && SlashFree(d) && c + "/" + s <= d + "/" + t
    ensures c == d && s <= t
  {
    var x, y := c + "/" + s, d + "/" + t;
    assert x[|c|] == '/' && y[|d|] == '/';
    assert forall i :: 0 <= i < |c| ==> x[i] == c[i];
    assert forall i :: 0 <= i < |d| ==> y[i] == d[i];
    assert |c| == |d|;
    assert c == x[..|c|] == y[..|c|] == d;
    assert s == x[|c| + 1..] && t == y[|c| + 1..];
  }

  /** One directory path is a prefix of another exactly if the directory is an ancestor of the other, or the same. */
  lemma {:induction false} PrefixIsAncestor(cs: seq<string>, ds: seq<string>)
    requires AllSlashFree(cs) && AllSlashFree(ds)
    ensures Tail(cs) <= Tail(ds) <==> cs <= ds
  {
    if cs != [] && ds != [] {
      PrefixIsAncestor(cs[1..], ds[1..]);
      if Tail(cs) <= Tail(ds) {
        SameHead(cs[0], Tail(cs[1..]), ds[0], Tail(ds[1..]));
        assert cs == [cs[0]] + cs[1..] && ds == [ds[0]] + ds[1..];
      }
      if cs <= ds {
        assert cs[1..] <= ds[1..];
        PrefixUnder(cs[0] + "/", Tail(cs[1..]), Tail(ds[1..]));
      }
    }
  }

  lemma PrefixUnder(p: string, s: string, t: string)
    requires s <= t
    ensures p + s <= p + t
  {
  }

  lemma DirIsAncestor(cs: seq<string>, ds: seq<string>)
    requires AllSlashFree(cs) && AllSlashFree(ds)
    ensures Dir(cs) <= Dir(ds) <==> cs <= ds
    ensures Dir(cs) == Dir(ds) <==> cs == ds
  {
    PrefixIsAncestor(cs, ds);
    PrefixIsAncestor(ds, cs);
    if Dir(cs) <= Dir(ds) {
      assert Tail(cs) == Dir(cs)[1..] <= Dir(ds)[1..] == Tail(ds);
    }
    if Dir(ds) <= Dir(cs) {
      assert Tail(ds) == Dir(ds)[1..] <= Dir(cs)[1..] == Tail(cs);
    }
    if cs <= ds {
      PrefixUnder("/", Tail(cs), Tail(ds));
    }
  }
}
