/**
  CF-compliant names: making a name from letters, digits and underscores, and
  resolving clashes among the names of variables, groups and the table of
  global attributes.
*/
module Names {

  // ----- decimal suffixes

  function Digit(d: nat): char
    requires d < 10
  {
    '0' + d as char
  }

  /** A number as a stream prints it: no leading zero. */
  function Dec(n: nat): (s: string)
    ensures |s| > 0 && forall i :: 0 <= i < |s| ==> IsDigit(s[i])
    ensures s[0] == '0' <==> n == 0
    ensures n == 0 ==> s == "0"
  {
    if n < 10 then [Digit(n)] else Dec(n / 10) + [Digit(n % 10)]
  }

  function FromDec(s: string): int
  {
    if s == "" then 0 else 10 * FromDec(s[..|s| - 1]) + (s[|s| - 1] as int - '0' as int)
  }

  lemma {:induction false} DecRoundTrip(n: nat)
    ensures FromDec(Dec(n)) == n
  {
    if n < 10 {
      assert Dec(n)[..0] == "";
    } else {
      DecRoundTrip(n / 10);
      assert Dec(n)[..|Dec(n)| - 1] == Dec(n / 10);
    }
  }

  function Pow10(k: nat): nat
  {
    if k == 0 then 1 else 10 * Pow10(k - 1)
  }

  /** Each digit times ten to the power of its position, the last position being 0. */
  function PlaceValue(s: string): int
  {
    if s == "" then 0 else (s[0] as int - '0' as int) * Pow10(|s| - 1) + PlaceValue(s[1..])
  }

  lemma {:induction false} PlaceValueSnoc(s: string, c: char)
    ensures PlaceValue(s + [c]) == 10 * PlaceValue(s) + (c as int - '0' as int)
  {
    var t := s + [c];
    if s == "" {
      assert t[1..] == "";
    } else {
      assert t[1..] == s[1..] + [c];
      PlaceValueSnoc(s[1..], c);
      TenTimes(s[0] as int - '0' as int, Pow10(|s| - 1));
    }
  }

  lemma TenTimes(d: int, p: nat)
    ensures d * (10 * p) == 10 * (d * p)
  {
  }

  lemma {:induction false} DecValue(n: nat)
    ensures PlaceValue(Dec(n)) == n
  {
    if n < 10 {
      assert Dec(n)[1..] == "" && PlaceValue("") == 0 && Pow10(0) == 1;
    } else {
      DecValue(n / 10);
      PlaceValueSnoc(Dec(n / 10), Digit(n % 10));
    }
  }

  /** A decimal numeral: digits only, not starting with 0 unless it is 0 itself. */
  ghost predicate Numeral(s: string)
  {
    s != "" && (forall i :: 0 <= i < |s| ==> '0' <= s[i] <= '9') && (s[0] == '0' ==> s == "0")
  }

  /** The suffix is the one decimal numeral of the number. */
  lemma DecNumeral(n: nat, s: string)
    ensures s == Dec(n) <==> Numeral(s) && PlaceValue(s) == n
  {
    DecValue(n);
    if Numeral(s) && PlaceValue(s) == n {
      NumeralIsDec(s);
    }
  }

  lemma {:induction false} NumeralIsDec(s: string)
    requires Numeral(s)
    ensures PlaceValue(s) >= 0 && s == Dec(PlaceValue(s))
    decreases |s|
  {
    var front, c := s[..|s| - 1], s[|s| - 1];
    var d := c as int - '0' as int;
    assert s == front + [c];
    PlaceValueSnoc(front, c);
    if front == "" {
      assert s == [Digit(d)];
    } else {
      NumeralIsDec(front);
      var p := PlaceValue(front);
      assert p != 0;
      assert (10 * p + d) / 10 == p && (10 * p + d) % 10 == d;
    }
  }

  /** Different numbers make different names. */
  lemma SuffixInjective(str: string, j: nat, k: nat)
    requires str + Dec(j) == str + Dec(k)
    ensures j == k
  {
    DecRoundTrip(j);
    DecRoundTrip(k);
    assert Dec(j) == (str + Dec(j))[|str|..] == (str + Dec(k))[|str|..] == Dec(k);
  }

  // ----- the alphabet

  predicate IsDigit(c: char) { '0' <= c <= '9' }

  predicate IsAlnum(c: char) { IsDigit(c) || 'a' <= c <= 'z' || 'A' <= c <= 'Z' }

  predicate CFChars(s: string)
  {
    forall i :: 0 <= i < |s| ==> IsAlnum(s[i]) || s[i] == '_'
  }

  /** A name that needs no change: letters, digits and underscores, not starting with a digit. */
  predicate CFName(s: string)
  {
    CFChars(s) && (s == "" || !IsDigit(s[0]))
  }

  function CFChar(c: char): char
  {
    if IsAlnum(c) || c == '_' then c else '_'
  }

  /** What the name becomes: an underscore before a leading digit and in place of every other character. */
  function CFString(s: string): (r: string)
    ensures CFName(r)
    ensures r == s <==> CFName(s)
    ensures |r| == if s != "" && '0' <= s[0] <= '9' then |s| + 1 else |s|
    ensures |s| < |r| ==> r[0] == '_'
    ensures forall i :: 0 <= i < |s| ==>
              r[|r| - |s| + i] == if '0' <= s[i] <= '9' || 'A' <= s[i] <= 'Z' || 'a' <= s[i] <= 'z' then s[i] else '_'
  {
    var t := if s != "" && IsDigit(s[0]) then "_" + s else s;
    var r := seq(|t|, i requires 0 <= i < |t| => CFChar(t[i]));
    assert CFName(s) ==> r == s;
    assert r == s ==> forall i :: 0 <= i < |s| ==> s[i] == r[i];
    r
  }

  method GetCFString(name: string) returns (s: string)
    ensures s == CFString(name)
  {
    if name == "" {
      return name;
    }
    s := name;
    if IsDigit(s[0]) {
      s := "_" + s;
    }
    ghost var t := s;
    var i := 0;
    while i < |s|
      invariant 0 <= i <= |s| == |t|
      invariant forall j :: 0 <= j < |s| ==> s[j] == if j < i then CFChar(t[j]) else t[j]
    {
      if !IsAlnum(s[i]) && s[i] != '_' {
        s := s[i := '_'];
      }
      i := i + 1;
    }
    assert s == CFString(name);
  }

  /** Applying it again changes nothing. */
  lemma CFStringIdempotent(s: string)
    ensures CFString(CFString(s)) == CFString(s)
  {
  }

  // ----- unique names

  class NameSet {
    var names: set<string>

    constructor ()
      ensures names == {}
    {
      names := {};
    }

    method Insert(name: string) returns (inserted: bool)
      modifies this
      ensures inserted <==> name !in old(names)
      ensures names == old(names) + {name}
    {
      inserted := name !in names;
      names := names + {name};
    }
  }

  ghost predicate Suffixed(name: string, str: string, k: nat)
  {
    name == str + Dec(k)
  }

  /** The names in the set that are `str` with a suffix of at least `i`. */
  ghost function Ahead(names: set<string>, str: string, i: nat): set<string>
  {
    set n | n in names && exists k: nat :: i <= k && Suffixed(n, str, k)
  }

  lemma AheadShrinks(names: set<string>, str: string, i: nat)
    requires str + Dec(i) in names
    ensures Ahead(names, str, i + 1) < Ahead(names, str, i)
  {
    var n := str + Dec(i);
    assert Suffixed(n, str, i);
    if n in Ahead(names, str, i + 1) {
      var k: nat :| i + 1 <= k && Suffixed(n, str, k);
      SuffixInjective(str, i, k);
    }
  }

  /**
    Appends the smallest number from `clashIndex` on that makes a new name, and
    enters that name. It terminates because each number tried uses up one name.
  */
  method GenUniqueName(str: string, namelist: NameSet, clashIndex: nat) returns (newStr: string, index: nat)
    modifies namelist
    ensures clashIndex <= index && newStr == str + Dec(index)
    ensures newStr !in old(namelist.names) && namelist.names == old(namelist.names) + {newStr}
    ensures forall k :: clashIndex <= k < index ==> str + Dec(k) in old(namelist.names)
    decreases Ahead(namelist.names, str, clashIndex)
  {
    newStr, index := str + Dec(clashIndex), clashIndex;
    var inserted := namelist.Insert(newStr);
    if !inserted {
      assert namelist.names == old(namelist.names);
      AheadShrinks(namelist.names, str, clashIndex);
      newStr, index := GenUniqueName(str, namelist, clashIndex + 1);
    }
  }

  // ----- clashes

  /** An object with a name: a variable, a group, an attribute. */
  class Named {
    var newname: string

    constructor (name: string)
      ensures newname == name
    {
      newname := name;
    }
  }

  ghost predicate Clashed(before: seq<string>, taken: set<string>, i: nat)
    requires i < |before|
  {
    before[i] in taken || before[i] in before[..i]
  }

  /** `name` is `str` with the number `k`, the smallest from 1 on that makes a name that is not in the set. */
  ghost predicate NumberedBy(name: string, str: string, names: set<string>, k: nat)
  {
    1 <= k && name == str + Dec(k) && name !in names && forall j :: 1 <= j < k ==> str + Dec(j) in names
  }

  ghost predicate Numbered(name: string, str: string, names: set<string>)
  {
    exists k: nat :: NumberedBy(name, str, names, k)
  }

  lemma NumberedOnce(a: string, b: string, str: string, names: set<string>)
    requires Numbered(a, str, names) && Numbered(b, str, names)
    ensures a == b
  {
    var j: nat :| NumberedBy(a, str, names, j);
    var k: nat :| NumberedBy(b, str, names, k);
    assert j == k;
  }

  /**
    `after` resolves the clashes of `before`: the first holder of a name that
    is not taken keeps it, every other object gets an underscore and the
    smallest number that makes a name new to the set, to all the objects as they
    were, and to the objects before it as they are. No two names, nor a name and
    one that was taken, are equal.
  */
  ghost predicate Resolved(before: seq<string>, taken: set<string>, after: seq<string>)
  {
    && |after| == |before|
    && (forall i :: 0 <= i < |before| ==>
          if Clashed(before, taken, i) then
            Numbered(after[i], before[i] + "_", taken + Elements(before) + Elements(after[..i]))
          else after[i] == before[i])
    && (forall i :: 0 <= i < |after| ==> after[i] !in taken)
    && (forall i, j :: 0 <= i < j < |after| ==> after[i] != after[j])
  }

  ghost function Elements(s: seq<string>): set<string>
  {
    set i | 0 <= i < |s| :: s[i]
  }

  lemma NoElements(s: seq<string>)
    ensures Elements(s[..0]) == {}
  {
  }

  lemma InElements(s: seq<string>, x: string)
    ensures x in Elements(s) <==> x in s
  {
  }

  lemma ElementsSnoc(s: seq<string>, x: string)
    ensures Elements(s + [x]) == Elements(s) + {x}
  {
    var t := s + [x];
    assert t[|s|] == x;
    forall y | y in Elements(s)
      ensures y in Elements(t)
    {
      var i :| 0 <= i < |s| && s[i] == y;
      assert t[i] == y;
    }
  }

  ghost function NewNames(objvec: seq<Named>): (r: seq<string>)
    reads objvec
    ensures |r| == |objvec|
    ensures forall i :: 0 <= i < |r| ==> r[i] == objvec[i].newname
  {
    seq(|objvec|, i requires 0 <= i < |objvec| reads objvec => objvec[i].newname)
  }

  ghost predicate DistinctObjects(objvec: seq<Named>)
  {
    forall i, j :: 0 <= i < j < |objvec| ==> objvec[i] != objvec[j]
  }

  /** `olds` lists, in order, the positions below `n` whose names clash. */
  ghost predicate ListsClashes(before: seq<string>, taken: set<string>, n: nat, olds: seq<nat>)
    requires n <= |before|
  {
    && (forall k :: 0 <= k < |olds| ==> olds[k] < n && Clashed(before, taken, olds[k]))
    && (forall k, m :: 0 <= k < m < |olds| ==> olds[k] < olds[m])
    && (forall i :: 0 <= i < n && Clashed(before, taken, i) ==> i in olds)
  }

  /** First pass: enters all names and collects the ones that were there already. */
  method CollectClashes(objnameset: NameSet, objvec: seq<Named>) returns (clashnames: seq<string>, clToOl: seq<nat>)
    modifies objnameset
    ensures objnameset.names == old(objnameset.names) + Elements(NewNames(objvec))
    ensures ListsClashes(NewNames(objvec), old(objnameset.names), |objvec|, clToOl)
    ensures |clashnames| == |clToOl| && forall k :: 0 <= k < |clToOl| ==> clashnames[k] == objvec[clToOl[k]].newname
  {
    hide NewNames, Elements;
    ghost var before, taken := NewNames(objvec), objnameset.names;
    NoElements(before);
    clashnames, clToOl := [], [];
    var olIndex := 0;
    while olIndex < |objvec|
      invariant 0 <= olIndex <= |objvec|
      invariant objnameset.names == taken + Elements(before[..olIndex])
      invariant ListsClashes(before, taken, olIndex, clToOl)
      invariant |clashnames| == |clToOl| && forall k :: 0 <= k < |clToOl| ==> clashnames[k] == before[clToOl[k]]
    {
      InElements(before[..olIndex], before[olIndex]);
      ElementsSnoc(before[..olIndex], before[olIndex]);
      assert before[..olIndex + 1] == before[..olIndex] + [before[olIndex]];
      var inserted := objnameset.Insert(objvec[olIndex].newname);
      if !inserted {
        clashnames := clashnames + [objvec[olIndex].newname];
        clToOl := clToOl + [olIndex];
      }
      olIndex := olIndex + 1;
    }
    assert before[..olIndex] == before;
  }

  /** Second pass: a fresh name for each clash. */
  method RenameClashes(objnameset: NameSet, clashnames: seq<string>) returns (unique: seq<string>)
    modifies objnameset
    ensures |unique| == |clashnames|
    ensures forall k :: 0 <= k < |unique| ==>
              Numbered(unique[k], clashnames[k] + "_", old(objnameset.names) + Elements(unique[..k]))
    ensures forall k :: 0 <= k < |unique| ==> unique[k] !in old(objnameset.names)
    ensures forall k, m :: 0 <= k < m < |unique| ==> unique[k] != unique[m]
    ensures objnameset.names == old(objnameset.names) + Elements(unique)
  {
    ghost var start := objnameset.names;
    unique := [];
    var k := 0;
    while k < |clashnames|
      invariant 0 <= k <= |clashnames| && |unique| == k
      invariant forall m :: 0 <= m < k ==> Numbered(unique[m], clashnames[m] + "_", start + Elements(unique[..m]))
      invariant forall m :: 0 <= m < k ==> unique[m] !in start
      invariant forall m, n :: 0 <= m < n < k ==> unique[m] != unique[n]
      invariant objnameset.names == start + Elements(unique)
    {
      var temp, index := GenUniqueName(clashnames[k] + "_", objnameset, 1);
      forall m | 0 <= m < k
        ensures unique[m] != temp
      {
        assert unique[m] in Elements(unique);
      }
      assert NumberedBy(temp, clashnames[k] + "_", start + Elements(unique), index);
      ElementsSnoc(unique, temp);
      ghost var longer := unique + [temp];
      assert longer[..k] == unique && forall m :: 0 <= m < k ==> longer[..m] == unique[..m];
      unique := unique + [temp];
      k := k + 1;
    }
  }

  /** Third pass: the fresh names replace the clashed ones. */
  method AssignNames(objvec: seq<Named>, clToOl: seq<nat>, names: seq<string>)
    requires DistinctObjects(objvec) && |names| == |clToOl|
    requires forall k :: 0 <= k < |clToOl| ==> clToOl[k] < |objvec|
    requires forall k, m :: 0 <= k < m < |clToOl| ==> clToOl[k] < clToOl[m]
    modifies objvec
    ensures forall k :: 0 <= k < |clToOl| ==> objvec[clToOl[k]].newname == names[k]
    ensures forall n :: 0 <= n < |objvec| && n !in clToOl ==> objvec[n].newname == old(objvec[n].newname)
  {
    var i := 0;
    while i < |names|
      invariant 0 <= i <= |names|
      invariant forall k :: 0 <= k < i ==> objvec[clToOl[k]].newname == names[k]
      invariant forall n :: 0 <= n < |objvec| && n !in clToOl[..i] ==> objvec[n].newname == old(objvec[n].newname)
    {
      assert forall k :: 0 <= k < i ==> objvec[clToOl[k]] != objvec[clToOl[i]];
      objvec[clToOl[i]].newname := names[i];
      assert clToOl[..i + 1] == clToOl[..i] + [clToOl[i]];
      i := i + 1;
    }
    assert clToOl[..i] == clToOl;
  }

  /**
    Makes the names of a vector of objects distinct among themselves and from
    the names in the set. The objects stay where they are; the set receives
    their final names.
  */
  method HandleGeneralNameClashing(objnameset: NameSet, objvec: seq<Named>)
    requires DistinctObjects(objvec)
    modifies objnameset, objvec
    ensures Resolved(old(NewNames(objvec)), old(objnameset.names), NewNames(objvec))
    ensures objnameset.names == old(objnameset.names) + Elements(NewNames(objvec))
  {
    hide NewNames, Elements, Clashed, Numbered, Resolved;
    ghost var before, taken := NewNames(objvec), objnameset.names;
    var clashnames, clToOl := CollectClashes(objnameset, objvec);
    var unique := RenameClashes(objnameset, clashnames);
    AssignNames(objvec, clToOl, unique);
    AssembleResolved(before, taken, clToOl, unique, NewNames(objvec));
  }

  /** The three passes together. */
  lemma AssembleResolved(before: seq<string>, taken: set<string>, olds: seq<nat>, unique: seq<string>, after: seq<string>)
    requires ListsClashes(before, taken, |before|, olds) && |unique| == |olds| && |after| == |before|
    requires forall k :: 0 <= k < |unique| ==>
               Numbered(unique[k], before[olds[k]] + "_", taken + Elements(before) + Elements(unique[..k]))
    requires forall k :: 0 <= k < |unique| ==> unique[k] !in taken + Elements(before)
    requires forall k, m :: 0 <= k < m < |unique| ==> unique[k] != unique[m]
    requires forall k :: 0 <= k < |olds| ==> after[olds[k]] == unique[k]
    requires forall n :: 0 <= n < |before| && n !in olds ==> after[n] == before[n]
    ensures Resolved(before, taken, after)
    ensures taken + Elements(before) + Elements(unique) == taken + Elements(after)
  {
    hide Elements, Clashed, Numbered;
    forall i | 0 <= i < |before| && Clashed(before, taken, i)
      ensures after[i] !in taken
      ensures Numbered(after[i], before[i] + "_", taken + Elements(before) + Elements(after[..i]))
    {
      assert i in olds;
      var k :| 0 <= k < |olds| && olds[k] == i;
      EarlierNames(before, taken, olds, unique, after, k);
    }
    NotTaken(before, taken, olds, after);
    FinalDistinct(before, taken, olds, unique, after);
    FinalElements(before, taken, olds, unique, after);
  }

  lemma NotTaken(before: seq<string>, taken: set<string>, olds: seq<nat>, after: seq<string>)
    requires ListsClashes(before, taken, |before|, olds) && |after| == |before|
    requires forall n :: 0 <= n < |before| && n !in olds ==> after[n] == before[n]
    ensures forall n :: 0 <= n < |before| && !Clashed(before, taken, n) ==> after[n] == before[n] && after[n] !in taken
  {
  }

  /** When the k-th clash is renamed, the set holds the final names of the objects before it. */
  lemma EarlierNames(before: seq<string>, taken: set<string>, olds: seq<nat>, unique: seq<string>, after: seq<string>, k: nat)
    requires ListsClashes(before, taken, |before|, olds) && |unique| == |olds| && |after| == |before| && k < |olds|
    requires forall m :: 0 <= m < |olds| ==> after[olds[m]] == unique[m]
    requires forall n :: 0 <= n < |before| && n !in olds ==> after[n] == before[n]
    ensures taken + Elements(before) + Elements(unique[..k]) == taken + Elements(before) + Elements(after[..olds[k]])
  {
    var i := olds[k];
    forall name | name in Elements(unique[..k])
      ensures name in Elements(after[..i])
    {
      var m :| 0 <= m < k && unique[m] == name;
      assert after[..i][olds[m]] == name;
    }
    forall name | name in Elements(after[..i])
      ensures name in Elements(before) + Elements(unique[..k])
    {
      var j :| 0 <= j < i && after[j] == name;
      if j in olds {
        var m :| 0 <= m < |olds| && olds[m] == j;
        assert m < k && unique[..k][m] == name;
      } else {
        assert before[j] == name;
      }
    }
  }

  lemma FinalDistinct(before: seq<string>, taken: set<string>, olds: seq<nat>, unique: seq<string>, after: seq<string>)
    requires ListsClashes(before, taken, |before|, olds) && |unique| == |olds| && |after| == |before|
    requires forall k :: 0 <= k < |unique| ==> unique[k] !in taken + Elements(before)
    requires forall k, m :: 0 <= k < m < |unique| ==> unique[k] != unique[m]
    requires forall k :: 0 <= k < |olds| ==> after[olds[k]] == unique[k]
    requires forall n :: 0 <= n < |before| && n !in olds ==> after[n] == before[n]
    ensures forall i, j :: 0 <= i < j < |after| ==> after[i] != after[j]
  {
    forall i, j | 0 <= i < j < |after|
      ensures after[i] != after[j]
    {
      assert before[i] in Elements(before) && before[j] in Elements(before);
      if i in olds && j in olds {
        var k :| 0 <= k < |olds| && olds[k] == i;
        var m :| 0 <= m < |olds| && olds[m] == j;
        assert k < m;
      } else if i in olds {
        var k :| 0 <= k < |olds| && olds[k] == i;
      } else if j in olds {
        var m :| 0 <= m < |olds| && olds[m] == j;
      } else {
        assert !Clashed(before, taken, j);
        assert before[i] == before[..j][i];
      }
    }
  }

  /** Every name that was met first is still held by its first holder. */
  lemma {:induction false} FirstHolder(before: seq<string>, taken: set<string>, i: nat) returns (f: nat)
    requires i < |before| && before[i] !in taken
    ensures f <= i && before[f] == before[i] && !Clashed(before, taken, f)
  {
    if before[i] in before[..i] {
      var j :| 0 <= j < i && before[..i][j] == before[i];
      f := FirstHolder(before, taken, j);
    } else {
      f := i;
    }
  }

  lemma FinalElements(before: seq<string>, taken: set<string>, olds: seq<nat>, unique: seq<string>, after: seq<string>)
    requires ListsClashes(before, taken, |before|, olds) && |unique| == |olds| && |after| == |before|
    requires forall k :: 0 <= k < |olds| ==> after[olds[k]] == unique[k]
    requires forall n :: 0 <= n < |before| && n !in olds ==> after[n] == before[n]
    ensures taken + Elements(before) + Elements(unique) == taken + Elements(after)
  {
    forall name | name in taken + Elements(before) + Elements(unique)
      ensures name in taken + Elements(after)
    {
      if name !in taken {
        if name in Elements(before) {
          var i :| 0 <= i < |before| && before[i] == name;
          var f := FirstHolder(before, taken, i);
          assert f !in olds;
          assert after[f] == name;
        } else {
          var k :| 0 <= k < |unique| && unique[k] == name;
          assert after[olds[k]] == name;
        }
      }
    }
    forall name | name in taken + Elements(after)
      ensures name in taken + Elements(before) + Elements(unique)
    {
      if name !in taken {
        var i :| 0 <= i < |after| && after[i] == name;
        if i in olds {
          var k :| 0 <= k < |olds| && olds[k] == i;
          assert unique[k] == name;
        } else {
          assert before[i] == name;
        }
      }
    }
  }

  lemma ResolvedAt(before: seq<string>, taken: set<string>, after: seq<string>, i: nat)
    requires Resolved(before, taken, after) && i < |before|
    ensures |after| == |before|
    ensures if Clashed(before, taken, i) then
              Numbered(after[i], before[i] + "_", taken + Elements(before) + Elements(after[..i]))
            else after[i] == before[i]
  {
  }

  /** The final names are determined. */
  lemma {:induction false} ResolvedOnce(before: seq<string>, taken: set<string>, a: seq<string>, b: seq<string>, n: nat)
    requires Resolved(before, taken, a) && Resolved(before, taken, b) && n <= |before|
    ensures n <= |a| && n <= |b| && a[..n] == b[..n]
  {
    hide Resolved, Clashed, Numbered, Elements, Dec;
    if n != 0 {
      ResolvedOnce(before, taken, a, b, n - 1);
      var i := n - 1;
      ResolvedAt(before, taken, a, i);
      ResolvedAt(before, taken, b, i);
      if Clashed(before, taken, i) {
        NumberedOnce(a[i], b[i], before[i] + "_", taken + Elements(before) + Elements(a[..i]));
      }
      assert a[..n] == a[..i] + [a[i]] && b[..n] == b[..i] + [b[i]];
    }
  }

  lemma TempNumbered()
    ensures Numbered("temp_1", "temp_", {} + Elements(["temp", "temp", "temp"]) + Elements(["temp"]))
    ensures Numbered("temp_2", "temp_", {} + Elements(["temp", "temp", "temp"]) + Elements(["temp", "temp_1"]))
  {
    var all, one, two := ["temp", "temp", "temp"], ["temp"], ["temp", "temp_1"];
    InElements(all, "temp_1");
    InElements(all, "temp_2");
    InElements(one, "temp_1");
    InElements(two, "temp_1");
    InElements(two, "temp_2");
    hide Elements;
    assert two[1] == "temp_1";
    assert "temp_" + Dec(1) == "temp_1" && "temp_" + Dec(2) == "temp_2";
    assert NumberedBy("temp_1", "temp_", {} + Elements(all) + Elements(one), 1);
    assert NumberedBy("temp_2", "temp_", {} + Elements(all) + Elements(two), 2);
  }

  lemma ThreeResolved()
    ensures Resolved(["temp", "temp", "temp"], {}, ["temp", "temp_1", "temp_2"])
  {
    TempNumbered();
    hide Numbered, Dec;
    var before, after := ["temp", "temp", "temp"], ["temp", "temp_1", "temp_2"];
    assert after[..1] == ["temp"] && after[..2] == ["temp", "temp_1"] && before[..0] == [];
    assert before[..1][0] == "temp" && before[..2][0] == "temp";
    assert !Clashed(before, {}, 0) && Clashed(before, {}, 1) && Clashed(before, {}, 2);
    assert after[0] == "temp" && after[1] == "temp_1" && after[2] == "temp_2";
    forall i | 0 <= i < 3 && Clashed(before, {}, i)
      ensures Numbered(after[i], before[i] + "_", {} + Elements(before) + Elements(after[..i]))
    {
      assert "temp" + "_" == "temp_";
      if i == 1 {
        assert after[..i] == ["temp"];
      } else {
        assert i == 2 && after[..i] == ["temp", "temp_1"];
      }
    }
  }

  /** Three objects of one name keep it, and get it with the numbers 1 and 2. */
  lemma ThreeOfAName(after: seq<string>)
    ensures Resolved(["temp", "temp", "temp"], {}, after) <==> after == ["temp", "temp_1", "temp_2"]
  {
    ThreeResolved();
    hide Resolved;
    if Resolved(["temp", "temp", "temp"], {}, after) {
      ResolvedAt(["temp", "temp", "temp"], {}, after, 0);
      ResolvedOnce(["temp", "temp", "temp"], {}, after, ["temp", "temp_1", "temp_2"], 3);
      assert after[..3] == after;
    }
  }

  ghost predicate AllCFChars(names: seq<string>)
  {
    forall i :: 0 <= i < |names| ==> CFChars(names[i])
  }

  /** Resolving clashes stays inside the alphabet. */
  lemma ResolvedKeepsAlphabet(before: seq<string>, taken: set<string>, after: seq<string>)
    requires Resolved(before, taken, after) && AllCFChars(before)
    ensures AllCFChars(after)
  {
    forall i | 0 <= i < |after|
      ensures CFChars(after[i])
    {
      if Clashed(before, taken, i) {
        var k: nat :| NumberedBy(after[i], before[i] + "_", taken + Elements(before) + Elements(after[..i]), k);
      }
    }
  }

  // ----- variables, the global table and groups against one set

  /** The name of the global attribute table: kept unless taken, then numbered without an underscore. */
  ghost predicate TableResolved(before: string, taken: set<string>, after: string)
  {
    && after !in taken
    && if before in taken then Numbered(after, before, taken) else after == before
  }

  lemma SmallTable(after: string)
    ensures TableResolved("G", {"G", "G1"}, after) <==> after == "G2"
    ensures TableResolved("G", {}, after) <==> after == "G"
  {
    assert "G" + Dec(1) == "G1" && "G" + Dec(2) == "G2";
    assert NumberedBy("G2", "G", {"G", "G1"}, 2);
    if TableResolved("G", {"G", "G1"}, after) {
      NumberedOnce(after, "G2", "G", {"G", "G1"});
    }
  }

  lemma TableKeepsAlphabet(before: string, taken: set<string>, after: string)
    requires TableResolved(before, taken, after) && CFChars(before)
    ensures CFChars(after)
  {
    if before in taken {
      var k: nat :| NumberedBy(after, before, taken, k);
    }
  }

  ghost predicate PairwiseDistinct(names: seq<string>)
  {
    forall i, j :: 0 <= i < j < |names| ==> names[i] != names[j]
  }

  /** All objects of several vectors. */
  ghost function AllObjects(vecs: seq<seq<Named>>): set<Named>
  {
    set v, i | 0 <= v < |vecs| && 0 <= i < |vecs[v]| :: vecs[v][i]
  }

  /** No object occurs twice, in one vector or in two. */
  ghost predicate SeparateVectors(vecs: seq<seq<Named>>)
  {
    && (forall v :: 0 <= v < |vecs| ==> DistinctObjects(vecs[v]))
    && (forall u, v, i, j :: 0 <= u < v < |vecs| && 0 <= i < |vecs[u]| && 0 <= j < |vecs[v]| ==> vecs[u][i] != vecs[v][j])
  }

  ghost function NamesOf(vecs: seq<seq<Named>>): (r: seq<seq<string>>)
    reads AllObjects(vecs)
    ensures |r| == |vecs| && forall v :: 0 <= v < |vecs| ==> r[v] == NewNames(vecs[v])
  {
    seq(|vecs|, v requires 0 <= v < |vecs| reads AllObjects(vecs) => NewNames(vecs[v]))
  }

  lemma ResolvedDistinct(before: seq<string>, taken: set<string>, after: seq<string>)
    requires Resolved(before, taken, after)
    ensures PairwiseDistinct(after) && forall i :: 0 <= i < |after| ==> after[i] !in taken
  {
  }

  class File {
    const vars: seq<Named>
    const groups: seq<Named>
    const attrs: seq<seq<Named>>     // of the root, of each group, of each variable
    var fileAttrTableName: string

    constructor (vars: seq<Named>, groups: seq<Named>, attrs: seq<seq<Named>>, table: string)
      ensures this.vars == vars && this.groups == groups && this.attrs == attrs && fileAttrTableName == table
    {
      this.vars, this.groups, this.attrs := vars, groups, attrs;
      fileAttrTableName := table;
    }

    ghost predicate Separate()
    {
      && DistinctObjects(vars) && DistinctObjects(groups) && SeparateVectors(attrs)
      && (forall i, j :: 0 <= i < |vars| && 0 <= j < |groups| ==> vars[i] != groups[j])
      && (forall i :: 0 <= i < |vars| ==> vars[i] !in AllObjects(attrs))
      && (forall i :: 0 <= i < |groups| ==> groups[i] !in AllObjects(attrs))
    }

    /** The names of variables, table and groups. */
    ghost function ObjectNames(): seq<string>
      reads this, vars, groups
    {
      NewNames(vars) + [fileAttrTableName] + NewNames(groups)
    }

    /** The attributes of each object have to be distinct among themselves only. */
    method HandleObjAttrNameClashing()
      requires SeparateVectors(attrs)
      modifies AllObjects(attrs)
      ensures forall v :: 0 <= v < |attrs| ==> Resolved(old(NamesOf(attrs))[v], {}, NamesOf(attrs)[v])
    {
      hide Resolved;
      ghost var before := NamesOf(attrs);
      var v := 0;
      while v < |attrs|
        invariant 0 <= v <= |attrs|
        invariant forall u :: 0 <= u < v ==> Resolved(before[u], {}, NewNames(attrs[u]))
        invariant forall u :: v <= u < |attrs| ==> NewNames(attrs[u]) == before[u]
      {
        var objnameset := new NameSet();
        ghost var others := NamesOf(attrs);
        HandleGeneralNameClashing(objnameset, attrs[v]);
        forall u | 0 <= u < |attrs| && u != v
          ensures NewNames(attrs[u]) == others[u]
        {
        }
        v := v + 1;
      }
    }

    method HandleGroupNameClashing(objnameset: NameSet)
      requires DistinctObjects(groups)
      modifies this, objnameset, groups
      ensures TableResolved(old(fileAttrTableName), old(objnameset.names), fileAttrTableName)
      ensures Resolved(old(NewNames(groups)), old(objnameset.names) + {fileAttrTableName}, NewNames(groups))
      ensures objnameset.names == old(objnameset.names) + {fileAttrTableName} + Elements(NewNames(groups))
    {
      hide Resolved, Elements, NewNames, Dec;
      var inserted := objnameset.Insert(fileAttrTableName);
      if !inserted {
        assert objnameset.names == old(objnameset.names);
        var name, index := GenUniqueName(fileAttrTableName, objnameset, 1);
        assert NumberedBy(name, fileAttrTableName, old(objnameset.names), index);
        fileAttrTableName := name;
      }
      HandleGeneralNameClashing(objnameset, groups);
    }

    /**
      Variables first, then, if attributes are served, the global table, the
      groups and the attributes. All names of variables, table and groups end
      up distinct from each other and from those in the set.
    */
    method HandleGeneralObjNameClashing(includeAttr: bool, objnameset: NameSet)
      requires Separate()
      modifies this, objnameset, vars, groups, AllObjects(attrs)
      ensures Resolved(old(NewNames(vars)), old(objnameset.names), NewNames(vars))
      ensures includeAttr ==>
                TableResolved(old(fileAttrTableName), old(objnameset.names) + Elements(NewNames(vars)), fileAttrTableName)
      ensures includeAttr ==>
                Resolved(old(NewNames(groups)), old(objnameset.names) + Elements(NewNames(vars)) + {fileAttrTableName}, NewNames(groups))
      ensures includeAttr ==> PairwiseDistinct(ObjectNames())
      ensures includeAttr ==> forall v :: 0 <= v < |attrs| ==> Resolved(old(NamesOf(attrs))[v], {}, NamesOf(attrs)[v])
      ensures !includeAttr ==> NewNames(groups) == old(NewNames(groups)) && fileAttrTableName == old(fileAttrTableName)
      ensures !includeAttr ==> NamesOf(attrs) == old(NamesOf(attrs))
      ensures old(AllCFChars(ObjectNames())) ==> AllCFChars(ObjectNames())
    {
      hide Resolved, Elements, NewNames, Dec, PairwiseDistinct, AllCFChars, TableResolved;
      ghost var taken, vs, table, gs, ats := objnameset.names, NewNames(vars), fileAttrTableName, NewNames(groups), NamesOf(attrs);
      HandleGeneralNameClashing(objnameset, vars);
      ghost var vs' := NewNames(vars);
      assert NewNames(groups) == gs && NamesOf(attrs) == ats;
      if includeAttr {
        HandleGroupNameClashing(objnameset);
        ghost var gs' := NewNames(groups);
        assert NewNames(vars) == vs' && NamesOf(attrs) == ats;
        HandleObjAttrNameClashing();
        assert NewNames(vars) == vs' && NewNames(groups) == gs';
        ThreeBatches(taken, vs, table, gs, vs', fileAttrTableName, gs');
      } else {
        OneBatch(taken, vs, table, gs, vs');
      }
    }
  }

  lemma ThreeBatches(taken: set<string>, vs: seq<string>, table: string, gs: seq<string>, vs': seq<string>, table': string, gs': seq<string>)
    requires Resolved(vs, taken, vs') && TableResolved(table, taken + Elements(vs'), table')
    requires Resolved(gs, taken + Elements(vs') + {table'}, gs')
    ensures PairwiseDistinct(vs' + [table'] + gs')
    ensures AllCFChars(vs + [table] + gs) ==> AllCFChars(vs' + [table'] + gs')
  {
    ResolvedDistinct(vs, taken, vs');
    ResolvedDistinct(gs, taken + Elements(vs') + {table'}, gs');
    AllDistinct(vs', table', gs', taken);
    if AllCFChars(vs + [table] + gs) {
      PartsCFChars(vs, table, gs);
      ResolvedKeepsAlphabet(vs, taken, vs');
      TableKeepsAlphabet(table, taken + Elements(vs'), table');
      ResolvedKeepsAlphabet(gs, taken + Elements(vs') + {table'}, gs');
      hide CFChars;
    }
  }

  lemma OneBatch(taken: set<string>, vs: seq<string>, table: string, gs: seq<string>, vs': seq<string>)
    requires Resolved(vs, taken, vs')
    ensures AllCFChars(vs + [table] + gs) ==> AllCFChars(vs' + [table] + gs)
  {
    if AllCFChars(vs + [table] + gs) {
      PartsCFChars(vs, table, gs);
      ResolvedKeepsAlphabet(vs, taken, vs');
      hide CFChars;
    }
  }

  lemma PartsCFChars(vs: seq<string>, table: string, gs: seq<string>)
    requires AllCFChars(vs + [table] + gs)
    ensures AllCFChars(vs) && CFChars(table) && AllCFChars(gs)
  {
    hide CFChars;
    var all := vs + [table] + gs;
    assert forall i :: 0 <= i < |vs| ==> all[i] == vs[i];
    assert all[|vs|] == table;
    assert forall i :: 0 <= i < |gs| ==> all[|vs| + 1 + i] == gs[i];
  }

  /** Three batches resolved one after the other against one set are distinct altogether. */
  lemma AllDistinct(vs: seq<string>, table: string, gs: seq<string>, taken: set<string>)
    requires PairwiseDistinct(vs) && PairwiseDistinct(gs) && table !in taken + Elements(vs)
    requires forall i :: 0 <= i < |gs| ==> gs[i] !in taken + Elements(vs) + {table}
    ensures PairwiseDistinct(vs + [table] + gs)
  {
    forall i | 0 <= i < |vs|
      ensures vs[i] in Elements(vs)
    {
    }
  }
}
