/**
  The binary form in which a tree of attribute tables is kept on disk. A unit
  starts with a flag byte: 0 an attribute, 1 a container, 2 the end of a table.
  Strings are preceded by their length in 8 bytes, value lists by their number
  in 4. Integers are little-endian.
*/
module DasCodec {
  import opened Common

  type Str = seq<byte>

  datatype Attr =
    | Leaf(name: Str, ty: Str, values: seq<Str>)
    | Container(name: Str, attrs: seq<Attr>)
    | Unknown(name: Str)

  const SIZE_T := 8
  const UINT := 4

  // ----- integers

  function Pow256(k: nat): nat
  {
    if k == 0 then 1 else 256 * Pow256(k - 1)
  }

  /** `n` in `k` bytes. */
  function Int(n: nat, k: nat): (b: seq<byte>)
    ensures |b| == k
  {
    if k == 0 then [] else [n % 256] + Int(n / 256, k - 1)
  }

  function FromInt(b: seq<byte>): nat
  {
    if b == [] then 0 else b[0] + 256 * FromInt(b[1..])
  }

  lemma {:induction false} IntRoundTrip(n: nat, k: nat)
    requires n < Pow256(k)
    ensures FromInt(Int(n, k)) == n
  {
    if k == 0 {
    } else {
      IntRoundTrip(n / 256, k - 1);
      assert Int(n, k)[1..] == Int(n / 256, k - 1);
    }
  }

  lemma Limits()
    ensures Pow256(UINT) == 0x1_0000_0000 && Pow256(UINT) <= Pow256(SIZE_T)
  {
    assert Pow256(4) == 256 * (256 * (256 * (256 * Pow256(0))));
    assert Pow256(8) == 256 * (256 * (256 * (256 * Pow256(4))));
  }

  // ----- the format

  function EncodeStr(s: Str): seq<byte>
  {
    Int(|s|, SIZE_T) + s
  }

  function EncodeStrs(ss: seq<Str>): seq<byte>
  {
    if ss == [] then [] else EncodeStr(ss[0]) + EncodeStrs(ss[1..])
  }

  /** An attribute of unknown type has no encoding; the writer refuses it. */
  function EncodeAttr(a: Attr): seq<byte>
    decreases a
  {
    match a
    case Leaf(name, ty, values) => [0] + EncodeStr(name) + EncodeStr(ty) + Int(|values|, UINT) + EncodeStrs(values)
    case Container(name, attrs) => [1] + EncodeStr(name) + EncodeTable(attrs) + [2]
    case Unknown(_) => []
  }

  function EncodeTable(t: seq<Attr>): seq<byte>
    decreases t
  {
    if t == [] then [] else EncodeAttr(t[0]) + EncodeTable(t[1..])
  }

  /** A whole file: the top-level table and its end mark. */
  function EncodeDas(t: seq<Attr>): seq<byte>
  {
    EncodeTable(t) + [2]
  }

  /** No attribute of unknown type at any depth. */
  predicate Known(t: seq<Attr>)
    decreases t, 0
  {
    forall i :: 0 <= i < |t| ==> KnownAttr(t[i])
  }

  predicate KnownAttr(a: Attr)
    decreases a, 1
  {
    match a
    case Leaf(_, _, _) => true
    case Container(_, attrs) => Known(attrs)
    case Unknown(_) => false
  }

  /** String lengths and numbers of values fit the 32-bit counters of the reader. */
  ghost predicate Counted(t: seq<Attr>)
    decreases t, 0
  {
    forall i :: 0 <= i < |t| ==> CountedAttr(t[i])
  }

  ghost predicate CountedAttr(a: Attr)
    decreases a, 1
  {
    match a
    case Leaf(name, ty, values) =>
      Small(name) && Small(ty) && |values| < Pow256(UINT) && forall k :: 0 <= k < |values| ==> Small(values[k])
    case Container(name, attrs) => Small(name) && Counted(attrs)
    case Unknown(_) => true
  }

  ghost predicate Small(s: Str)
  {
    |s| < Pow256(UINT)
  }

  /** Names are distinct within each table, as attribute tables keep them. */
  ghost predicate Distinct(t: seq<Attr>)
    decreases t
  {
    && (forall i, j :: 0 <= i < j < |t| ==> t[i].name != t[j].name)
    && (forall i :: 0 <= i < |t| && t[i].Container? ==> Distinct(t[i].attrs))
  }

  // ----- the format, byte by byte

  lemma IntStep(n: nat, k: nat)
    ensures Int(n, k + 1) == [n % 256] + Int(n / 256, k)
  {
  }

  /** The least significant byte comes first; a length takes 8 bytes, a number of values 4. */
  lemma LowByteFirst(n: nat)
    requires n < 0x1_0000_0000
    ensures var b := Int(n, 4);
            |b| == 4 && n == b[0] as int + 256 * b[1] as int + 65536 * b[2] as int + 16777216 * b[3] as int
    ensures Int(n, 8) == Int(n, 4) + [0, 0, 0, 0]
  {
    var m := n / 256;
    var k := m / 256;
    var l := k / 256;
    assert l < 256 && l % 256 == l && l / 256 == 0;
    IntSteps(n, m, k, l, 0);
    IntSteps(n, m, k, l, 4);
    IntSteps(0, 0, 0, 0, 0);
    assert Int(0, 0) == [];
  }

  lemma IntSteps(n: nat, m: nat, k: nat, l: nat, more: nat)
    requires m == n / 256 && k == m / 256 && l == k / 256
    ensures Int(n, more + 4) == [n % 256, m % 256, k % 256, l % 256] + Int(l / 256, more)
  {
    IntStep(n, more + 3);
    IntStep(m, more + 2);
    IntStep(k, more + 1);
    IntStep(l, more);
    hide Int;
  }

  /** A string, byte by byte. */
  lemma StrBytes(s: Str)
    requires |s| < 0x1_0000_0000
    ensures var e := EncodeStr(s);
            && |e| == 8 + |s| && e[8..] == s && e[4..8] == [0, 0, 0, 0]
            && |s| == e[0] as int + 256 * e[1] as int + 65536 * e[2] as int + 16777216 * e[3] as int
  {
    LowByteFirst(|s|);
    hide Int;
  }

  lemma OneByte(n: byte)
    ensures Int(n, 4) == [n, 0, 0, 0] && Int(n, 8) == [n, 0, 0, 0, 0, 0, 0, 0]
  {
    LowByteFirst(n);
  }

  /** A string of one character. */
  lemma OneChar(c: byte)
    ensures EncodeStr([c]) == [1, 0, 0, 0, 0, 0, 0, 0, c]
  {
    OneByte(1);
    hide Int;
  }

  /** An attribute a of type b with the value c. */
  lemma SmallAttribute()
    ensures EncodeAttr(Leaf([97], [98], [[99]]))
         == [0] + [1, 0, 0, 0, 0, 0, 0, 0, 97] + [1, 0, 0, 0, 0, 0, 0, 0, 98]
              + [1, 0, 0, 0] + [1, 0, 0, 0, 0, 0, 0, 0, 99]
  {
    OneByte(1);
    OneChar(97);
    OneChar(98);
    OneChar(99);
    var values: seq<Str> := [[99]];
    assert values[1..] == [];
    assert EncodeStrs(values) == EncodeStr([99]) + EncodeStrs([]);
    NothingBehind(EncodeStr([99]));
    hide Int, EncodeStr, EncodeStrs;
    assert EncodeAttr(Leaf([97], [98], values)) == [0] + EncodeStr([97]) + EncodeStr([98]) + Int(1, 4) + EncodeStr([99]);
  }

  /** That attribute in a container x, as a whole file. */
  lemma SmallFile()
    ensures EncodeDas([Container([120], [Leaf([97], [98], [[99]])])])
         == [1] + [1, 0, 0, 0, 0, 0, 0, 0, 120]
            + ([0] + [1, 0, 0, 0, 0, 0, 0, 0, 97] + [1, 0, 0, 0, 0, 0, 0, 0, 98]
                 + [1, 0, 0, 0] + [1, 0, 0, 0, 0, 0, 0, 0, 99])
            + [2] + [2]
  {
    SmallAttribute();
    OneChar(120);
    var a := Leaf([97], [98], [[99]]);
    OneEntry(a);
    OneEntry(Container([120], [a]));
    assert EncodeAttr(Container([120], [a])) == [1] + EncodeStr([120]) + EncodeTable([a]) + [2];
    hide EncodeAttr, EncodeTable, EncodeStr;
  }

  lemma OneEntry(a: Attr)
    ensures EncodeTable([a]) == EncodeAttr(a)
  {
    assert [a][1..] == [];
    assert EncodeTable([a]) == EncodeAttr(a) + EncodeTable([]);
  }

  lemma NothingBehind<T>(s: seq<T>)
    ensures s + [] == s
  {
  }

  /** Which tables can be written and be read back; a table is built up entry by entry. */
  lemma WritableTables(t: seq<Attr>, attrs: seq<Attr>, name: Str, ty: Str, values: seq<Str>)
    ensures Known([]) && Counted([]) && OnlyContainers([])
    ensures Known(t + [Leaf(name, ty, values)]) <==> Known(t)
    ensures Known(t + [Container(name, attrs)]) <==> Known(t) && Known(attrs)
    ensures !Known(t + [Unknown(name)])
    ensures Counted(t) && |name| < 0x1_0000_0000 && |ty| < 0x1_0000_0000 && |values| < 0x1_0000_0000
            && (forall k :: 0 <= k < |values| ==> |values[k]| < 0x1_0000_0000)
            ==> Counted(t + [Leaf(name, ty, values)])
    ensures Counted(t) && Counted(attrs) && |name| < 0x1_0000_0000 ==> Counted(t + [Container(name, attrs)])
    ensures !OnlyContainers(t + [Leaf(name, ty, values)])
    ensures OnlyContainers(t + [Container(name, attrs)]) <==> OnlyContainers(t)
  {
    Limits();
    hide Pow256;
    Entries(t, Leaf(name, ty, values));
    Entries(t, Container(name, attrs));
    Entries(t, Unknown(name));
  }

  lemma Entries(t: seq<Attr>, a: Attr)
    ensures Known(t + [a]) <==> Known(t) && KnownAttr(a)
    ensures Counted(t + [a]) <==> Counted(t) && CountedAttr(a)
    ensures OnlyContainers(t + [a]) <==> OnlyContainers(t) && a.Container?
  {
    var u := t + [a];
    assert u[|t|] == a && forall i :: 0 <= i < |t| ==> u[i] == t[i];
  }

  // ----- self-delimiting

  lemma Regroup<T>(a: seq<T>, b: seq<T>, c: seq<T>, d: seq<T>)
    ensures a + b + c + d == a + (b + c + d)
    ensures a + b + (c + d) == a + (b + (c + d)) == a + b + c + d
    ensures a + b + c == a + (b + c) && b + c + d == b + (c + d)
  {
  }

  lemma RegroupFive<T>(a: seq<T>, b: seq<T>, c: seq<T>, d: seq<T>, e: seq<T>, f: seq<T>)
    ensures a + b + c + d + e + f == a + (b + (c + (d + (e + f))))
  {
  }

  /** `a` and `b` start the same byte sequence. */
  ghost predicate SameStart(a: seq<byte>, ra: seq<byte>, b: seq<byte>, rb: seq<byte>)
  {
    a + ra == b + rb
  }

  lemma SplitEqual(a: seq<byte>, ra: seq<byte>, b: seq<byte>, rb: seq<byte>)
    requires SameStart(a, ra, b, rb) && |a| == |b|
    ensures a == b && ra == rb
  {
    assert a == (a + ra)[..|a|] && b == (b + rb)[..|b|];
    assert ra == (a + ra)[|a|..] && rb == (b + rb)[|b|..];
  }

  lemma StrDelimited(s: Str, rs: seq<byte>, u: Str, ru: seq<byte>)
    requires Small(s) && Small(u) && EncodeStr(s) + rs == EncodeStr(u) + ru
    ensures s == u && rs == ru
  {
    Limits();
    hide Int, Pow256;
    Regroup(Int(|s|, SIZE_T), s, rs, []);
    Regroup(Int(|u|, SIZE_T), u, ru, []);
    SplitEqual(Int(|s|, SIZE_T), s + rs, Int(|u|, SIZE_T), u + ru);
    IntRoundTrip(|s|, SIZE_T);
    IntRoundTrip(|u|, SIZE_T);
    SplitEqual(s, rs, u, ru);
  }

  lemma {:induction false} StrsDelimited(s: seq<Str>, rs: seq<byte>, u: seq<Str>, ru: seq<byte>)
    requires |s| == |u| && EncodeStrs(s) + rs == EncodeStrs(u) + ru
    requires forall k :: 0 <= k < |s| ==> Small(s[k]) && Small(u[k])
    ensures s == u && rs == ru
  {
    if s == [] {
      assert EncodeStrs(s) + rs == rs && EncodeStrs(u) + ru == ru;
    } else {
      hide EncodeStr;
      Regroup(EncodeStr(s[0]), EncodeStrs(s[1..]), rs, []);
      Regroup(EncodeStr(u[0]), EncodeStrs(u[1..]), ru, []);
      StrDelimited(s[0], EncodeStrs(s[1..]) + rs, u[0], EncodeStrs(u[1..]) + ru);
      StrsDelimited(s[1..], rs, u[1..], ru);
      assert s == [s[0]] + s[1..] && u == [u[0]] + u[1..];
    }
  }

  /** The first byte of a unit is its flag. */
  lemma FlagOf(a: Attr)
    requires KnownAttr(a)
    ensures |EncodeAttr(a)| > 0 && EncodeAttr(a)[0] == if a.Leaf? then 0 else 1
  {
  }

  /** A leaf, unit by unit. */
  lemma LeafUnits(a: Attr, ra: seq<byte>)
    requires a.Leaf?
    ensures EncodeAttr(a) + ra
         == [0] + (EncodeStr(a.name) + (EncodeStr(a.ty) + (Int(|a.values|, UINT) + (EncodeStrs(a.values) + ra))))
  {
    var n, y, k, v := EncodeStr(a.name), EncodeStr(a.ty), Int(|a.values|, UINT), EncodeStrs(a.values);
    assert EncodeAttr(a) == [0] + n + y + k + v;
    RegroupFive([0], n, y, k, v, ra);
  }

  lemma LeafDelimited(a: Attr, ra: seq<byte>, b: Attr, rb: seq<byte>)
    requires a.Leaf? && b.Leaf? && CountedAttr(a) && CountedAttr(b)
    requires EncodeAttr(a) + ra == EncodeAttr(b) + rb
    ensures a == b && ra == rb
  {
    hide EncodeAttr, EncodeStr, EncodeStrs, Int;
    var va, vb := EncodeStrs(a.values) + ra, EncodeStrs(b.values) + rb;
    var na, nb := Int(|a.values|, UINT) + va, Int(|b.values|, UINT) + vb;
    var ya, yb := EncodeStr(a.ty) + na, EncodeStr(b.ty) + nb;
    LeafUnits(a, ra);
    LeafUnits(b, rb);
    SplitEqual([0], EncodeStr(a.name) + ya, [0], EncodeStr(b.name) + yb);
    StrDelimited(a.name, ya, b.name, yb);
    StrDelimited(a.ty, na, b.ty, nb);
    SplitEqual(Int(|a.values|, UINT), va, Int(|b.values|, UINT), vb);
    IntRoundTrip(|a.values|, UINT);
    IntRoundTrip(|b.values|, UINT);
    StrsDelimited(a.values, ra, b.values, rb);
  }

  lemma ContainerUnits(a: Attr, ra: seq<byte>)
    requires a.Container?
    ensures EncodeAttr(a) + ra == [1] + (EncodeStr(a.name) + (EncodeTable(a.attrs) + [2] + ra))
  {
    var n, t := EncodeStr(a.name), EncodeTable(a.attrs);
    assert EncodeAttr(a) == [1] + n + t + [2];
    Regroup([1], n, t, [2] + ra);
    Regroup([1], n + t, [2], ra);
    Regroup(n, t, [2], ra);
  }

  lemma TableUnits(t: seq<Attr>, rt: seq<byte>)
    requires t != []
    ensures EncodeTable(t) + [2] + rt == EncodeAttr(t[0]) + (EncodeTable(t[1..]) + [2] + rt)
  {
    var a, u := EncodeAttr(t[0]), EncodeTable(t[1..]);
    assert EncodeTable(t) == a + u;
    Regroup(a, u, [2], rt);
  }

  lemma {:induction false} AttrDelimited(a: Attr, ra: seq<byte>, b: Attr, rb: seq<byte>)
    requires KnownAttr(a) && KnownAttr(b) && CountedAttr(a) && CountedAttr(b)
    requires EncodeAttr(a) + ra == EncodeAttr(b) + rb
    ensures a == b && ra == rb
    decreases a, 1
  {
    FlagOf(a);
    FlagOf(b);
    assert (EncodeAttr(a) + ra)[0] == (EncodeAttr(b) + rb)[0];
    if a.Leaf? {
      LeafDelimited(a, ra, b, rb);
    } else {
      var ta, tb := EncodeTable(a.attrs) + [2] + ra, EncodeTable(b.attrs) + [2] + rb;
      ContainerUnits(a, ra);
      ContainerUnits(b, rb);
      SplitEqual([1], EncodeStr(a.name) + ta, [1], EncodeStr(b.name) + tb);
      StrDelimited(a.name, ta, b.name, tb);
      TableDelimited(a.attrs, ra, b.attrs, rb);
    }
  }

  /**
    A table with its end mark is self-delimiting: whatever bytes follow, no
    other table starts the same way, and the bytes that follow are determined.
  */
  lemma {:induction false} TableDelimited(t: seq<Attr>, rt: seq<byte>, u: seq<Attr>, ru: seq<byte>)
    requires Known(t) && Known(u) && Counted(t) && Counted(u)
    requires EncodeTable(t) + [2] + rt == EncodeTable(u) + [2] + ru
    ensures t == u && rt == ru
    decreases t, 0
  {
    hide EncodeAttr, EncodeTable;
    if t != [] && u != [] {
      var tt, uu := EncodeTable(t[1..]) + [2] + rt, EncodeTable(u[1..]) + [2] + ru;
      TableUnits(t, rt);
      TableUnits(u, ru);
      AttrDelimited(t[0], tt, u[0], uu);
      TableDelimited(t[1..], rt, u[1..], ru);
      assert t == [t[0]] + t[1..] && u == [u[0]] + u[1..];
    } else {
      TableStart(t, rt);
      TableStart(u, ru);
      if t == [] && u == [] {
        SplitEqual([2], rt, [2], ru);
      }
    }
  }

  /** Only the empty table starts with the end mark. */
  lemma TableStart(t: seq<Attr>, rt: seq<byte>)
    requires Known(t)
    ensures |EncodeTable(t) + [2] + rt| > 0
    ensures (EncodeTable(t) + [2] + rt)[0] == 2 <==> t == []
    ensures t == [] ==> EncodeTable(t) + [2] + rt == [2] + rt
  {
    if t == [] {
      assert EncodeTable(t) + [2] + rt == [2] + rt;
    } else {
      FlagOf(t[0]);
      assert (EncodeTable(t) + [2] + rt)[0] == EncodeAttr(t[0])[0];
    }
  }

  // ----- attribute tables

  datatype Entry =
    | AttrEntry(name: Str, ty: Str, values: seq<Str>)
    | ContEntry(name: Str, table: AttrTable)
    | UnknownEntry(name: Str)

  ghost predicate NewName(t: seq<Attr>, name: Str)
  {
    forall i :: 0 <= i < |t| ==> t[i].name != name
  }

  class AttrTable {
    var entries: seq<Entry>
    ghost var tree: seq<Attr>        // what the table and the tables in it hold
    ghost var Repr: set<object>

    ghost predicate Valid()
      reads this, Repr
      ensures Valid() ==> this in Repr
      decreases Repr
    {
      && this in Repr && |tree| == |entries|
      && forall i :: 0 <= i < |entries| ==>
           match entries[i]
           case AttrEntry(name, ty, values) => tree[i] == Leaf(name, ty, values)
           case UnknownEntry(name) => tree[i] == Unknown(name)
           case ContEntry(name, table) =>
             && table in Repr && table.Repr <= Repr && this !in table.Repr && table.Valid()
             && tree[i] == Container(name, table.tree)
    }

    /** The last entry's table was filled on its own: takes its new contents into account. */
    ghost method Adopt(before: seq<Attr>, repr: set<object>, name: Str, table: AttrTable)
      requires this in repr && |entries| == |before| + 1 && entries[|before|] == ContEntry(name, table)
      requires forall i :: 0 <= i < |before| ==>
                 match entries[i]
                 case AttrEntry(n, ty, values) => before[i] == Leaf(n, ty, values)
                 case UnknownEntry(n) => before[i] == Unknown(n)
                 case ContEntry(n, sub) =>
                   && sub in repr && sub.Repr <= repr && this !in sub.Repr && sub.Valid()
                   && before[i] == Container(n, sub.tree)
      requires table.Valid() && this !in table.Repr
      modifies `tree, `Repr
      ensures Valid() && tree == before + [Container(name, table.tree)] && Repr == repr + table.Repr
    {
      tree := before + [Container(name, table.tree)];
      Repr := repr + table.Repr;
    }

    constructor ()
      ensures Valid() && fresh(Repr) && tree == [] && Repr == {this}
    {
      entries, tree, Repr := [], [], {this};
    }

    /** The first attribute of that name: how the writer asks for the values of an attribute. */
    method GetAttrVector(name: Str) returns (values: seq<Str>)
      requires Valid()
      ensures forall i :: 0 <= i < |tree| && tree[i].name == name && tree[i].Leaf? && (forall j :: 0 <= j < i ==> tree[j].name != name)
                ==> values == tree[i].values
    {
      values := [];
      var i := 0;
      while i < |entries|
        invariant 0 <= i <= |entries|
        invariant forall j :: 0 <= j < i ==> tree[j].name != name
      {
        if entries[i].name == name {
          if entries[i].AttrEntry? {
            values := entries[i].values;
          }
          return;
        }
        i := i + 1;
      }
    }

    /** A table never holds a name twice. */
    method AppendAttr(name: Str, ty: Str, values: seq<Str>)
      requires Valid() && NewName(tree, name)
      modifies this
      ensures Valid() && tree == old(tree) + [Leaf(name, ty, values)] && Repr == old(Repr)
    {
      entries := entries + [AttrEntry(name, ty, values)];
      tree := tree + [Leaf(name, ty, values)];
    }

    /** Enters an empty table under `name`. */
    method AppendContainer(name: Str) returns (table: AttrTable)
      requires Valid() && NewName(tree, name)
      modifies this
      ensures Valid() && table.Valid() && fresh(table) && table.tree == [] && table.Repr == {table}
      ensures entries == old(entries) + [ContEntry(name, table)] && Repr == old(Repr) + {table}
      ensures tree == old(tree) + [Container(name, [])]
      ensures forall i :: 0 <= i < |old(entries)| && entries[i].ContEntry? ==> table !in entries[i].table.Repr
    {
      table := new AttrTable();
      entries := entries + [ContEntry(name, table)];
      tree := tree + [Container(name, [])];
      Repr := Repr + {table};
    }
  }

  class File {
    var data: seq<byte>

    constructor ()
      ensures data == []
    {
      data := [];
    }

    method Fwrite(bytes: seq<byte>)
      modifies this
      ensures data == old(data) + bytes
    {
      data := data + bytes;
    }
  }

  // ----- writing

  /** Copies bytes into a buffer and moves the cursor behind them. */
  method MemCpy(buf: array<byte>, p: nat, bytes: seq<byte>) returns (q: nat)
    requires p + |bytes| <= buf.Length
    modifies buf
    ensures q == p + |bytes| && buf[..q] == old(buf[..p]) + bytes
  {
    forall i | 0 <= i < |bytes| {
      buf[p + i] := bytes[i];
    }
    q := p + |bytes|;
  }

  /** A string with its length in front. */
  method CopyStr(buf: array<byte>, p: nat, str: Str) returns (q: nat)
    requires p + SIZE_T + |str| <= buf.Length
    modifies buf
    ensures q == p + SIZE_T + |str| && buf[..q] == old(buf[..p]) + EncodeStr(str)
  {
    q := MemCpy(buf, p, Int(|str|, SIZE_T));
    q := MemCpy(buf, q, str);
  }

  function TotalLength(ss: seq<Str>): nat
  {
    if ss == [] then 0 else |ss[0]| + TotalLength(ss[1..])
  }

  lemma {:induction false} EncodedLength(ss: seq<Str>)
    ensures |EncodeStrs(ss)| == |ss| * SIZE_T + TotalLength(ss)
  {
    if ss == [] {
    } else {
      EncodedLength(ss[1..]);
    }
  }

  lemma {:induction false} EncodeStrsSnoc(ss: seq<Str>, s: Str)
    ensures EncodeStrs(ss + [s]) == EncodeStrs(ss) + EncodeStr(s)
    ensures TotalLength(ss + [s]) == TotalLength(ss) + |s|
  {
    if ss == [] {
      assert ss + [s] == [s];
      assert EncodeStrs([s]) == EncodeStr(s) + EncodeStrs([]);
    } else {
      assert (ss + [s])[1..] == ss[1..] + [s];
      EncodeStrsSnoc(ss[1..], s);
      Regroup(EncodeStr(ss[0]), EncodeStrs(ss[1..]), EncodeStr(s), []);
    }
  }

  method SumLengths(ss: seq<Str>) returns (total: nat)
    ensures total == TotalLength(ss)
  {
    total := 0;
    var i := 0;
    while i < |ss|
      invariant 0 <= i <= |ss| && total == TotalLength(ss[..i])
    {
      EncodeStrsSnoc(ss[..i], ss[i]);
      assert ss[..i + 1] == ss[..i] + [ss[i]];
      total := total + |ss[i]|;
      i := i + 1;
    }
    assert ss[..i] == ss;
  }

  /** All values of an attribute, one string after the other. */
  method CopyValues(buf: array<byte>, p: nat, ss: seq<Str>) returns (q: nat)
    requires p + |ss| * SIZE_T + TotalLength(ss) <= buf.Length
    modifies buf
    ensures q == p + |ss| * SIZE_T + TotalLength(ss) && buf[..q] == old(buf[..p]) + EncodeStrs(ss)
  {
    ghost var head := buf[..p];
    q := p;
    var i := 0;
    while i < |ss|
      invariant 0 <= i <= |ss|
      invariant q == p + |EncodeStrs(ss[..i])| <= buf.Length
      invariant buf[..q] == head + EncodeStrs(ss[..i])
    {
      hide EncodeStrs, EncodeStr, TotalLength;
      EncodeStrsSnoc(ss[..i], ss[i]);
      assert ss[..i + 1] == ss[..i] + [ss[i]];
      RoomForNext(ss, i);
      q := CopyStr(buf, q, ss[i]);
      Regroup(head, EncodeStrs(ss[..i]), EncodeStr(ss[i]), []);
      i := i + 1;
    }
    assert ss[..i] == ss;
    EncodedLength(ss);
  }

  /** `name` is the name of an attribute of the table with these contents, the first one of that name. */
  ghost predicate Named(table: seq<Attr>, name: Str, ty: Str, values: seq<Str>)
  {
    exists i :: 0 <= i < |table| && table[i] == Leaf(name, ty, values) && forall j :: 0 <= j < i ==> table[j].name != name
  }

  /**
    One attribute. The size of the buffer is computed beforehand; the cursor
    ends exactly at it.
  */
  method WriteDasAttrInfo(table: AttrTable, name: Str, ty: Str, file: File, ghost values: seq<Str>)
    requires table.Valid() && Named(table.tree, name, ty, values)
    modifies file
    ensures file.data == old(file.data) + EncodeAttr(Leaf(name, ty, values))
  {
    hide EncodeStr, EncodeStrs, TotalLength, Int;
    var attrValues := table.GetAttrVector(name);
    assert attrValues == values;
    var num := |attrValues|;
    var total := SumLengths(attrValues);
    var buf := FillAttr(name, ty, attrValues, total);
    file.Fwrite(buf);
  }

  method FillAttr(name: Str, ty: Str, attrValues: seq<Str>, total: nat) returns (bytes: seq<byte>)
    requires total == TotalLength(attrValues)
    ensures bytes == EncodeAttr(Leaf(name, ty, attrValues))
  {
    hide EncodeStr, EncodeStrs, TotalLength, Int;
    var num := |attrValues|;
    var bytesToWrite := 1 + |name| + |ty| + 2 * SIZE_T;
    bytesToWrite := bytesToWrite + UINT + num * SIZE_T + total;
    var buf := new byte[bytesToWrite](_ => 0);
    var p := MemCpy(buf, 0, [0]);
    assert buf[..p] == [0];
    p := CopyStr(buf, p, name);
    p := CopyStr(buf, p, ty);
    p := MemCpy(buf, p, Int(num, UINT));
    p := CopyValues(buf, p, attrValues);
    assert p == bytesToWrite && buf[..p] == buf[..];
    bytes := buf[..];
  }

  lemma RoomForNext(ss: seq<Str>, i: nat)
    requires i < |ss|
    ensures |EncodeStrs(ss[..i])| + SIZE_T + |ss[i]| <= |ss| * SIZE_T + TotalLength(ss)
  {
    EncodedLength(ss);
    assert ss == ss[..i] + ([ss[i]] + ss[i + 1..]);
    EncodeStrsConcat(ss[..i], [ss[i]] + ss[i + 1..]);
  }

  lemma {:induction false} EncodeStrsConcat(a: seq<Str>, b: seq<Str>)
    ensures EncodeStrs(a + b) == EncodeStrs(a) + EncodeStrs(b)
  {
    if a == [] {
      assert a + b == b;
    } else {
      assert (a + b)[1..] == a[1..] + b;
      EncodeStrsConcat(a[1..], b);
      Regroup(EncodeStr(a[0]), EncodeStrs(a[1..]), EncodeStrs(b), []);
    }
  }

  method WriteContainerNameToFile(name: Str, file: File)
    modifies file
    ensures file.data == old(file.data) + ([1] + EncodeStr(name))
  {
    var bytesToWrite := |name| + SIZE_T + 1;
    var buf := new byte[bytesToWrite](_ => 0);
    var p := MemCpy(buf, 0, [1]);
    p := CopyStr(buf, p, name);
    assert buf[..p] == buf[..];
    file.Fwrite(buf[..]);
  }

  lemma {:induction false} EncodeTableSnoc(t: seq<Attr>, a: Attr)
    ensures EncodeTable(t + [a]) == EncodeTable(t) + EncodeAttr(a)
  {
    if t == [] {
      assert t + [a] == [a];
      assert EncodeTable([a]) == EncodeAttr(a) + EncodeTable([]);
    } else {
      assert (t + [a])[1..] == t[1..] + [a];
      EncodeTableSnoc(t[1..], a);
      Regroup(EncodeAttr(t[0]), EncodeTable(t[1..]), EncodeAttr(a), []);
    }
  }

  lemma KnownPart(t: seq<Attr>, i: nat)
    requires i < |t|
    ensures Known(t) ==> KnownAttr(t[i])
    ensures t[i].Leaf? ==> KnownAttr(t[i])
    ensures t[i].Unknown? ==> !KnownAttr(t[i])
    ensures Known(t[..i]) && KnownAttr(t[i]) ==> Known(t[..i + 1])
  {
  }

  lemma DistinctPart(t: seq<Attr>, i: nat)
    requires Distinct(t) && i < |t|
    ensures t[i].Leaf? ==> Named(t, t[i].name, t[i].ty, t[i].values)
    ensures t[i].Container? ==> Distinct(t[i].attrs)
  {
  }

  /** One more entry behind the first `i`. */
  lemma EncodeNext(start: seq<byte>, t: seq<Attr>, i: nat)
    requires i < |t|
    ensures start + EncodeTable(t[..i]) + EncodeAttr(t[i]) == start + EncodeTable(t[..i + 1])
  {
    EncodeTableSnoc(t[..i], t[i]);
    assert t[..i + 1] == t[..i] + [t[i]];
    Regroup(start, EncodeTable(t[..i]), EncodeAttr(t[i]), []);
  }

  /** One entry of the table, by its kind. */
  method WriteEntry(table: AttrTable, i: nat, file: File) returns (ok: bool)
    requires table.Valid() && Distinct(table.tree) && file !in table.Repr && i < |table.entries|
    modifies file
    ensures ok <==> KnownAttr(table.tree[i])
    ensures ok ==> file.data == old(file.data) + EncodeAttr(table.tree[i])
    decreases table.Repr, 0
  {
    hide Known, KnownAttr, Distinct, EncodeTable, EncodeAttr, Named;
    KnownPart(table.tree, i);
    DistinctPart(table.tree, i);
    match table.entries[i]
    case UnknownEntry(_) =>
      ok := false;
    case AttrEntry(name, ty, values) =>
      WriteDasAttrInfo(table, name, ty, file, values);
      ok := true;
    case ContEntry(name, sub) =>
      ok := WriteContainer(name, sub, file);
  }

  /** Writes the entries in order; refused at the first attribute of unknown type. */
  method WriteDasTableToFile(table: AttrTable, file: File) returns (ok: bool)
    requires table.Valid() && Distinct(table.tree) && file !in table.Repr
    modifies file
    ensures ok <==> Known(table.tree)
    ensures ok ==> file.data == old(file.data) + EncodeTable(table.tree)
    decreases table.Repr, 1
  {
    ghost var t, start := table.tree, file.data;
    assert Known(t[..0]) && EncodeTable(t[..0]) == [];
    assert t[..|t|] == t;
    hide Known, KnownAttr, Distinct, EncodeTable, EncodeAttr;
    var i := 0;
    while i < |table.entries|
      invariant 0 <= i <= |table.entries| && table.Valid() && table.tree == t
      invariant Known(t[..i])
      invariant file.data == start + EncodeTable(t[..i])
    {
      KnownPart(t, i);
      EncodeNext(start, t, i);
      var written := WriteEntry(table, i, file);
      if !written {
        return false;
      }
      i := i + 1;
    }
    ok := true;
  }

  /** A container: its name, its entries, and the end mark. */
  method WriteContainer(name: Str, sub: AttrTable, file: File) returns (ok: bool)
    requires sub.Valid() && Distinct(sub.tree) && file !in sub.Repr
    modifies file
    ensures ok <==> KnownAttr(Container(name, sub.tree))
    ensures ok ==> file.data == old(file.data) + EncodeAttr(Container(name, sub.tree))
    decreases sub.Repr, 2
  {
    WriteContainerNameToFile(name, file);
    ok := WriteDasTableToFile(sub, file);
    if ok {
      file.Fwrite([2]);
      hide EncodeTable, EncodeStr;
      Regroup([1] + EncodeStr(name), EncodeTable(sub.tree), [2], []);
      Regroup(old(file.data), [1] + EncodeStr(name), EncodeTable(sub.tree), [2]);
    }
  }

  method WriteDasToFile(das: AttrTable, file: File) returns (ok: bool)
    requires das.Valid() && Distinct(das.tree) && file !in das.Repr
    modifies file
    ensures ok <==> Known(das.tree)
    ensures ok ==> file.data == old(file.data) + EncodeDas(das.tree)
  {
    ok := WriteDasTableToFile(das, file);
    if ok {
      file.Fwrite([2]);
    }
  }

  // ----- reading

  /** From `p` on the buffer holds `unit` and then `rest`. */
  ghost predicate StartsAt(buf: seq<byte>, p: nat, unit: seq<byte>, rest: seq<byte>)
  {
    p <= |buf| && buf[p..] == unit + rest
  }

  lemma Behind(buf: seq<byte>, p: nat, unit: seq<byte>, rest: seq<byte>)
    requires StartsAt(buf, p, unit, rest)
    ensures p + |unit| <= |buf| && buf[p..p + |unit|] == unit && buf[p + |unit|..] == rest
  {
    assert buf[p..][..|unit|] == unit && buf[p..][|unit|..] == rest;
  }

  /** A string is its length, then its characters. */
  lemma StrStart(buf: seq<byte>, p: nat, s: Str, rest: seq<byte>)
    requires StartsAt(buf, p, EncodeStr(s), rest)
    ensures p + SIZE_T + |s| <= |buf| && |EncodeStr(s)| == SIZE_T + |s|
    ensures buf[p..p + SIZE_T] == Int(|s|, SIZE_T)
    ensures forall i :: 0 <= i < |s| ==> buf[p + SIZE_T + i] == s[i]
    ensures buf[p + SIZE_T + |s|..] == rest
  {
    hide Int;
    var n := Int(|s|, SIZE_T);
    Behind(buf, p, EncodeStr(s), rest);
    forall i | 0 <= i < SIZE_T
      ensures buf[p + i] == n[i]
    {
      assert buf[p + i] == buf[p..p + |EncodeStr(s)|][i] == (n + s)[i];
    }
    forall i | 0 <= i < |s|
      ensures buf[p + SIZE_T + i] == s[i]
    {
      assert buf[p + SIZE_T + i] == buf[p..p + |EncodeStr(s)|][SIZE_T + i] == (n + s)[SIZE_T + i];
    }
  }

  /** Reads one string; the cursor ends exactly behind it. */
  method ObtainStr(buf: seq<byte>, p: nat, ghost s: Str, ghost rest: seq<byte>) returns (q: nat, str: Str)
    requires Small(s) && StartsAt(buf, p, EncodeStr(s), rest)
    ensures str == s && q == p + |EncodeStr(s)| && StartsAt(buf, q, [], rest) && p < q <= |buf|
  {
    Limits();
    IntRoundTrip(|s|, SIZE_T);
    hide Int, Pow256, FromInt;
    StrStart(buf, p, s, rest);
    var size := FromInt(buf[p..p + SIZE_T]);
    q := p + SIZE_T;
    ghost var start := q;
    str := [];
    var i := 0;
    while i < size
      invariant 0 <= i <= size == |s| && q == start + i
      invariant str == s[..i]
    {
      assert buf[start + i] == s[i];
      str := str + [buf[q]];
      q := q + 1;
      i := i + 1;
    }
  }

  /** Reads the values of an attribute. */
  method ObtainValues(buf: seq<byte>, p: nat, num: nat, ghost ss: seq<Str>, ghost rest: seq<byte>) returns (q: nat, values: seq<Str>)
    requires num == |ss| && forall k :: 0 <= k < |ss| ==> Small(ss[k])
    requires StartsAt(buf, p, EncodeStrs(ss), rest)
    ensures values == ss && q == p + |EncodeStrs(ss)| && StartsAt(buf, q, [], rest)
  {
    q, values := p, [];
    var i := 0;
    while i < num
      invariant 0 <= i <= num && values == ss[..i]
      invariant q == p + |EncodeStrs(ss)| - |EncodeStrs(ss[i..])| && StartsAt(buf, q, EncodeStrs(ss[i..]), rest)
    {
      assert ss[i..][1..] == ss[i + 1..];
      hide EncodeStr;
      Regroup(EncodeStr(ss[i]), EncodeStrs(ss[i + 1..]), rest, []);
      var value;
      q, value := ObtainStr(buf, q, ss[i], EncodeStrs(ss[i + 1..]) + rest);
      values := values + [value];
      i := i + 1;
    }
    assert ss[num..] == [];
  }

  /** Reads the number of values. */
  method ObtainNumber(buf: seq<byte>, p: nat, ghost n: nat, ghost rest: seq<byte>) returns (q: nat, num: nat)
    requires n < Pow256(UINT) && StartsAt(buf, p, Int(n, UINT), rest)
    ensures num == n && q == p + UINT && StartsAt(buf, q, [], rest)
  {
    hide Int, FromInt, Pow256;
    IntRoundTrip(n, UINT);
    Behind(buf, p, Int(n, UINT), rest);
    num := FromInt(buf[p..p + UINT]);
    q := p + UINT;
  }

  /** Reads an attribute whose flag has been read. */
  method ObtainAttr(buf: seq<byte>, p: nat, ghost a: Attr, ghost rest: seq<byte>)
    returns (q: nat, name: Str, ty: Str, values: seq<Str>)
    requires a.Leaf? && CountedAttr(a) && |EncodeAttr(a)| >= 1 && StartsAt(buf, p, EncodeAttr(a)[1..], rest)
    ensures Leaf(name, ty, values) == a && q == p + |EncodeAttr(a)| - 1 && StartsAt(buf, q, [], rest)
  {
    ghost var va := EncodeStrs(a.values) + rest;
    ghost var na := Int(|a.values|, UINT) + va;
    ghost var ya := EncodeStr(a.ty) + na;
    LeafStart(a, rest, va, na, ya, buf, p);
    hide EncodeAttr, EncodeStr, EncodeStrs, Int, FromInt, Pow256, StartsAt, CountedAttr;
    q, name := ObtainStr(buf, p, a.name, ya);
    JustBehind(buf, q, EncodeStr(a.ty), na);
    q, ty := ObtainStr(buf, q, a.ty, na);
    JustBehind(buf, q, Int(|a.values|, UINT), va);
    var num;
    q, num := ObtainNumber(buf, q, |a.values|, va);
    JustBehind(buf, q, EncodeStrs(a.values), rest);
    q, values := ObtainValues(buf, q, num, a.values, rest);
  }

  lemma JustBehind(buf: seq<byte>, q: nat, unit: seq<byte>, rest: seq<byte>)
    requires StartsAt(buf, q, [], unit + rest)
    ensures StartsAt(buf, q, unit, rest)
  {
  }

  /** Behind the flag of an attribute come its name, its type, the number of values and the values. */
  lemma LeafStart(a: Attr, rest: seq<byte>, va: seq<byte>, na: seq<byte>, ya: seq<byte>, buf: seq<byte>, p: nat)
    requires a.Leaf? && CountedAttr(a) && |EncodeAttr(a)| >= 1 && StartsAt(buf, p, EncodeAttr(a)[1..], rest)
    requires va == EncodeStrs(a.values) + rest && na == Int(|a.values|, UINT) + va && ya == EncodeStr(a.ty) + na
    ensures StartsAt(buf, p, EncodeStr(a.name), ya)
    ensures |EncodeAttr(a)| == 1 + |EncodeStr(a.name)| + |EncodeStr(a.ty)| + UINT + |EncodeStrs(a.values)|
    ensures |a.values| < Pow256(UINT)
    ensures Small(a.name) && Small(a.ty) && forall k :: 0 <= k < |a.values| ==> Small(a.values[k])
  {
    hide EncodeAttr, EncodeStr, EncodeStrs, Int, FromInt, Pow256;
    LeafUnits(a, rest);
    DropFlag(EncodeAttr(a), rest, 0, EncodeStr(a.name) + ya);
  }

  lemma DropFlag(unit: seq<byte>, rest: seq<byte>, flag: byte, behind: seq<byte>)
    requires unit != [] && unit + rest == [flag] + behind
    ensures unit[1..] + rest == behind
  {
    assert unit[1..] + rest == (unit + rest)[1..] == ([flag] + behind)[1..] == behind;
  }

  datatype DasError = NoTableForAttribute

  /** The table that receives what is read: the top-level one as long as there is no parent. */
  function Target(das: AttrTable, atPar: AttrTable?): AttrTable
  {
    if atPar == null then das else atPar
  }

  ghost predicate OnlyContainers(t: seq<Attr>)
  {
    forall i :: 0 <= i < |t| ==> t[i].Container?
  }

  /** What is left to read when the first `i` of the attributes are done. */
  ghost predicate Remaining(buf: seq<byte>, p: nat, t: seq<Attr>, rest: seq<byte>)
  {
    StartsAt(buf, p, EncodeTable(t) + [2], rest)
  }

  lemma RemainingFlag(buf: seq<byte>, p: nat, t: seq<Attr>, rest: seq<byte>)
    requires Remaining(buf, p, t, rest) && Known(t)
    ensures p < |buf| && (buf[p] == 2 <==> t == [])
    ensures t == [] ==> StartsAt(buf, p + 1, [], rest)
    ensures t != [] ==> buf[p] == (if t[0].Leaf? then 0 else 1) && |EncodeAttr(t[0])| >= 1
                        && StartsAt(buf, p + 1, EncodeAttr(t[0])[1..], EncodeTable(t[1..]) + [2] + rest)
  {
    TableStart(t, rest);
    assert buf[p] == buf[p..][0];
    assert buf[p + 1..] == buf[p..][1..];
    if t != [] {
      FlagOf(t[0]);
      TableUnits(t, rest);
    }
  }

  /** The reader that started at `p` is at `q`, with the first `i` units of the table behind it. */
  ghost predicate Here(buf: seq<byte>, p: nat, q: nat, t: seq<Attr>, i: nat, rest: seq<byte>)
  {
    i <= |t| && p <= q && Remaining(buf, q, t[i..], rest) && q + |EncodeTable(t[i..])| == p + |EncodeTable(t)|
  }

  /** The table with the first `i` units added. */
  ghost function Grown(before: seq<Attr>, t: seq<Attr>, i: nat): seq<Attr>
    requires i <= |t|
  {
    before + t[..i]
  }

  lemma GrownNext(before: seq<Attr>, t: seq<Attr>, i: nat)
    requires i < |t|
    ensures Grown(before, t, i + 1) == Grown(before, t, i) + [t[i]]
  {
    assert t[..i + 1] == t[..i] + [t[i]];
  }

  /** The bytes from unit `i` on. */
  ghost function Later(t: seq<Attr>, i: nat, rest: seq<byte>): seq<byte>
    requires i <= |t|
  {
    EncodeTable(t[i..]) + [2] + rest
  }

  /** None of the first `i` units is an attribute. */
  ghost predicate OnlyContainersTo(t: seq<Attr>, i: nat)
  {
    i <= |t| && OnlyContainers(t[..i])
  }

  lemma ContainersNext(t: seq<Attr>, i: nat)
    requires i < |t|
    ensures OnlyContainersTo(t, i) && t[i].Container? ==> OnlyContainersTo(t, i + 1)
    ensures OnlyContainers(t) ==> t[i].Container?
  {
  }

  lemma ContainersAll(t: seq<Attr>)
    ensures OnlyContainersTo(t, 0) && (OnlyContainersTo(t, |t|) <==> OnlyContainers(t))
  {
    assert t[..|t|] == t;
  }

  /** What the next unit is, and what its reader may rely on. */
  lemma NextUnit(buf: seq<byte>, p: nat, q: nat, before: seq<Attr>, t: seq<Attr>, i: nat, rest: seq<byte>)
    requires i < |t| && Here(buf, p, q, t, i, rest)
    requires Known(t) && Counted(t) && Distinct(before + t)
    ensures q < |buf| && buf[q] == (if t[i].Leaf? then 0 else 1)
    ensures KnownAttr(t[i]) && CountedAttr(t[i]) && NewName(Grown(before, t, i), t[i].name)
    ensures t[i].Container? ==> Distinct(t[i].attrs)
    ensures |EncodeAttr(t[i])| >= 1
    ensures StartsAt(buf, q + 1, EncodeAttr(t[i])[1..], Later(t, i + 1, rest))
  {
    var u := t[i..];
    assert u[0] == t[i] && u[1..] == t[i + 1..];
    KnownSuffix(t, i);
    RemainingFlag(buf, q, u, rest);
    var all := before + t;
    assert all[|before| + i] == t[i];
    forall j | 0 <= j < |before| + i
      ensures (before + t[..i])[j].name != t[i].name
    {
      assert all[j] == (before + t[..i])[j];
    }
  }

  /** Behind the last unit is the end mark. */
  lemma EndOfTable(buf: seq<byte>, p: nat, q: nat, t: seq<Attr>, rest: seq<byte>)
    requires Here(buf, p, q, t, |t|, rest)
    ensures q < |buf| && buf[q] == 2 && StartsAt(buf, q + 1, [], rest) && q == p + |EncodeTable(t)|
  {
    assert t[|t|..] == [];
    RemainingFlag(buf, q, [], rest);
  }

  lemma StartOfTable(buf: seq<byte>, p: nat, before: seq<Attr>, t: seq<Attr>, rest: seq<byte>)
    requires Remaining(buf, p, t, rest)
    ensures Here(buf, p, p, t, 0, rest) && Grown(before, t, 0) == before && Grown(before, t, |t|) == before + t
  {
    assert t[0..] == t;
  }

  lemma KnownSuffix(t: seq<Attr>, i: nat)
    requires i <= |t| && Known(t)
    ensures Known(t[i..])
  {
  }

  /** Behind a unit is the next one. */
  lemma AfterUnit(buf: seq<byte>, p: nat, q: nat, q': nat, t: seq<Attr>, i: nat, rest: seq<byte>)
    requires i < |t| && Here(buf, p, q, t, i, rest) && q' == q + |EncodeAttr(t[i])|
    requires StartsAt(buf, q', [], Later(t, i + 1, rest))
    ensures Here(buf, p, q', t, i + 1, rest)
  {
    var u := t[i..];
    assert u[0] == t[i] && u[1..] == t[i + 1..];
  }

  /** Rank of a position: what is left of the buffer. */
  function Left(buf: seq<byte>, p: nat): nat
  {
    if p <= |buf| then |buf| - p else 0
  }

  /** An attribute whose flag has been read is appended to `target`. */
  method ReadAttr(buf: seq<byte>, p: nat, target: AttrTable, ghost a: Attr, ghost rest: seq<byte>) returns (q: nat)
    requires target.Valid() && NewName(target.tree, a.name)
    requires a.Leaf? && CountedAttr(a) && |EncodeAttr(a)| >= 1 && StartsAt(buf, p, EncodeAttr(a)[1..], rest)
    modifies target
    ensures target.Valid() && target.tree == old(target.tree) + [a] && target.Repr == old(target.Repr)
    ensures q == p + |EncodeAttr(a)| - 1 && StartsAt(buf, q, [], rest)
  {
    hide EncodeAttr, StartsAt, CountedAttr, NewName;
    var name, ty, values;
    q, name, ty, values := ObtainAttr(buf, p, a, rest);
    target.AppendAttr(name, ty, values);
  }

  /** Reads the name of a container whose flag has been read. Its table follows. */
  method ObtainContainerName(buf: seq<byte>, p: nat, ghost a: Attr, ghost rest: seq<byte>) returns (q: nat, name: Str)
    requires a.Container? && KnownAttr(a) && CountedAttr(a)
    requires |EncodeAttr(a)| >= 1 && StartsAt(buf, p, EncodeAttr(a)[1..], rest)
    ensures name == a.name && p < q <= |buf| && Remaining(buf, q, a.attrs, rest)
    ensures p + |EncodeAttr(a)| == q + |EncodeTable(a.attrs)| + 2
    ensures Counted(a.attrs) && Known(a.attrs)
  {
    ContainerStart(a, rest);
    hide EncodeTable, EncodeAttr, EncodeStr, Known, KnownAttr, Counted, CountedAttr, StartsAt;
    q, name := ObtainStr(buf, p, a.name, EncodeTable(a.attrs) + [2] + rest);
    ContainerBody(buf, q, a, rest);
  }

  /**
    A container whose flag has been read: its table is entered into `target`
    first and filled by the recursive call. `target` itself is what the caller
    goes on with afterwards.
  */
  method ReadContainer(buf: seq<byte>, p: nat, das: AttrTable, target: AttrTable, ghost a: Attr, ghost rest: seq<byte>)
    returns (q: nat)
    requires target.Valid() && NewName(target.tree, a.name)
    requires a.Container? && KnownAttr(a) && CountedAttr(a) && Distinct(a.attrs)
    requires |EncodeAttr(a)| >= 1 && StartsAt(buf, p, EncodeAttr(a)[1..], rest)
    modifies target
    ensures target.Valid() && target.tree == old(target.tree) + [a] && fresh(target.Repr - old(target.Repr))
    ensures q == p + |EncodeAttr(a)| - 1 && StartsAt(buf, q, [], rest)
    decreases Left(buf, p), 0
  {
    hide EncodeTable, EncodeAttr, EncodeStr, Known, KnownAttr, Counted, CountedAttr, Distinct, NewName, StartsAt, Remaining;
    var name;
    q, name := ObtainContainerName(buf, p, a, rest);
    ghost var tree, repr := target.tree, target.Repr;
    var table := target.AppendContainer(name);
    assert [] + a.attrs == a.attrs;
    var r := GetAttrInfoFromDc(buf, q, das, table, a.attrs, rest);
    q := r.value;
    target.Adopt(tree, repr, name, table);
  }

  /** Behind the flag of a container comes its name, then its table with the end mark. */
  lemma ContainerStart(a: Attr, rest: seq<byte>)
    requires a.Container? && CountedAttr(a) && KnownAttr(a)
    ensures |EncodeAttr(a)| >= 1
    ensures forall buf, p: nat :: StartsAt(buf, p, EncodeAttr(a)[1..], rest)
              ==> StartsAt(buf, p, EncodeStr(a.name), EncodeTable(a.attrs) + [2] + rest)
    ensures |EncodeAttr(a)| == 1 + |EncodeStr(a.name)| + |EncodeTable(a.attrs)| + 1
    ensures Small(a.name) && Counted(a.attrs) && Known(a.attrs)
  {
    ContainerUnits(a, rest);
    DropFlag(EncodeAttr(a), rest, 1, EncodeStr(a.name) + (EncodeTable(a.attrs) + [2] + rest));
  }

  lemma ContainerBody(buf: seq<byte>, q: nat, a: Attr, rest: seq<byte>)
    requires a.Container? && StartsAt(buf, q, [], EncodeTable(a.attrs) + [2] + rest)
    ensures Remaining(buf, q, a.attrs, rest)
    ensures [] + a.attrs == a.attrs
  {
  }

  /** One unit whose flag has been read. Whatever it is, the table that was current before is current again. */
  method ReadUnit(buf: seq<byte>, p: nat, flag: byte, das: AttrTable, target: AttrTable, noTable: bool,
                  ghost a: Attr, ghost rest: seq<byte>)
    returns (r: Result<nat, DasError>)
    requires target.Valid() && NewName(target.tree, a.name)
    requires KnownAttr(a) && CountedAttr(a) && (a.Container? ==> Distinct(a.attrs)) && flag == (if a.Leaf? then 0 else 1)
    requires |EncodeAttr(a)| >= 1 && StartsAt(buf, p, EncodeAttr(a)[1..], rest)
    modifies target
    ensures r.Ok? <==> !noTable || a.Container?
    ensures r.Ok? ==> r.value == p + |EncodeAttr(a)| - 1 && StartsAt(buf, r.value, [], rest)
    ensures r.Ok? ==> target.Valid() && target.tree == old(target.tree) + [a] && fresh(target.Repr - old(target.Repr))
    decreases Left(buf, p), 1
  {
    hide EncodeAttr, CountedAttr, Distinct, NewName, StartsAt;
    var q;
    if flag == 1 {
      q := ReadContainer(buf, p, das, target, a, rest);
    } else {
      if noTable {
        return Err(NoTableForAttribute);
      }
      q := ReadAttr(buf, p, target, a, rest);
    }
    r := Ok(q);
  }

  /** The loop over the units of the table that `target` receives. */
  method ReadUnits(buf: seq<byte>, p: nat, das: AttrTable, target: AttrTable, noTable: bool, ghost t: seq<Attr>, ghost rest: seq<byte>)
    returns (r: Result<nat, DasError>)
    requires target.Valid() && Distinct(target.tree + t)
    requires Known(t) && Counted(t) && Remaining(buf, p, t, rest)
    modifies target
    ensures r.Ok? <==> !noTable || OnlyContainers(t)
    ensures r.Ok? ==> target.Valid() && target.tree == old(target.tree) + t && fresh(target.Repr - old(target.Repr))
    ensures r.Ok? ==> r.value == p + |EncodeTable(t)| + 1 && StartsAt(buf, r.value, [], rest)
    decreases Left(buf, p), 2
  {
    ghost var before := target.tree;
    var flag, q := 3, p;
    ghost var i := 0;
    StartOfTable(buf, p, before, t, rest);
    ContainersAll(t);
    hide EncodeTable, EncodeAttr, Known, KnownAttr, Counted, CountedAttr, Distinct, NewName, StartsAt, Here, Remaining,
         OnlyContainers, OnlyContainersTo, Grown, Later;
    while flag != 2
      invariant 0 <= i <= |t| && p <= q
      invariant flag != 2 ==> Here(buf, p, q, t, i, rest)
      invariant flag == 2 ==> i == |t| && StartsAt(buf, q, [], rest) && q == p + |EncodeTable(t)| + 1
      invariant target.Valid() && target.tree == Grown(before, t, i) && fresh(target.Repr - old(target.Repr))
      invariant noTable ==> OnlyContainersTo(t, i)
      decreases flag != 2, Left(buf, q)
    {
      if i < |t| {
        NextUnit(buf, p, q, before, t, i, rest);
        GrownNext(before, t, i);
        ContainersNext(t, i);
      } else {
        EndOfTable(buf, p, q, t, rest);
      }
      flag := buf[q];
      q := q + 1;
      if flag != 2 {
        var read := ReadUnit(buf, q, flag, das, target, noTable, t[i], Later(t, i + 1, rest));
        if read.Err? {
          return read;
        }
        AfterUnit(buf, p, q - 1, read.value, t, i, rest);
        q, i := read.value, i + 1;
      }
    }
    r := Ok(q);
  }

  /**
    Reads units until the end mark of the table. The cursor it returns is
    exactly behind that mark. An attribute outside any table is refused.
  */
  method GetAttrInfoFromDc(buf: seq<byte>, p: nat, das: AttrTable, atPar: AttrTable?, ghost t: seq<Attr>, ghost rest: seq<byte>)
    returns (r: Result<nat, DasError>)
    requires Target(das, atPar).Valid() && Distinct(Target(das, atPar).tree + t)
    requires Known(t) && Counted(t) && Remaining(buf, p, t, rest)
    modifies Target(das, atPar)
    ensures r.Ok? <==> atPar != null || OnlyContainers(t)
    ensures r.Ok? ==> Target(das, atPar).Valid() && Target(das, atPar).tree == old(Target(das, atPar).tree) + t
    ensures r.Ok? ==> fresh(Target(das, atPar).Repr - old(Target(das, atPar).Repr))
    ensures r.Ok? ==> r.value == p + |EncodeTable(t)| + 1 && StartsAt(buf, r.value, [], rest)
    decreases Left(buf, p), 3
  {
    hide EncodeTable, Known, Counted, Distinct, StartsAt, Remaining, OnlyContainers;
    r := ReadUnits(buf, p, das, Target(das, atPar), atPar == null, t, rest);
  }

  method WriteDasToDiskCache(das: AttrTable) returns (ok: bool, file: File)
    requires das.Valid() && Distinct(das.tree)
    ensures fresh(file) && (ok <==> Known(das.tree))
    ensures ok ==> file.data == EncodeDas(das.tree)
  {
    file := new File();
    ok := WriteDasToFile(das, file);
  }

  method ReadDasFromDiskCache(file: File, ghost t: seq<Attr>, ghost rest: seq<byte>) returns (r: Result<AttrTable, DasError>)
    requires Known(t) && Counted(t) && Distinct(t) && file.data == EncodeDas(t) + rest
    ensures r.Ok? <==> OnlyContainers(t)
    ensures r.Ok? ==> fresh(r.value) && r.value.Valid() && r.value.tree == t
  {
    var das := new AttrTable();
    assert [] + t == t;
    assert file.data[0..] == file.data;
    var q := GetAttrInfoFromDc(file.data, 0, das, null, t, rest);
    r := if q.Ok? then Ok(das) else Err(q.error);
  }

  /**
    The round trip: a tree whose top level holds containers only comes back
    with the same names, types, values, order and nesting. With an attribute at
    the top level the file can be written but not read.
  */
  method SaveAndLoad(das: AttrTable) returns (saved: bool, r: Result<AttrTable, DasError>)
    requires das.Valid() && Distinct(das.tree) && Counted(das.tree)
    ensures saved <==> Known(das.tree)
    ensures saved ==> (r.Ok? <==> OnlyContainers(das.tree))
    ensures saved && r.Ok? ==> r.value.Valid() && r.value.tree == das.tree
  {
    var file;
    saved, file := WriteDasToDiskCache(das);
    r := Err(NoTableForAttribute);
    if saved {
      assert EncodeDas(das.tree) + [] == EncodeDas(das.tree);
      r := ReadDasFromDiskCache(file, das.tree, []);
    }
  }
}
