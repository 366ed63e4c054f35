/**
  Nested compound and array datatypes: how their values lie in a buffer, and
  what a client that constrains the arrays inside them is to see.
*/
module CompoundLayout {
  import opened Arith
  import opened Common
  import opened Grid
  import opened Hyperslab
  import opened CFArray

  /** Datatype classes of a leaf; `Other` stands for the classes that are not supported. */
  datatype Kind = Integer(signed: bool) | Float | FixedString | Other

  /** `constraint` is what the request asks of the DAP array that stands for an array datatype. */
  datatype Type =
    | Atom(kind: Kind, size: nat)
    | Compound(size: nat, members: seq<Member>)
    | ArrayOf(base: Type, dims: seq<nat>, constraint: seq<Dim>)

  datatype Member = Member(name: string, offset: nat, ty: Type)

  datatype Value =
    | Bytes(b: seq<byte>)
    | Fields(fs: seq<Value>)
    | Elems(es: seq<Value>)

  function SizeOf(ty: Type): nat
  {
    match ty
    case Atom(_, size) => size
    case Compound(size, _) => size
    case ArrayOf(base, dims, _) => Times(Product(dims), SizeOf(base))
  }

  ghost predicate Apart(a: Member, b: Member)
  {
    a.offset + SizeOf(a.ty) <= b.offset || b.offset + SizeOf(b.ty) <= a.offset
  }

  /** Members lie inside their compound and do not overlap; array datatypes have at least one element. */
  ghost predicate WellFormed(ty: Type)
  {
    match ty
    case Atom(_, size) => 1 <= size
    case Compound(size, members) =>
      && 1 <= size
      && (forall i :: 0 <= i < |members| ==> members[i].offset + SizeOf(members[i].ty) <= size && WellFormed(members[i].ty))
      && (forall i, j :: 0 <= i < j < |members| ==> Apart(members[i], members[j]))
    case ArrayOf(base, dims, constraint) =>
      && dims != [] && (forall i :: 0 <= i < |dims| ==> 1 <= dims[i])
      && OnArray(constraint, dims) && WellFormed(base)
  }

  ghost predicate Typed(ty: Type, v: Value)
  {
    match ty
    case Atom(_, size) => v.Bytes? && |v.b| == size
    case Compound(_, members) =>
      v.Fields? && |v.fs| == |members| && forall i :: 0 <= i < |members| ==> Typed(members[i].ty, v.fs[i])
    case ArrayOf(base, dims, _) =>
      v.Elems? && |v.es| == Product(dims) && forall i :: 0 <= i < |v.es| ==> Typed(base, v.es[i])
  }

  // ----- layout

  ghost predicate Holds(buf: seq<byte>, off: nat, ty: Type)
  {
    off + SizeOf(ty) <= |buf|
  }

  lemma MemberHolds(buf: seq<byte>, off: nat, ty: Type, i: nat)
    requires WellFormed(ty) && ty.Compound? && i < |ty.members| && Holds(buf, off, ty)
    ensures WellFormed(ty.members[i].ty) && ty.members[i].offset + SizeOf(ty.members[i].ty) <= SizeOf(ty)
    ensures Holds(buf, off + ty.members[i].offset, ty.members[i].ty)
  {
  }

  lemma MembersApart(ty: Type, i: nat, j: nat)
    requires WellFormed(ty) && ty.Compound? && i < j < |ty.members|
    ensures Apart(ty.members[i], ty.members[j])
  {
  }

  lemma MemberTyped(ty: Type, v: Value, i: nat)
    requires Typed(ty, v) && ty.Compound? && i < |ty.members|
    ensures v.Fields? && i < |v.fs| && Typed(ty.members[i].ty, v.fs[i])
  {
  }

  lemma ElementTyped(ty: Type, v: Value, k: nat)
    requires Typed(ty, v) && ty.ArrayOf? && k < Product(ty.dims)
    ensures v.Elems? && k < |v.es| && Typed(ty.base, v.es[k])
  {
  }

  lemma ElementHolds(buf: seq<byte>, off: nat, ty: Type, k: nat)
    requires WellFormed(ty) && ty.ArrayOf? && k < Product(ty.dims) && Holds(buf, off, ty)
    ensures WellFormed(ty.base) && Times(k, SizeOf(ty.base)) + SizeOf(ty.base) <= SizeOf(ty)
    ensures Holds(buf, off + Times(k, SizeOf(ty.base)), ty.base)
  {
    TimesMonotone(k, Product(ty.dims), SizeOf(ty.base));
  }

  /** The value that lies at `off`: members at their offsets, array elements one after the other. */
  function ValueAt(ty: Type, buf: seq<byte>, off: nat): (v: Value)
    requires WellFormed(ty) && Holds(buf, off, ty)
    ensures Typed(ty, v)
    decreases ty
  {
    match ty
    case Atom(_, size) => Bytes(buf[off..off + size])
    case Compound(_, _) => Fields(MembersAt(ty, buf, off))
    case ArrayOf(_, _, _) => Elems(ElementsAt(ty, buf, off))
  }

  function MembersAt(ty: Type, buf: seq<byte>, off: nat): (fs: seq<Value>)
    requires WellFormed(ty) && Holds(buf, off, ty) && ty.Compound?
    ensures |fs| == |ty.members| && forall i :: 0 <= i < |fs| ==> Typed(ty.members[i].ty, fs[i])
    decreases ty, 0
  {
    seq(|ty.members|, i requires 0 <= i < |ty.members| =>
      MemberHolds(buf, off, ty, i);
      ValueAt(ty.members[i].ty, buf, off + ty.members[i].offset))
  }

  function ElementsAt(ty: Type, buf: seq<byte>, off: nat): (es: seq<Value>)
    requires WellFormed(ty) && Holds(buf, off, ty) && ty.ArrayOf?
    ensures |es| == Product(ty.dims) && forall k :: 0 <= k < |es| ==> Typed(ty.base, es[k])
    decreases ty, 0
  {
    seq(Product(ty.dims), k requires 0 <= k < Product(ty.dims) =>
      ElementHolds(buf, off, ty, k);
      ValueAt(ty.base, buf, off + Times(k, SizeOf(ty.base))))
  }

  /** `a` with `b` written over it at `off`. */
  function Overwrite(a: seq<byte>, off: nat, b: seq<byte>): (r: seq<byte>)
    requires off + |b| <= |a|
    ensures |r| == |a|
    ensures forall i :: 0 <= i < |a| ==> r[i] == if off <= i < off + |b| then b[i - off] else a[i]
  {
    a[..off] + b + a[off + |b|..]
  }

  /** Lays out a value at `off`; whatever lies between the members stays as it was. */
  function Write(ty: Type, v: Value, buf: seq<byte>, off: nat): (r: seq<byte>)
    requires WellFormed(ty) && Typed(ty, v) && Holds(buf, off, ty)
    ensures |r| == |buf|
    decreases ty
  {
    match ty
    case Atom(_, _) => Overwrite(buf, off, v.b)
    case Compound(_, members) => WriteMembers(ty, v, buf, off, |members|)
    case ArrayOf(_, dims, _) => WriteElems(ty, v, buf, off, Product(dims))
  }

  /** The first `n` members. */
  function WriteMembers(ty: Type, v: Value, buf: seq<byte>, off: nat, n: nat): (r: seq<byte>)
    requires WellFormed(ty) && Typed(ty, v) && Holds(buf, off, ty) && ty.Compound? && n <= |ty.members|
    ensures |r| == |buf|
    decreases ty, n
  {
    if n == 0 then buf
    else
      var m := ty.members[n - 1];
      Write(m.ty, v.fs[n - 1], WriteMembers(ty, v, buf, off, n - 1), off + m.offset)
  }

  /** The first `n` elements. */
  function WriteElems(ty: Type, v: Value, buf: seq<byte>, off: nat, n: nat): (r: seq<byte>)
    requires WellFormed(ty) && Typed(ty, v) && Holds(buf, off, ty) && ty.ArrayOf? && n <= Product(ty.dims)
    ensures |r| == |buf|
    decreases ty, n
  {
    if n == 0 then buf
    else
      ElementHolds(buf, off, ty, n - 1);
      Write(ty.base, v.es[n - 1], WriteElems(ty, v, buf, off, n - 1), off + Times(n - 1, SizeOf(ty.base)))
  }

  // ----- writing and reading back

  ghost predicate SameOutside(a: seq<byte>, b: seq<byte>, lo: nat, hi: nat)
  {
    |a| == |b| && forall i :: 0 <= i < |a| && !(lo <= i < hi) ==> a[i] == b[i]
  }

  ghost predicate SameInside(a: seq<byte>, b: seq<byte>, lo: nat, hi: nat)
  {
    |a| == |b| && hi <= |a| && forall i :: lo <= i < hi ==> a[i] == b[i]
  }

  lemma {:induction false} WriteStaysInside(ty: Type, v: Value, buf: seq<byte>, off: nat)
    requires WellFormed(ty) && Typed(ty, v) && Holds(buf, off, ty)
    ensures SameOutside(Write(ty, v, buf, off), buf, off, off + SizeOf(ty))
    decreases ty
  {
    match ty
    case Atom(_, _) =>
    case Compound(_, members) => MembersStayInside(ty, v, buf, off, |members|);
    case ArrayOf(_, dims, _) => ElemsStayInside(ty, v, buf, off, Product(dims));
  }

  lemma {:induction false} MembersStayInside(ty: Type, v: Value, buf: seq<byte>, off: nat, n: nat)
    requires WellFormed(ty) && Typed(ty, v) && Holds(buf, off, ty) && ty.Compound? && n <= |ty.members|
    ensures SameOutside(WriteMembers(ty, v, buf, off, n), buf, off, off + SizeOf(ty))
    decreases ty, n
  {
    if n != 0 {
      var m := ty.members[n - 1];
      MembersStayInside(ty, v, buf, off, n - 1);
      WriteStaysInside(m.ty, v.fs[n - 1], WriteMembers(ty, v, buf, off, n - 1), off + m.offset);
    }
  }

  lemma {:induction false} ElemsStayInside(ty: Type, v: Value, buf: seq<byte>, off: nat, n: nat)
    requires WellFormed(ty) && Typed(ty, v) && Holds(buf, off, ty) && ty.ArrayOf? && n <= Product(ty.dims)
    ensures SameOutside(WriteElems(ty, v, buf, off, n), buf, off, off + SizeOf(ty))
    decreases ty, n
  {
    if n != 0 {
      ElemsStayInside(ty, v, buf, off, n - 1);
      ElementHolds(buf, off, ty, n - 1);
      WriteStaysInside(ty.base, v.es[n - 1], WriteElems(ty, v, buf, off, n - 1), off + Times(n - 1, SizeOf(ty.base)));
    }
  }

  /** The value at `off` depends on its own bytes only. */
  lemma {:induction false} ValueAtLocal(ty: Type, a: seq<byte>, b: seq<byte>, off: nat)
    requires WellFormed(ty) && Holds(a, off, ty) && SameInside(a, b, off, off + SizeOf(ty))
    ensures ValueAt(ty, a, off) == ValueAt(ty, b, off)
    decreases ty
  {
    match ty
    case Atom(_, size) =>
      assert a[off..off + size] == b[off..off + size];
    case Compound(_, _) => CompoundLocal(ty, a, b, off);
    case ArrayOf(_, _, _) => ArrayLocal(ty, a, b, off);
  }

  lemma {:induction false} CompoundLocal(ty: Type, a: seq<byte>, b: seq<byte>, off: nat)
    requires WellFormed(ty) && Holds(a, off, ty) && SameInside(a, b, off, off + SizeOf(ty)) && ty.Compound?
    ensures ValueAt(ty, a, off) == ValueAt(ty, b, off)
    decreases ty, 1
  {
    hide WellFormed, SizeOf;
    forall i | 0 <= i < |ty.members|
      ensures ValueAt(ty, a, off).fs[i] == ValueAt(ty, b, off).fs[i]
    {
      MemberLocal(ty, a, b, off, i, ty.members[i]);
    }
  }

  lemma {:induction false} ArrayLocal(ty: Type, a: seq<byte>, b: seq<byte>, off: nat)
    requires WellFormed(ty) && Holds(a, off, ty) && SameInside(a, b, off, off + SizeOf(ty)) && ty.ArrayOf?
    ensures ValueAt(ty, a, off) == ValueAt(ty, b, off)
    decreases ty, 1
  {
    hide WellFormed, SizeOf, Product, Times;
    forall k | 0 <= k < Product(ty.dims)
      ensures ValueAt(ty, a, off).es[k] == ValueAt(ty, b, off).es[k]
    {
      ElemLocal(ty, a, b, off, k, off + Times(k, SizeOf(ty.base)));
    }
  }

  lemma {:induction false} MemberLocal(ty: Type, a: seq<byte>, b: seq<byte>, off: nat, i: nat, m: Member)
    requires WellFormed(ty) && Holds(a, off, ty) && SameInside(a, b, off, off + SizeOf(ty))
    requires ty.Compound? && i < |ty.members| && m == ty.members[i]
    ensures WellFormed(m.ty) && Holds(a, off + m.offset, m.ty)
    ensures ValueAt(m.ty, a, off + m.offset) == ValueAt(m.ty, b, off + m.offset)
    decreases ty, 0
  {
    hide WellFormed, ValueAt, SizeOf;
    MemberHolds(a, off, ty, i);
    ValueAtLocal(m.ty, a, b, off + m.offset);
  }

  lemma {:induction false} ElemLocal(ty: Type, a: seq<byte>, b: seq<byte>, off: nat, k: nat, at: nat)
    requires WellFormed(ty) && Holds(a, off, ty) && SameInside(a, b, off, off + SizeOf(ty))
    requires ty.ArrayOf? && k < Product(ty.dims) && at == off + Times(k, SizeOf(ty.base))
    ensures WellFormed(ty.base) && Holds(a, at, ty.base)
    ensures ValueAt(ty.base, a, at) == ValueAt(ty.base, b, at)
    decreases ty, 0
  {
    hide WellFormed, ValueAt, SizeOf, Product, Times;
    ElementHolds(a, off, ty, k);
    ValueAtLocal(ty.base, a, b, at);
  }

  /** Reading the layout of a value gives back the value. */
  lemma {:induction false} WriteRead(ty: Type, v: Value, buf: seq<byte>, off: nat)
    requires WellFormed(ty) && Typed(ty, v) && Holds(buf, off, ty)
    ensures ValueAt(ty, Write(ty, v, buf, off), off) == v
    decreases ty
  {
    match ty
    case Atom(_, size) =>
      assert Overwrite(buf, off, v.b)[off..off + size] == v.b;
    case Compound(_, _) => CompoundReadBack(ty, v, buf, off);
    case ArrayOf(_, _, _) => ArrayReadBack(ty, v, buf, off);
  }

  lemma {:induction false} CompoundReadBack(ty: Type, v: Value, buf: seq<byte>, off: nat)
    requires WellFormed(ty) && Typed(ty, v) && Holds(buf, off, ty) && ty.Compound?
    ensures ValueAt(ty, WriteMembers(ty, v, buf, off, |ty.members|), off) == v
    decreases ty, |ty.members| + 1
  {
    hide WriteMembers, Write, SizeOf, WellFormed;
    var r := WriteMembers(ty, v, buf, off, |ty.members|);
    forall i | 0 <= i < |ty.members|
      ensures ValueAt(ty, r, off).fs[i] == v.fs[i]
    {
      MemberReadBack(ty, v, buf, off, |ty.members|, i, ty.members[i]);
    }
  }

  lemma {:induction false} ArrayReadBack(ty: Type, v: Value, buf: seq<byte>, off: nat)
    requires WellFormed(ty) && Typed(ty, v) && Holds(buf, off, ty) && ty.ArrayOf?
    ensures ValueAt(ty, WriteElems(ty, v, buf, off, Product(ty.dims)), off) == v
    decreases ty, Product(ty.dims) + 1
  {
    hide WriteElems, Write, SizeOf, WellFormed, Product, Times;
    var r := WriteElems(ty, v, buf, off, Product(ty.dims));
    forall k | 0 <= k < Product(ty.dims)
      ensures ValueAt(ty, r, off).es[k] == v.es[k]
    {
      ElemReadBack(ty, v, buf, off, Product(ty.dims), k, off + Times(k, SizeOf(ty.base)));
    }
  }

  lemma {:induction false} MemberReadBack(ty: Type, v: Value, buf: seq<byte>, off: nat, n: nat, i: nat, mi: Member)
    requires WellFormed(ty) && Typed(ty, v) && Holds(buf, off, ty) && ty.Compound? && i < n <= |ty.members|
    requires mi == ty.members[i]
    ensures WellFormed(mi.ty) && Holds(buf, off + mi.offset, mi.ty) && v.Fields? && i < |v.fs|
    ensures ValueAt(mi.ty, WriteMembers(ty, v, buf, off, n), off + mi.offset) == v.fs[i]
    decreases ty, n
  {
    hide WellFormed, Typed, ValueAt, Write, SizeOf;
    var m, before := ty.members[n - 1], WriteMembers(ty, v, buf, off, n - 1);
    MemberHolds(buf, off, ty, i);
    MemberHolds(buf, off, ty, n - 1);
    MemberTyped(ty, v, i);
    MemberTyped(ty, v, n - 1);
    if i == n - 1 {
      WriteRead(m.ty, v.fs[n - 1], before, off + m.offset);
    } else {
      MemberReadBack(ty, v, buf, off, n - 1, i, mi);
      WriteStaysInside(m.ty, v.fs[n - 1], before, off + m.offset);
      MembersApart(ty, i, n - 1);
      ValueAtLocal(mi.ty, before, WriteMembers(ty, v, buf, off, n), off + mi.offset);
    }
  }

  lemma {:induction false} ElemReadBack(ty: Type, v: Value, buf: seq<byte>, off: nat, n: nat, k: nat, at: nat)
    requires WellFormed(ty) && Typed(ty, v) && Holds(buf, off, ty) && ty.ArrayOf? && k < n <= Product(ty.dims)
    requires at == off + Times(k, SizeOf(ty.base))
    ensures WellFormed(ty.base) && Holds(buf, at, ty.base) && v.Elems? && k < |v.es|
    ensures ValueAt(ty.base, WriteElems(ty, v, buf, off, n), at) == v.es[k]
    decreases ty, n
  {
    hide WellFormed, Typed, ValueAt, Write, SizeOf, Product, Times;
    var w, before := SizeOf(ty.base), WriteElems(ty, v, buf, off, n - 1);
    ElementHolds(buf, off, ty, k);
    ElementHolds(buf, off, ty, n - 1);
    ElementTyped(ty, v, k);
    ElementTyped(ty, v, n - 1);
    if k == n - 1 {
      WriteRead(ty.base, v.es[n - 1], before, at);
    } else {
      ElemReadBack(ty, v, buf, off, n - 1, k, at);
      WriteStaysInside(ty.base, v.es[n - 1], before, off + Times(n - 1, w));
      TimesMonotone(k, n - 1, w);
      ValueAtLocal(ty.base, before, WriteElems(ty, v, buf, off, n), at);
    }
  }
}
