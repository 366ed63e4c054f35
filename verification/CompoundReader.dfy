/**
  The decoder of nested compound and array datatypes. It recurses through the
  type, adding member offsets and element strides by hand, and reads only the
  array elements that the request selects.
*/
module CompoundReader {
  import opened Arith
  import opened Common
  import opened Cells
  import opened Grid
  import opened Hyperslab
  import opened Enumerate
  import opened CFArray
  import opened CompoundLayout

  // ----- leaves and their DAP types

  datatype DapType =
    | Int8 | UInt8 | Int16 | UInt16 | Int32 | UInt32 | Int64 | UInt64 | IntElse
    | Float32 | Float64 | FloatElse

  /** The DAP type of a number. DAP2 knows no signed byte and no 64-bit integers. */
  function GetDapType(kind: Kind, size: nat, dap4: bool): DapType
    requires kind.Integer? || kind.Float?
  {
    match kind
    case Integer(signed) =>
      if size == 1 then if !signed then UInt8 else if dap4 then Int8 else Int16
      else if size == 2 then if signed then Int16 else UInt16
      else if size == 4 then if signed then Int32 else UInt32
      else if size == 8 && dap4 then if signed then Int64 else UInt64
      else IntElse
    case Float => if size == 4 then Float32 else if size == 8 then Float64 else FloatElse
  }

  /** A signed char. It is promoted whatever the protocol; DAP4 then keeps only the low byte. */
  predicate PromoteCharToShort(kind: Kind, size: nat)
  {
    kind == Integer(true) && size == 1
  }

  /** The numbers that can be selected from an array: the branches of the reader, by DAP type. */
  predicate Subsettable(kind: Kind, size: nat, dap4: bool): (b: bool)
    requires kind.Integer? || kind.Float?
    ensures b <==> match kind
                   case Integer(signed) => size == 2 || size == 4 || (size == 1 && (signed ==> !dap4))
                   case Float => size == 4 || size == 8
  {
    GetDapType(kind, size, dap4) in {UInt8, Int16, UInt16, UInt32, Int32, Float32, Float64}
  }

  /** A leaf as it is sent. */
  function Sent(kind: Kind, c: Cell, dap4: bool): Value
    requires 1 <= |c|
  {
    Bytes(if PromoteCharToShort(kind, |c|) && !dap4 then Short(c[0]) else c)
  }

  // ----- what the client is to see

  ghost predicate AllLegal(ty: Type)
  {
    match ty
    case Atom(_, _) => true
    case Compound(_, members) => forall i :: 0 <= i < |members| ==> AllLegal(members[i].ty)
    case ArrayOf(base, _, constraint) => Legal(constraint) && AllLegal(base)
  }

  function ArraySlab(ty: Type): (s: Slab)
    requires WellFormed(ty) && ty.ArrayOf? && Legal(ty.constraint)
    ensures SlabOf(ty.constraint, s) && Fits(s, ty.dims)
  {
    LegalFits(ty.constraint, SlabFor(ty.constraint));
    SlabFor(ty.constraint)
  }

  /** Every array restricted to its own hyperslab, every signed char promoted where the protocol has none. */
  function Project(ty: Type, v: Value, dap4: bool): Value
    requires WellFormed(ty) && AllLegal(ty) && Typed(ty, v)
    decreases ty
  {
    match ty
    case Atom(kind, _) => Sent(kind, v.b, dap4)
    case Compound(_, members) =>
      Fields(seq(|members|, i requires 0 <= i < |members| => Project(members[i].ty, v.fs[i], dap4)))
    case ArrayOf(base, dims, _) =>
      var s := ArraySlab(ty);
      FitsCovers(v.es, s, dims);
      Elems(seq(Product(s.count), j requires 0 <= j < Product(s.count) => Project(base, v.es[SelectedIndex(s, dims, j)], dap4)))
  }

  /**
    What the decoder supports. A string that is a member of an array element
    and a fully selected array of signed chars are read through objects of the
    wrong type or size; a proper selection from an array is possible for some
    numbers only; array datatypes of arrays are rejected.
  */
  ghost predicate Readable(ty: Type, inElement: bool, dap4: bool)
    decreases ty, 1
  {
    match ty
    case Atom(kind, _) => kind.Integer? || kind.Float? || (kind == FixedString && !inElement)
    case Compound(_, members) => MembersReadable(ty, false, dap4)
    case ArrayOf(base, dims, constraint) =>
      && Legal(constraint)
      && match base
         case Atom(kind, _) => AtomsReadable(ty, dap4)
         case Compound(_, members) => MembersReadable(base, true, dap4)
         case ArrayOf(_, _, _) => false
  }

  ghost predicate MembersReadable(ty: Type, inElement: bool, dap4: bool)
    requires ty.Compound?
    decreases ty, 0
  {
    forall i :: 0 <= i < |ty.members| ==> Readable(ty.members[i].ty, inElement, dap4)
  }

  /** An array of leaves: strings always; all numbers but signed chars as a whole, fewer of them in part. */
  ghost predicate AtomsReadable(ty: Type, dap4: bool)
    requires ty.ArrayOf? && ty.base.Atom?
  {
    match ty.base.kind
    case FixedString => true
    case Other => false
    case _ =>
      if SelectsAll(ty) then !PromoteCharToShort(ty.base.kind, ty.base.size)
      else Subsettable(ty.base.kind, ty.base.size, dap4)
  }

  ghost predicate SelectsAll(ty: Type)
    requires ty.ArrayOf?
  {
    WellFormed(ty) && Legal(ty.constraint) && Product(ArraySlab(ty).count) == Product(ty.dims)
  }

  lemma {:induction false} ReadableIsLegal(ty: Type, inElement: bool, dap4: bool)
    requires Readable(ty, inElement, dap4)
    ensures AllLegal(ty)
    decreases ty, 1
  {
    match ty
    case Atom(_, _) =>
    case Compound(_, members) => MembersLegal(ty, false, dap4);
    case ArrayOf(base, _, _) =>
      if base.Compound? {
        MembersLegal(base, true, dap4);
      }
  }

  lemma {:induction false} MembersLegal(ty: Type, inElement: bool, dap4: bool)
    requires ty.Compound? && MembersReadable(ty, inElement, dap4)
    ensures AllLegal(ty)
    decreases ty, 0
  {
    forall i | 0 <= i < |ty.members|
      ensures AllLegal(ty.members[i].ty)
    {
      ReadableIsLegal(ty.members[i].ty, inElement, dap4);
    }
  }

  /** What is to be seen of the value stored at `off`. */
  function Seen(ty: Type, buf: seq<byte>, off: nat, dap4: bool): Value
    requires WellFormed(ty) && AllLegal(ty) && Holds(buf, off, ty)
  {
    Project(ty, ValueAt(ty, buf, off), dap4)
  }

  /** What is seen of a laid out value is its projection: with the decoder's contracts, decoding inverts the layout. */
  lemma SeenOfLayout(ty: Type, v: Value, buf: seq<byte>, off: nat, dap4: bool)
    requires WellFormed(ty) && AllLegal(ty) && Typed(ty, v) && Holds(buf, off, ty)
    ensures Seen(ty, Write(ty, v, buf, off), off, dap4) == Project(ty, v, dap4)
  {
    WriteRead(ty, v, buf, off);
  }

  lemma StoredMember(ty: Type, buf: seq<byte>, off: nat, i: nat)
    requires WellFormed(ty) && Holds(buf, off, ty) && ty.Compound? && i < |ty.members|
    ensures WellFormed(ty.members[i].ty) && Holds(buf, off + ty.members[i].offset, ty.members[i].ty)
    ensures ValueAt(ty, buf, off).Fields? && |ValueAt(ty, buf, off).fs| == |ty.members|
    ensures ValueAt(ty, buf, off).fs[i] == ValueAt(ty.members[i].ty, buf, off + ty.members[i].offset)
  {
    MemberHolds(buf, off, ty, i);
    hide SizeOf, WellFormed, Typed, Holds;
    assert ValueAt(ty, buf, off).fs == MembersAt(ty, buf, off);
  }

  lemma SeenMember(ty: Type, buf: seq<byte>, off: nat, i: nat, dap4: bool)
    requires WellFormed(ty) && AllLegal(ty) && Holds(buf, off, ty) && ty.Compound? && i < |ty.members|
    ensures WellFormed(ty.members[i].ty) && AllLegal(ty.members[i].ty) && Holds(buf, off + ty.members[i].offset, ty.members[i].ty)
    ensures Seen(ty, buf, off, dap4).Fields? && |Seen(ty, buf, off, dap4).fs| == |ty.members|
    ensures Seen(ty, buf, off, dap4).fs[i] == Seen(ty.members[i].ty, buf, off + ty.members[i].offset, dap4)
  {
    StoredMember(ty, buf, off, i);
    hide SizeOf, WellFormed, Typed, Holds, Product, Times, ValueAt;
  }

  lemma ProjectElement(ty: Type, v: Value, s: Slab, j: nat, k: nat, dap4: bool)
    requires WellFormed(ty) && AllLegal(ty) && Typed(ty, v) && ty.ArrayOf? && s == ArraySlab(ty)
    requires j < Product(s.count) && k == SelectedIndex(s, ty.dims, j) && k < Product(ty.dims)
    ensures Project(ty, v, dap4).Elems? && |Project(ty, v, dap4).es| == Product(s.count)
    ensures Project(ty, v, dap4).es[j] == Project(ty.base, v.es[k], dap4)
  {
    hide Product, SelectedIndex, Unrank, Linear;
  }

  lemma StoredElement(ty: Type, buf: seq<byte>, off: nat, k: nat, at: nat)
    requires WellFormed(ty) && Holds(buf, off, ty) && ty.ArrayOf? && k < Product(ty.dims)
    requires at == off + Times(k, SizeOf(ty.base)) && WellFormed(ty.base) && Holds(buf, at, ty.base)
    ensures ValueAt(ty, buf, off).Elems? && |ValueAt(ty, buf, off).es| == Product(ty.dims)
    ensures ValueAt(ty, buf, off).es[k] == ValueAt(ty.base, buf, at)
  {
    hide Product, Times, SizeOf, WellFormed, Typed;
  }

  lemma SeenElement(ty: Type, buf: seq<byte>, off: nat, s: Slab, j: nat, k: nat, at: nat, dap4: bool)
    requires WellFormed(ty) && AllLegal(ty) && Holds(buf, off, ty) && ty.ArrayOf? && s == ArraySlab(ty)
    requires j < Product(s.count) && k == SelectedIndex(s, ty.dims, j) && at == off + Times(k, SizeOf(ty.base))
    ensures WellFormed(ty.base) && AllLegal(ty.base) && k < Product(ty.dims) && Holds(buf, at, ty.base)
    ensures Seen(ty, buf, off, dap4).Elems? && |Seen(ty, buf, off, dap4).es| == Product(s.count)
    ensures Seen(ty, buf, off, dap4).es[j] == Seen(ty.base, buf, at, dap4)
  {
    SelectedInRange(s, ty.dims, j);
    LinearBound(ty.dims, SelectedPos(s, j));
    ElementHolds(buf, off, ty, k);
    hide Product, Project, ValueAt, Linear, Times, SelectedPos;
    StoredElement(ty, buf, off, k, at);
    ProjectElement(ty, ValueAt(ty, buf, off), s, j, k, dap4);
  }

  // ----- what can be read and what is seen, case by case

  /** Numbers of any size, signed chars excepted. */
  predicate PlainNumber(kind: Kind, size: nat)
  {
    kind == Float || kind == Integer(false) || (kind == Integer(true) && size != 1)
  }

  /** The request asks for as many steps along each dimension as there are coordinates. */
  predicate AsksForAll(constraint: seq<Dim>, dims: seq<nat>)
  {
    && |constraint| == |dims|
    && forall i :: 0 <= i < |dims| ==>
         && 1 <= constraint[i].stride && constraint[i].start <= constraint[i].stop
         && (constraint[i].stop - constraint[i].start) / constraint[i].stride + 1 == dims[i]
  }

  /** Plain numbers, compounds of such, and arrays of both that are asked for as a whole. */
  ghost predicate PlainWhole(ty: Type)
  {
    match ty
    case Atom(kind, size) => PlainNumber(kind, size)
    case Compound(_, members) => forall i :: 0 <= i < |members| ==> PlainWhole(members[i].ty)
    case ArrayOf(base, dims, constraint) => !base.ArrayOf? && AsksForAll(constraint, dims) && PlainWhole(base)
  }

  lemma {:induction false} ProductStrict(a: seq<nat>, b: seq<nat>)
    requires |a| == |b| && forall i :: 0 <= i < |a| ==> 1 <= a[i] <= b[i]
    ensures Product(a) == Product(b) <==> a == b
  {
    if a != [] {
      ProductStrict(a[1..], b[1..]);
      ProductMonotone(a[1..], b[1..]);
      ProductPositive(a[1..]);
      ProductPositive(b[1..]);
      StrictFactors(a[0], b[0], Product(a[1..]), Product(b[1..]));
      assert a == [a[0]] + a[1..] && b == [b[0]] + b[1..];
    }
  }

  lemma StrictFactors(a: nat, b: nat, p: nat, q: nat)
    requires 1 <= a <= b && 1 <= p <= q
    ensures Times(a, p) == Times(b, q) <==> a == b && p == q
  {
    TimesMonotone(a, b, p);
    TimesMonotoneRight(b, p, q);
    if p < q {
      TimesAddRight(b, p, q - p);
      TimesPositive(b, q - p);
    }
  }

  /** Everything is selected exactly if that is what is asked for. */
  lemma SelectsAllIff(ty: Type)
    requires WellFormed(ty) && ty.ArrayOf? && Legal(ty.constraint)
    ensures SelectsAll(ty) <==> AsksForAll(ty.constraint, ty.dims)
  {
    var s := ArraySlab(ty);
    LegalFits(ty.constraint, s);
    forall i | 0 <= i < |ty.dims|
      ensures s.count[i] == (ty.constraint[i].stop - ty.constraint[i].start) / ty.constraint[i].stride + 1
    {
      QuotientCounts(ty.constraint[i]);
      CountUnique(ty.constraint[i], s.count[i], (ty.constraint[i].stop - ty.constraint[i].start) / ty.constraint[i].stride + 1);
    }
    ProductStrict(s.count, ty.dims);
  }

  lemma WholeInOrder(ty: Type)
    requires WellFormed(ty) && ty.ArrayOf? && AsksForAll(ty.constraint, ty.dims)
    ensures Legal(ty.constraint) && SelectsAll(ty) && Product(ArraySlab(ty).count) == Product(ty.dims)
    ensures forall j :: 0 <= j < Product(ty.dims) ==> SelectedIndex(ArraySlab(ty), ty.dims, j) == j
  {
    SelectsAllIff(ty);
    FullCountIsWholeArray(seq(Product(ty.dims), i => 0), ArraySlab(ty), ty.dims);
  }

  /** What can be read, by the kind of the type. */
  lemma ReadableParts(ty: Type, inElement: bool, dap4: bool)
    requires WellFormed(ty)
    ensures ty.Atom? ==> (Readable(ty, inElement, dap4) <==> ty.kind != Other && !(ty.kind == FixedString && inElement))
    ensures ty.Compound? ==>
              (Readable(ty, inElement, dap4) <==> forall i :: 0 <= i < |ty.members| ==> Readable(ty.members[i].ty, false, dap4))
    ensures ty.ArrayOf? && ty.base.Compound? ==>
              (Readable(ty, inElement, dap4) <==>
               Legal(ty.constraint) && forall i :: 0 <= i < |ty.base.members| ==> Readable(ty.base.members[i].ty, true, dap4))
    ensures ty.ArrayOf? && ty.base.ArrayOf? ==> !Readable(ty, inElement, dap4)
    ensures ty.ArrayOf? && ty.base.Atom? ==>
              (Readable(ty, inElement, dap4) <==>
               Legal(ty.constraint)
               && match ty.base.kind
                  case Integer(signed) =>
                    if AsksForAll(ty.constraint, ty.dims) then !(signed && ty.base.size == 1)
                    else ty.base.size == 2 || ty.base.size == 4 || (ty.base.size == 1 && !(signed && dap4))
                  case Float => AsksForAll(ty.constraint, ty.dims) || ty.base.size == 4 || ty.base.size == 8
                  case FixedString => true
                  case Other => false)
  {
    if ty.ArrayOf? && Legal(ty.constraint) {
      SelectsAllIff(ty);
    }
    hide SelectsAll, AsksForAll;
  }

  /** What is seen of a value, by the kind of the type. */
  lemma ProjectParts(ty: Type, v: Value, dap4: bool)
    requires WellFormed(ty) && AllLegal(ty) && Typed(ty, v)
    ensures ty.Atom? && !(ty.kind == Integer(true) && ty.size == 1) ==> Project(ty, v, dap4) == v
    ensures ty == Atom(Integer(true), 1) ==> Project(ty, v, dap4).Bytes? && SentChar(v.b[0], Project(ty, v, dap4).b, dap4)
    ensures ty.Compound? ==> Project(ty, v, dap4).Fields? && |Project(ty, v, dap4).fs| == |ty.members|
    ensures ty.Compound? ==>
              forall i :: 0 <= i < |ty.members| ==>
                Project(ty, v, dap4).fs[i] == Project(ty.members[i].ty, v.fs[i], dap4)
    ensures ty.ArrayOf? ==>
              var s := ArraySlab(ty);
              && Covers(v.es, s, ty.dims) && Project(ty, v, dap4).Elems? && |Project(ty, v, dap4).es| == Product(s.count)
              && forall j :: 0 <= j < Product(s.count) ==>
                   Project(ty, v, dap4).es[j] == Project(ty.base, v.es[SelectedIndex(s, ty.dims, j)], dap4)
  {
    if ty.ArrayOf? {
      FitsCovers(v.es, ArraySlab(ty), ty.dims);
    }
    hide Product, SelectedIndex, Linear, Unrank, SizeOf;
  }

  /** A signed char: the byte itself under DAP4, under DAP2 a short, its low byte first, of the same value in two's complement. */
  ghost predicate SentChar(stored: byte, sent: seq<byte>, dap4: bool)
  {
    if dap4 then sent == [stored]
    else
      && |sent| == 2
      && sent[0] as int + 256 * sent[1] as int - (if sent[1] < 128 then 0 else 65536)
         == stored as int - (if stored < 128 then 0 else 256)
  }

  lemma {:induction false} PlainWholeReadable(ty: Type, inElement: bool, dap4: bool)
    requires WellFormed(ty) && PlainWhole(ty)
    ensures Readable(ty, inElement, dap4)
    decreases ty, 1
  {
    ReadableParts(ty, inElement, dap4);
    match ty
    case Atom(_, _) =>
    case Compound(_, members) => PlainMembersReadable(ty, false, dap4);
    case ArrayOf(base, _, _) =>
      WholeInOrder(ty);
      if base.Compound? {
        PlainMembersReadable(base, true, dap4);
      }
  }

  lemma {:induction false} PlainMembersReadable(ty: Type, inElement: bool, dap4: bool)
    requires WellFormed(ty) && PlainWhole(ty) && ty.Compound?
    ensures forall i :: 0 <= i < |ty.members| ==> Readable(ty.members[i].ty, inElement, dap4)
    decreases ty, 0
  {
    forall i | 0 <= i < |ty.members|
      ensures Readable(ty.members[i].ty, inElement, dap4)
    {
      PlainWholeReadable(ty.members[i].ty, inElement, dap4);
    }
  }

  /** Plain numbers asked for as a whole are seen as they are. */
  lemma {:induction false} PlainWholeSeen(ty: Type, v: Value, dap4: bool)
    requires WellFormed(ty) && AllLegal(ty) && PlainWhole(ty) && Typed(ty, v)
    ensures Project(ty, v, dap4) == v
    decreases ty
  {
    ProjectParts(ty, v, dap4);
    match ty
    case Atom(_, _) =>
    case Compound(_, members) =>
      forall i | 0 <= i < |members|
        ensures Project(ty, v, dap4).fs[i] == v.fs[i]
      {
        PlainWholeSeen(members[i].ty, v.fs[i], dap4);
      }
      assert Project(ty, v, dap4).fs == v.fs;
    case ArrayOf(base, dims, _) =>
      WholeInOrder(ty);
      hide Product, SelectedIndex, Project, SizeOf;
      forall j | 0 <= j < Product(dims)
        ensures Project(ty, v, dap4).es[j] == v.es[j]
      {
        PlainWholeSeen(base, v.es[j], dap4);
      }
      assert Project(ty, v, dap4).es == v.es;
  }

  // ----- the decoder

  datatype DecodeError = UnsupportedClass | UnsupportedNumber | WrongDestination | BadConstraint(start: nat, stop: nat)

  /** One member of a structure, or one field of an array element. */
  method ReadMember(ty: Type, values: seq<byte>, off: nat, inElement: bool, dap4: bool) returns (r: Result<Value, DecodeError>)
    requires WellFormed(ty) && Holds(values, off, ty)
    ensures r.Ok? <==> Readable(ty, inElement, dap4)
    ensures r.Ok? ==> AllLegal(ty) && r.value == Seen(ty, values, off, dap4)
    decreases ty, 3
  {
    match ty
    case Compound(_, members) =>
      var h5s := new HDF5Structure(ty, dap4);
      var err := h5s.DoStructureRead(values, off);
      if err.Some? {
        return Err(err.value);
      }
      r := Ok(Fields(h5s.fields));
    case ArrayOf(base, dims, constraint) =>
      var atNelms, slab := ConstraintToSlab(constraint);
      if atNelms.MalformedExpr? {
        return Err(DecodeError.BadConstraint(atNelms.start, atNelms.stop));
      }
      SlabUnique(constraint, slab, ArraySlab(ty));
      var h5Array := new HDF5Array(ty, dap4);
      var err := h5Array.DoH5ArrayTypeRead(values, off, atNelms.nelms, slab);
      if err.Some? {
        return Err(err.value);
      }
      r := Ok(Elems(h5Array.vec));
    case Atom(kind, size) =>
      match kind {
        case Integer(_) =>
          if PromoteCharToShort(kind, size) {
            // The field takes as many bytes of the short as it is wide.
            var valShort := Short(values[off]);
            r := Ok(Bytes(valShort[..if dap4 then 1 else 2]));
            assert values[off..off + size] == [values[off]];
          } else {
            r := Ok(Bytes(values[off..off + size]));
          }
        case Float => r := Ok(Bytes(values[off..off + size]));
        case FixedString =>
          if inElement {
            return Err(WrongDestination);
          }
          r := Ok(Bytes(values[off..off + size]));
        case Other => r := Err(UnsupportedClass);
      }
  }

  class HDF5Structure {
    const ty: Type
    const dap4: bool
    var fields: seq<Value>

    constructor (ty: Type, dap4: bool)
      requires ty.Compound?
      ensures this.ty == ty && this.dap4 == dap4 && |fields| == |ty.members|
    {
      this.ty, this.dap4 := ty, dap4;
      fields := seq(|ty.members|, i => Fields([]));
    }

    /** Fills the fields from the element that starts at `off`. */
    method ReadMembers(values: seq<byte>, off: nat, inElement: bool) returns (err: Option<DecodeError>)
      requires ty.Compound? && WellFormed(ty) && Holds(values, off, ty) && |fields| == |ty.members|
      modifies this
      ensures err == None <==> MembersReadable(ty, inElement, dap4)
      ensures err == None ==> AllLegal(ty) && Fields(fields) == Seen(ty, values, off, dap4)
      decreases ty, 1
    {
      hide WellFormed, SizeOf, AllLegal, Seen, Readable, Holds, FieldSeen;
      var u := 0;
      while u < |ty.members|
        invariant 0 <= u <= |ty.members| && |fields| == |ty.members|
        invariant forall i :: 0 <= i < u ==> Readable(ty.members[i].ty, inElement, dap4)
        invariant forall i :: 0 <= i < u ==> FieldSeen(ty.members[i], values, off, fields[i], dap4)
      {
        MemberHolds(values, off, ty, u);
        var field := ReadMember(ty.members[u].ty, values, ty.members[u].offset + off, inElement, dap4);
        if field.Err? {
          return Some(field.error);
        }
        OneFieldSeen(ty.members[u], values, off, field.value, dap4);
        fields := fields[u := field.value];
        u := u + 1;
      }
      MembersLegal(ty, inElement, dap4);
      FieldsSeen(ty, values, off, fields, dap4);
      err := None;
    }

    method DoStructureRead(values: seq<byte>, valuesOffset: nat) returns (err: Option<DecodeError>)
      requires ty.Compound? && WellFormed(ty) && Holds(values, valuesOffset, ty) && |fields| == |ty.members|
      modifies this
      ensures err == None <==> Readable(ty, false, dap4)
      ensures err == None ==> AllLegal(ty) && Fields(fields) == Seen(ty, values, valuesOffset, dap4)
      decreases ty, 2
    {
      err := ReadMembers(values, valuesOffset, false);
    }
  }

  ghost predicate FieldSeen(m: Member, buf: seq<byte>, off: nat, v: Value, dap4: bool)
  {
    WellFormed(m.ty) && AllLegal(m.ty) && Holds(buf, off + m.offset, m.ty) && v == Seen(m.ty, buf, off + m.offset, dap4)
  }

  lemma OneFieldSeen(m: Member, buf: seq<byte>, off: nat, v: Value, dap4: bool)
    requires WellFormed(m.ty) && AllLegal(m.ty) && Holds(buf, off + m.offset, m.ty) && v == Seen(m.ty, buf, off + m.offset, dap4)
    ensures FieldSeen(m, buf, off, v, dap4)
  {
  }

  lemma FieldsSeen(ty: Type, buf: seq<byte>, off: nat, fields: seq<Value>, dap4: bool)
    requires WellFormed(ty) && AllLegal(ty) && Holds(buf, off, ty) && ty.Compound? && |fields| == |ty.members|
    requires forall i :: 0 <= i < |fields| ==> FieldSeen(ty.members[i], buf, off, fields[i], dap4)
    ensures Fields(fields) == Seen(ty, buf, off, dap4)
  {
    SeenFields(ty, buf, off, dap4);
    hide WellFormed, SizeOf, AllLegal, Seen, Holds;
    forall i | 0 <= i < |fields|
      ensures fields[i] == Seen(ty, buf, off, dap4).fs[i]
    {
      SeenMember(ty, buf, off, i, dap4);
    }
  }

  lemma SeenFields(ty: Type, buf: seq<byte>, off: nat, dap4: bool)
    requires WellFormed(ty) && AllLegal(ty) && Holds(buf, off, ty) && ty.Compound?
    ensures Seen(ty, buf, off, dap4).Fields? && |Seen(ty, buf, off, dap4).fs| == |ty.members|
  {
    hide WellFormed, SizeOf, AllLegal, Holds;
  }

  ghost predicate ElementSeen(ty: Type, buf: seq<byte>, off: nat, s: Slab, j: nat, v: Value, dap4: bool)
    requires ty.ArrayOf? && Shaped(s, |ty.dims|) && j < Product(s.count)
  {
    var at := off + Times(SelectedIndex(s, ty.dims, j), SizeOf(ty.base));
    WellFormed(ty.base) && AllLegal(ty.base) && Holds(buf, at, ty.base) && v == Seen(ty.base, buf, at, dap4)
  }

  /** Whichever of the two counters is used, it is the index of the selected element. */
  lemma ElementPlace(ty: Type, s: Slab, j: nat, total: nat, nelms: nat)
    requires WellFormed(ty) && ty.ArrayOf? && Fits(s, ty.dims) && total == Product(ty.dims) && nelms == Product(s.count) && j < nelms
    ensures SelectedIndex(s, ty.dims, j) < total
    ensures total == nelms ==> SelectedIndex(s, ty.dims, j) == j
  {
    SelectedInRange(s, ty.dims, j);
    LinearBound(ty.dims, SelectedPos(s, j));
    FullCountIsWholeArray(seq(total, i => 0), s, ty.dims);
  }

  lemma LegalArray(ty: Type)
    requires ty.ArrayOf? && Legal(ty.constraint) && AllLegal(ty.base)
    ensures AllLegal(ty)
  {
  }

  lemma ElementSeenAt(ty: Type, buf: seq<byte>, off: nat, s: Slab, j: nat, v: Value, dap4: bool)
    requires WellFormed(ty) && ty.ArrayOf? && Legal(ty.constraint) && s == ArraySlab(ty) && Holds(buf, off, ty)
    requires j < Product(s.count) && ElementSeen(ty, buf, off, s, j, v, dap4)
    ensures AllLegal(ty) && Seen(ty, buf, off, dap4).Elems? && |Seen(ty, buf, off, dap4).es| == Product(s.count)
    ensures v == Seen(ty, buf, off, dap4).es[j]
  {
    hide Product, Times, Linear, SelectedIndex, SizeOf, WellFormed, Seen, AllLegal, ArraySlab, Legal, Holds;
    LegalArray(ty);
    var k := SelectedIndex(s, ty.dims, j);
    SeenElement(ty, buf, off, s, j, k, off + Times(k, SizeOf(ty.base)), dap4);
  }

  lemma ElementsSeen(ty: Type, buf: seq<byte>, off: nat, s: Slab, vec: seq<Value>, dap4: bool)
    requires WellFormed(ty) && ty.ArrayOf? && Legal(ty.constraint) && s == ArraySlab(ty) && Holds(buf, off, ty)
    requires |vec| == Product(s.count) && forall j :: 0 <= j < |vec| ==> ElementSeen(ty, buf, off, s, j, vec[j], dap4)
    ensures AllLegal(ty) && Elems(vec) == Seen(ty, buf, off, dap4)
  {
    SelectedEnds(s, ty.dims);
    ElementSeenAt(ty, buf, off, s, 0, vec[0], dap4);
    hide Product, SizeOf, WellFormed, Seen, AllLegal, ElementSeen;
    forall j | 0 <= j < |vec|
      ensures vec[j] == Seen(ty, buf, off, dap4).es[j]
    {
      ElementSeenAt(ty, buf, off, s, j, vec[j], dap4);
    }
  }

  /** An array of leaves, with what is known of its element type spelled out. */
  ghost predicate AtomArray(ty: Type)
  {
    && WellFormed(ty) && ty.ArrayOf? && ty.base.Atom?
    && 1 <= ty.base.size
    && SizeOf(ty) == Times(Product(ty.dims), ty.base.size)
  }

  lemma ArrayOfAtoms(ty: Type)
    requires WellFormed(ty) && ty.ArrayOf? && ty.base.Atom?
    ensures AtomArray(ty)
  {
    assert WellFormed(ty.base);
  }

  /** The typed view of an array of leaves shows the stored elements. */
  lemma AtomCells(ty: Type, buf: seq<byte>, off: nat, cells: seq<Cell>)
    requires AtomArray(ty) && Holds(buf, off, ty)
    requires cells == View(buf[off..off + SizeOf(ty)], ty.base.size)
    ensures |cells| == Product(ty.dims) && Wide(cells, ty.base.size)
    ensures forall k :: 0 <= k < |cells| ==> ValueAt(ty, buf, off).es[k] == Bytes(cells[k])
  {
    var w, n, part := ty.base.size, Product(ty.dims), buf[off..off + SizeOf(ty)];
    FlattenView(part, w, n);
    forall k | 0 <= k < n
      ensures ValueAt(ty, buf, off).es[k] == Bytes(cells[k])
    {
      AtomCell(ty, buf, off, part, w, n, k, Times(k, w));
    }
  }

  lemma AtomCell(ty: Type, buf: seq<byte>, off: nat, part: seq<byte>, w: nat, n: nat, k: nat, at: nat)
    requires AtomArray(ty) && Holds(buf, off, ty) && part == buf[off..off + SizeOf(ty)]
    requires w == ty.base.size && n == Product(ty.dims) && k < n && at == Times(k, w)
    ensures k < |View(part, w)| && ValueAt(ty, buf, off).es[k] == Bytes(View(part, w)[k])
  {
    hide Product, Times, View, ValueAt, WellFormed, SizeOf;
    ViewAt(part, w, n, k);
    AtomStored(ty, buf, off, k, at);
    SliceOfSlice(buf, off, off + SizeOf(ty), part, at, at + w);
  }

  lemma AtomStored(ty: Type, buf: seq<byte>, off: nat, k: nat, at: nat)
    requires AtomArray(ty) && Holds(buf, off, ty) && k < Product(ty.dims) && at == Times(k, ty.base.size)
    ensures at + ty.base.size <= SizeOf(ty)
    ensures k < |ValueAt(ty, buf, off).es|
    ensures ValueAt(ty, buf, off).es[k] == Bytes(buf[off + at..off + at + ty.base.size])
  {
    hide Times, Product, ValueAt, WellFormed, Holds, Typed, SizeOf;
    AtomSize(ty.base);
    ElementHolds(buf, off, ty, k);
    AtomAt(ty.base, buf, off + at);
    StoredElement(ty, buf, off, k, off + at);
  }

  lemma AtomSize(ty: Type)
    requires ty.Atom?
    ensures SizeOf(ty) == ty.size
  {
  }

  lemma AtomAt(ty: Type, buf: seq<byte>, off: nat)
    requires WellFormed(ty) && ty.Atom? && Holds(buf, off, ty)
    ensures SizeOf(ty) == ty.size && off + ty.size <= |buf| && ValueAt(ty, buf, off) == Bytes(buf[off..off + ty.size])
  {
  }

  lemma SliceOfSlice(buf: seq<byte>, lo: nat, hi: nat, part: seq<byte>, a: nat, b: nat)
    requires lo <= hi <= |buf| && part == buf[lo..hi] && a <= b <= |part|
    ensures part[a..b] == buf[lo + a..lo + b]
  {
    forall i | 0 <= i < b - a
      ensures part[a..b][i] == buf[lo + a..lo + b][i]
    {
      assert part[a + i] == buf[lo + a + i];
    }
  }

  lemma AtomsSeen(ty: Type, buf: seq<byte>, off: nat, s: Slab, cells: seq<Cell>, vec: seq<Value>, dap4: bool)
    requires AtomArray(ty) && Holds(buf, off, ty)
    requires Legal(ty.constraint) && s == ArraySlab(ty)
    requires Wide(cells, ty.base.size) && |cells| == Product(ty.dims)
    requires forall k :: 0 <= k < |cells| ==> ValueAt(ty, buf, off).es[k] == Bytes(cells[k])
    requires Covers(cells, s, ty.dims) && |vec| == Product(s.count)
    requires forall j :: 0 <= j < |vec| ==> vec[j] == Sent(ty.base.kind, cells[SelectedIndex(s, ty.dims, j)], dap4)
    ensures AllLegal(ty) && Elems(vec) == Seen(ty, buf, off, dap4)
  {
    forall j | 0 <= j < |vec|
      ensures vec[j] == Seen(ty, buf, off, dap4).es[j]
    {
      var k := SelectedIndex(s, ty.dims, j);
      ProjectElement(ty, ValueAt(ty, buf, off), s, j, k, dap4);
    }
  }

  /** An array: a member of array type, or a whole dataset with its constraint. */
  class HDF5Array {
    const ty: Type
    const dap4: bool
    var vec: seq<Value>

    constructor (ty: Type, dap4: bool)
      requires ty.ArrayOf?
      ensures this.ty == ty && this.dap4 == dap4
    {
      this.ty, this.dap4 := ty, dap4;
      vec := [];
    }

    /**
      One element: a fresh copy of the structure, filled from the element's
      bytes. The loop counter is its index if everything is selected, otherwise
      the odometer's index is.
    */
    method ReadStructure(values: seq<byte>, valuesOffset: nat, slab: Slab, arrayIndex: nat, origIndex: nat, total: nat, atNelms: nat)
      returns (err: Option<DecodeError>, v: Value)
      requires WellFormed(ty) && ty.ArrayOf? && ty.base.Compound? && Holds(values, valuesOffset, ty) && Fits(slab, ty.dims)
      requires total == Product(ty.dims) && atNelms == Product(slab.count) && arrayIndex < atNelms
      requires origIndex == SelectedIndex(slab, ty.dims, arrayIndex)
      ensures err == None <==> MembersReadable(ty.base, true, dap4)
      ensures err == None ==> ElementSeen(ty, values, valuesOffset, slab, arrayIndex, v, dap4)
      decreases ty, 0
    {
      hide Product, Times, Linear, Seen, AllLegal, MembersReadable;
      ElementPlace(ty, slab, arrayIndex, total, atNelms);
      var index := if total == atNelms then arrayIndex else origIndex;
      ElementHolds(values, valuesOffset, ty, index);
      TimesIs(index, SizeOf(ty.base));
      var h5s := new HDF5Structure(ty.base, dap4);
      err := h5s.ReadMembers(values, valuesOffset + index * SizeOf(ty.base), true);
      v := Fields(h5s.fields);
    }

    /**
      The elements of an array of compounds, one after the other. The odometer
      runs along; its index is used only if less than everything is selected.
    */
    method ReadStructures(values: seq<byte>, valuesOffset: nat, atNelms: nat, slab: Slab) returns (err: Option<DecodeError>)
      requires WellFormed(ty) && ty.ArrayOf? && ty.base.Compound? && Holds(values, valuesOffset, ty)
      requires Legal(ty.constraint) && slab == ArraySlab(ty) && atNelms == Product(slab.count)
      modifies this
      ensures err == None <==> MembersReadable(ty.base, true, dap4)
      ensures err == None ==> AllLegal(ty) && Elems(vec) == Seen(ty, values, valuesOffset, dap4)
      decreases ty, 1
    {
      hide Product, Linear, SizeOf, AllLegal, OdometerPos, LastPos, MembersReadable, Holds, ElementSeen, ArraySlab, SlabOf, Legal;
      var n := |ty.dims|;
      assert n != 0;
      hide WellFormed;
      var total := HDF5CFArray.CountElements(ty.dims);
      var pos := new nat[n](i requires 0 <= i < n => slab.start[i]);
      var end := LastPos(slab);
      OdometerStart(slab, ty.dims);
      SelectedEnds(slab, ty.dims);
      assert pos[..] == slab.start;
      var _, origIndex := IndexNDTo1D(ty.dims, pos[..]);
      vec := seq(atNelms, i => Fields([]));
      var arrayIndex := 0;
      while arrayIndex < atNelms
        invariant 0 <= arrayIndex <= atNelms == |vec|
        invariant pos[..] == OdometerPos(slab, arrayIndex) && origIndex == Linear(ty.dims, pos[..])
        invariant arrayIndex > 0 ==> MembersReadable(ty.base, true, dap4)
        invariant forall j :: 0 <= j < arrayIndex ==> ElementSeen(ty, values, valuesOffset, slab, j, vec[j], dap4)
      {
        OdometerRunning(slab, arrayIndex);
        var v;
        err, v := ReadStructure(values, valuesOffset, slab, arrayIndex, origIndex, total, atNelms);
        if err.Some? {
          return;
        }
        vec := vec[arrayIndex := v];
        Advance(pos, end, slab, arrayIndex);
        var _, next := IndexNDTo1D(ty.dims, pos[..]);
        origIndex := next;
        arrayIndex := arrayIndex + 1;
      }
      ElementsSeen(ty, values, valuesOffset, slab, vec, dap4);
      err := None;
    }

    method DoH5ArrayTypeRead(values: seq<byte>, valuesOffset: nat, atNelms: nat, slab: Slab) returns (err: Option<DecodeError>)
      requires WellFormed(ty) && ty.ArrayOf? && Holds(values, valuesOffset, ty)
      requires Legal(ty.constraint) && slab == ArraySlab(ty) && atNelms == Product(slab.count)
      modifies this
      ensures err == None <==> Readable(ty, false, dap4)
      ensures err == None ==> AllLegal(ty) && Elems(vec) == Seen(ty, values, valuesOffset, dap4)
      decreases ty, 2
    {
      match ty.base
      case Compound(_, _) =>
        err := ReadStructures(values, valuesOffset, atNelms, slab);
      case Atom(kind, size) =>
        if kind == Other {
          return Some(UnsupportedClass);
        }
        err := ReadAtoms(values, valuesOffset, atNelms, slab);
      case ArrayOf(_, _, _) =>
        err := Some(UnsupportedClass);
    }

    /** The elements of an array of numbers or strings: all of them as they lie, or a subset of their typed view. */
    method ReadAtoms(values: seq<byte>, valuesOffset: nat, atNelms: nat, slab: Slab) returns (err: Option<DecodeError>)
      requires WellFormed(ty) && ty.ArrayOf? && ty.base.Atom? && ty.base.kind != Other && Holds(values, valuesOffset, ty)
      requires Legal(ty.constraint) && slab == ArraySlab(ty) && atNelms == Product(slab.count)
      modifies this
      ensures err == None <==> AtomsReadable(ty, dap4)
      ensures err == None ==> AllLegal(ty) && Elems(vec) == Seen(ty, values, valuesOffset, dap4)
    {
      var total := HDF5CFArray.CountElements(ty.dims);
      ArrayOfAtoms(ty);
      TimesIs(total, ty.base.size);
      hide Product, Times, View, Project, ValueAt, GetDapType;
      var cells := View(values[valuesOffset..valuesOffset + total * ty.base.size], ty.base.size);
      AtomCells(ty, values, valuesOffset, cells);
      FullCountIsWholeArray(cells, slab, ty.dims);
      var chosen := cells;
      if total == atNelms {
        if PromoteCharToShort(ty.base.kind, ty.base.size) {
          return Some(WrongDestination);
        }
      } else {
        if ty.base.kind != FixedString && !Subsettable(ty.base.kind, ty.base.size, dap4) {
          return Some(UnsupportedNumber);
        }
        chosen := SubsetAll(cells, ty.dims, slab);
      }
      vec := seq(|chosen|, i requires 0 <= i < |chosen| => Sent(ty.base.kind, chosen[i], dap4));
      AtomsSeen(ty, values, valuesOffset, slab, cells, vec, dap4);
      err := None;
    }

    /** A dataset of compounds: the selected elements lie packed in `values`, one structure each. */
    method MArrayOfStructure(values: seq<byte>, valuesOffset: nat, nelms: nat) returns (err: Option<DecodeError>)
      requires ty.ArrayOf? && ty.base.Compound? && WellFormed(ty.base)
      requires valuesOffset + Times(nelms, SizeOf(ty.base)) <= |values|
      modifies this
      ensures err == None <==> nelms == 0 || MembersReadable(ty.base, false, dap4)
      ensures err == None ==> |vec| == nelms
      ensures err == None ==> forall k :: 0 <= k < nelms ==> StructureSeen(ty.base, values, valuesOffset, k, vec[k], dap4)
    {
      hide Times, SizeOf, WellFormed, Seen, AllLegal, MembersReadable;
      vec := seq(nelms, i => Fields([]));
      var element := 0;
      while element < nelms
        invariant 0 <= element <= nelms == |vec|
        invariant element > 0 ==> MembersReadable(ty.base, false, dap4)
        invariant forall k :: 0 <= k < element ==> StructureSeen(ty.base, values, valuesOffset, k, vec[k], dap4)
      {
        TimesMonotone(element, nelms, SizeOf(ty.base));
        TimesIs(element, SizeOf(ty.base));
        var h5s := new HDF5Structure(ty.base, dap4);
        err := h5s.ReadMembers(values, valuesOffset + element * SizeOf(ty.base), false);
        if err.Some? {
          return;
        }
        vec := vec[element := Fields(h5s.fields)];
        element := element + 1;
      }
      err := None;
    }

    /**
      A constrained read of a whole dataset of compounds. The library packs the
      selected elements into a buffer; the decoder gives back exactly what is
      to be seen of the dataset: the selected elements, each with its inner
      arrays restricted to their own hyperslabs.
    */
    method ReadDataset(dataset: seq<Value>) returns (err: Option<DecodeError>)
      requires WellFormed(ty) && ty.ArrayOf? && ty.base.Compound? && Typed(ty, Elems(dataset))
      modifies this
      ensures err == None <==> Legal(ty.constraint) && MembersReadable(ty.base, false, dap4)
      ensures err == None ==> AllLegal(ty) && Elems(vec) == Project(ty, Elems(dataset), dap4)
      ensures Legal(ty.constraint) && PlainWhole(ty.base) ==>
                && err == None && |vec| == Product(ArraySlab(ty).count)
                && forall j :: 0 <= j < |vec| ==>
                     SelectedIndex(ArraySlab(ty), ty.dims, j) < |dataset| && vec[j] == dataset[SelectedIndex(ArraySlab(ty), ty.dims, j)]
      ensures PlainWhole(ty) ==> err == None && vec == dataset
    {
      var nelms, slab := ConstraintToSlab(ty.constraint);
      if nelms.MalformedExpr? {
        return Some(DecodeError.BadConstraint(nelms.start, nelms.stop));
      }
      SlabUnique(ty.constraint, slab, ArraySlab(ty));
      DatasetSlab(ty, dataset, slab);
      hide WellFormed, Typed, SizeOf, Product, Times, Project, ValueAt, MembersReadable, AllLegal, Select, ArraySlab;
      var chosen := Select(dataset, slab, ty.dims);
      var values := Pack(ty.base, chosen);
      err := MArrayOfStructure(values, 0, nelms.nelms);
      if err == None {
        MembersLegal(ty.base, false, dap4);
        LegalArray(ty);
        DatasetSeen(ty, dataset, slab, chosen, values, vec, dap4);
      }
      PlainDataset(ty, dataset, dap4);
    }
  }

  /** Structures of plain numbers asked for as a whole: they can be read, and are seen as they are. */
  lemma PlainDataset(ty: Type, dataset: seq<Value>, dap4: bool)
    requires WellFormed(ty) && ty.ArrayOf? && ty.base.Compound? && Typed(ty, Elems(dataset))
    ensures PlainWhole(ty.base) ==> MembersReadable(ty.base, false, dap4)
    ensures PlainWhole(ty.base) && AllLegal(ty) ==>
              var s, seen := ArraySlab(ty), Project(ty, Elems(dataset), dap4);
              && seen.Elems? && |seen.es| == Product(s.count)
              && forall j :: 0 <= j < |seen.es| ==>
                   SelectedIndex(s, ty.dims, j) < |dataset| && seen.es[j] == dataset[SelectedIndex(s, ty.dims, j)]
    ensures PlainWhole(ty) ==>
              Legal(ty.constraint) && PlainWhole(ty.base) && (AllLegal(ty) ==> Project(ty, Elems(dataset), dap4) == Elems(dataset))
  {
    if PlainWhole(ty.base) {
      PlainMembersReadable(ty.base, false, dap4);
    }
    if PlainWhole(ty) {
      WholeInOrder(ty);
    }
    if PlainWhole(ty.base) && AllLegal(ty) {
      var s := ArraySlab(ty);
      DatasetSlab(ty, dataset, s);
      ProjectParts(ty, Elems(dataset), dap4);
      hide Product, SelectedIndex, SizeOf;
      forall j | 0 <= j < Product(s.count)
        ensures Project(ty, Elems(dataset), dap4).es[j] == dataset[SelectedIndex(s, ty.dims, j)]
      {
        PlainWholeSeen(ty.base, dataset[SelectedIndex(s, ty.dims, j)], dap4);
      }
      if PlainWhole(ty) {
        PlainWholeSeen(ty, Elems(dataset), dap4);
      }
    }
  }

  lemma DatasetSlab(ty: Type, dataset: seq<Value>, s: Slab)
    requires WellFormed(ty) && ty.ArrayOf? && Legal(ty.constraint) && s == ArraySlab(ty) && Typed(ty, Elems(dataset))
    ensures WellFormed(ty.base) && |dataset| == Product(ty.dims)
    ensures Covers(dataset, s, ty.dims) && 1 <= Product(s.count)
    ensures forall i :: 0 <= i < |dataset| ==> Typed(ty.base, dataset[i])
    ensures forall j :: 0 <= j < Product(s.count) ==>
              SelectedIndex(s, ty.dims, j) < |dataset| && Typed(ty.base, dataset[SelectedIndex(s, ty.dims, j)])
  {
    hide Product, SelectedIndex, SizeOf;
    FitsCovers(dataset, s, ty.dims);
    SelectedEnds(s, ty.dims);
  }

  /** Structures seen in the packed selection are the projection of the dataset. */
  lemma DatasetSeen(ty: Type, dataset: seq<Value>, s: Slab, chosen: seq<Value>, values: seq<byte>, vec: seq<Value>, dap4: bool)
    requires WellFormed(ty) && ty.ArrayOf? && WellFormed(ty.base) && AllLegal(ty) && s == ArraySlab(ty)
    requires Typed(ty, Elems(dataset)) && |dataset| == Product(ty.dims)
    requires Covers(dataset, s, ty.dims) && chosen == Select(dataset, s, ty.dims) && 1 <= |chosen| == |vec|
    requires forall j :: 0 <= j < |chosen| ==> Typed(ty.base, chosen[j])
    requires values == Pack(ty.base, chosen)
    requires forall j :: 0 <= j < |vec| ==> StructureSeen(ty.base, values, 0, j, vec[j], dap4)
    ensures Elems(vec) == Project(ty, Elems(dataset), dap4)
  {
    hide WellFormed, Typed, SizeOf, Product, Times, Project, ValueAt, AllLegal, Select, SelectedIndex, Pack, Write, ArraySlab;
    ProjectElement(ty, Elems(dataset), s, 0, SelectedIndex(s, ty.dims, 0), dap4);
    forall j | 0 <= j < |vec|
      ensures vec[j] == Project(ty, Elems(dataset), dap4).es[j]
    {
      PackedAt(ty.base, chosen, values, j, Times(j, SizeOf(ty.base)));
      ProjectElement(ty, Elems(dataset), s, j, SelectedIndex(s, ty.dims, j), dap4);
    }
  }

  ghost predicate StructureSeen(elemTy: Type, values: seq<byte>, off: nat, k: nat, v: Value, dap4: bool)
  {
    var at := off + Times(k, SizeOf(elemTy));
    WellFormed(elemTy) && AllLegal(elemTy) && Holds(values, at, elemTy) && v == Seen(elemTy, values, at, dap4)
  }

  /**
    Decoding a value that was laid out. Plain numbers asked for as a whole come
    back as they were, however they are nested; strings and numbers on their own
    do, too, and so does every selected element of an array of them; a signed
    char keeps its value.
  */
  method DecodeWritten(ty: Type, v: Value, buf: seq<byte>, off: nat, inElement: bool, dap4: bool) returns (r: Result<Value, DecodeError>)
    requires WellFormed(ty) && Typed(ty, v) && Holds(buf, off, ty)
    ensures PlainWhole(ty) ==> r == Ok(v)
    ensures ty.Atom? ==> (r.Ok? <==> ty.kind != Other && !(ty.kind == FixedString && inElement))
    ensures ty.Atom? && r.Ok? ==>
              if ty.kind == Integer(true) && ty.size == 1 then r.value.Bytes? && SentChar(v.b[0], r.value.b, dap4) else r.value == v
    ensures ty.ArrayOf? && ty.base.Atom? ==>
              (r.Ok? <==>
               Legal(ty.constraint)
               && match ty.base.kind
                  case Integer(signed) =>
                    if AsksForAll(ty.constraint, ty.dims) then !(signed && ty.base.size == 1)
                    else ty.base.size == 2 || ty.base.size == 4 || (ty.base.size == 1 && !(signed && dap4))
                  case Float => AsksForAll(ty.constraint, ty.dims) || ty.base.size == 4 || ty.base.size == 8
                  case FixedString => true
                  case Other => false)
    ensures ty.ArrayOf? && ty.base.Atom? && r.Ok? ==>
              r.value.Elems? && SelectedAtoms(ty, v.es, r.value.es, dap4)
    ensures r.Ok? <==> Readable(ty, inElement, dap4)
    ensures r.Ok? ==> AllLegal(ty) && r.value == Project(ty, v, dap4)
  {
    var values := Write(ty, v, buf, off);
    WriteRead(ty, v, buf, off);
    ReadableParts(ty, inElement, dap4);
    if PlainWhole(ty) {
      PlainWholeReadable(ty, inElement, dap4);
    }
    hide WellFormed, Write, Readable, Project, AllLegal, ValueAt;
    r := ReadMember(ty, values, off, inElement, dap4);
    if r.Ok? {
      ProjectParts(ty, v, dap4);
      AtomsProjected(ty, v, dap4);
      if PlainWhole(ty) {
        PlainWholeSeen(ty, v, dap4);
      }
    }
  }

  /** The elements that are asked for, in order; signed chars as they are sent. */
  ghost predicate SelectedAtoms(ty: Type, stored: seq<Value>, sent: seq<Value>, dap4: bool)
    requires WellFormed(ty) && ty.ArrayOf? && ty.base.Atom?
  {
    && Legal(ty.constraint)
    && var s := ArraySlab(ty);
       && |sent| == Product(s.count)
       && forall j :: 0 <= j < |sent| ==>
            && SelectedIndex(s, ty.dims, j) < |stored|
            && var e := stored[SelectedIndex(s, ty.dims, j)];
               if ty.base.kind == Integer(true) && ty.base.size == 1 then
                 e.Bytes? && |e.b| == 1 && sent[j].Bytes? && SentChar(e.b[0], sent[j].b, dap4)
               else
                 sent[j] == e
  }

  lemma AtomsProjected(ty: Type, v: Value, dap4: bool)
    requires WellFormed(ty) && AllLegal(ty) && Typed(ty, v)
    ensures ty.ArrayOf? && ty.base.Atom? ==>
              Project(ty, v, dap4).Elems? && SelectedAtoms(ty, v.es, Project(ty, v, dap4).es, dap4)
  {
    if ty.ArrayOf? && ty.base.Atom? {
      ProjectParts(ty, v, dap4);
      var s := ArraySlab(ty);
      DatasetSlab(ty, v.es, s);
      hide Product, SelectedIndex, SizeOf;
      forall j | 0 <= j < Product(s.count)
        ensures Typed(ty.base, v.es[SelectedIndex(s, ty.dims, j)])
        ensures Project(ty, v, dap4).es[j] == Project(ty.base, v.es[SelectedIndex(s, ty.dims, j)], dap4)
      {
      }
      forall j | 0 <= j < Product(s.count)
        ensures var e := v.es[SelectedIndex(s, ty.dims, j)];
                if ty.base.kind == Integer(true) && ty.base.size == 1 then
                  e.Bytes? && |e.b| == 1 && Project(ty, v, dap4).es[j].Bytes? && SentChar(e.b[0], Project(ty, v, dap4).es[j].b, dap4)
                else
                  Project(ty, v, dap4).es[j] == e
      {
        ProjectParts(ty.base, v.es[SelectedIndex(s, ty.dims, j)], dap4);
      }
    }
  }

  // ----- numbers that cannot be selected from an array

  /** An array of four numbers of one kind, with a constraint. */
  function FourOf(kind: Kind, size: nat, d: Dim): Type
  {
    ArrayOf(Atom(kind, size), [4], [d])
  }

  /** Every second of four: two elements. */
  lemma EverySecond(kind: Kind, size: nat, d: Dim)
    requires d == Dim(4, 0, 2, 3) && 1 <= size
    ensures WellFormed(FourOf(kind, size, d)) && Legal([d]) && !SelectsAll(FourOf(kind, size, d))
  {
    var ty := FourOf(kind, size, d);
    assert Sizes([d]) == [4];
    var s := ArraySlab(ty);
    CountUnique(d, s.count[0], 2) by {
      assert Times(1, 2) == 2 && Times(2, 2) == 4;
    }
    assert s.count == [2];
    assert Product([2]) == Times(2, Product([])) == 2;
    assert Product([4]) == Times(4, Product([])) == 4;
  }

  /** All four of them are read, every second one is refused, if the numbers are 64-bit integers. */
  lemma ConstrainedInt64Refused(signed: bool)
    ensures Readable(FourOf(Integer(signed), 8, Dim(4, 0, 1, 3)), false, true)
    ensures !Readable(FourOf(Integer(signed), 8, Dim(4, 0, 2, 3)), false, true)
  {
    EverySecond(Integer(signed), 8, Dim(4, 0, 2, 3));
    AllFour(Integer(signed), 8, Dim(4, 0, 1, 3));
  }

  lemma AllFour(kind: Kind, size: nat, d: Dim)
    requires d == Dim(4, 0, 1, 3) && 1 <= size
    ensures WellFormed(FourOf(kind, size, d)) && Legal([d]) && SelectsAll(FourOf(kind, size, d))
  {
    var ty := FourOf(kind, size, d);
    assert Sizes([d]) == [4];
    var s := ArraySlab(ty);
    CountUnique(d, s.count[0], 4) by {
      TimesOne(3);
      TimesOne(4);
    }
    assert s.count == [4];
  }

  // ----- a packed buffer of elements

  /** `n` elements as an array datatype of their own. */
  function Row(elemTy: Type, n: nat): Type
  {
    ArrayOf(elemTy, [n], [Dim(n, 0, 1, if n == 0 then 0 else n - 1)])
  }

  lemma RowWellFormed(elemTy: Type, n: nat)
    requires WellFormed(elemTy) && 1 <= n
    ensures WellFormed(Row(elemTy, n)) && Product([n]) == n && SizeOf(Row(elemTy, n)) == Times(n, SizeOf(elemTy))
  {
    TimesOne(n);
    assert Sizes(Row(elemTy, n).constraint) == [n];
  }

  function Pack(elemTy: Type, vs: seq<Value>): (values: seq<byte>)
    requires WellFormed(elemTy) && 1 <= |vs| && forall i :: 0 <= i < |vs| ==> Typed(elemTy, vs[i])
    ensures |values| == Times(|vs|, SizeOf(elemTy))
  {
    RowWellFormed(elemTy, |vs|);
    Write(Row(elemTy, |vs|), Elems(vs), seq(Times(|vs|, SizeOf(elemTy)), i => 0), 0)
  }

  lemma PackedAt(elemTy: Type, vs: seq<Value>, values: seq<byte>, k: nat, at: nat)
    requires WellFormed(elemTy) && forall i :: 0 <= i < |vs| ==> Typed(elemTy, vs[i])
    requires k < |vs| && values == Pack(elemTy, vs) && at == Times(k, SizeOf(elemTy))
    ensures Holds(values, at, elemTy) && ValueAt(elemTy, values, at) == vs[k]
  {
    var ty := Row(elemTy, |vs|);
    RowWellFormed(elemTy, |vs|);
    hide WellFormed, SizeOf, Product, Times, ValueAt, Write;
    WriteRead(ty, Elems(vs), seq(Times(|vs|, SizeOf(elemTy)), i => 0), 0);
    ElementHolds(values, 0, ty, k);
    StoredElement(ty, values, 0, k, at);
  }
}
