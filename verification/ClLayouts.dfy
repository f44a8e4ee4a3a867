/**
 The OpenCL layout, twice: the direct computation (glsl_get_cl_size, glsl_get_cl_alignment), and
 glsl_get_explicit_type_for_size_align, which builds an explicit type from a callback that
 describes scalars and vectors.
 */
module ClLayouts {
  import opened Products
  import opened Alignment
  import opened GlslTypes
  import opened TypeTrees
  import opened StdLayouts
  import opened Placement

  /** util_next_power_of_two */
  function NextPowerOfTwo(n: nat): (r: nat)
    ensures r >= n && r > 0
  {
    if n <= 1 then 1 else 2 * NextPowerOfTwo((n + 1) / 2)
  }

  // ------------------------------------------------- the direct computation

  /** What glsl_type_is_scalar and glsl_type_is_vector accept: cooperative matrices have one component. */
  predicate ClLeaf(t: Type) {
    t.Handle? || t.Coop? || (t.Basic? && (t.rows == 1 || (t.rows > 1 && t.cols == 1)))
  }

  function LeafClSize(t: Type): (s: nat)
    requires ClLeaf(t)
    ensures s > 0
  {
    if t.Handle? then 8
    else if t.Coop? then 4
    else MulPositive(NextPowerOfTwo(t.rows), Bytes(t.base)); NextPowerOfTwo(t.rows) * Bytes(t.base)
  }

  function ClAlign(t: Type): (a: nat)
    ensures a > 0
    decreases t, 1
  {
    if ClLeaf(t) then LeafClSize(t)
    else if t.Array? then ClAlign(t.elem)
    else if t.Struct? then if t.packed then 1 else ClFieldsAlign(t, |t.fields|)
    else 1
  }

  function ClFieldsAlign(t: Type, n: nat): (a: nat)
    requires t.Struct? && n <= |t.fields|
    ensures a >= 1
    decreases t, 0, n
  {
    if n == 0 then 1 else Max(ClFieldsAlign(t, n - 1), ClAlign(t.fields[n - 1].typ))
  }

  /** The structure with the fields of a record. */
  function AsStruct(t: Type): (s: Type)
    requires IsRecord(t)
    ensures s.Struct? && s.fields == t.fields && s.packed == Packed(t)
  {
    if t.Struct? then t else Struct(t.name, false, 0, t.fields)
  }

  predicate Packed(t: Type) {
    t.Struct? && t.packed
  }

  /**
   Types the two computations agree on: no matrix anywhere, and interfaces only where their
   fields, as a structure, take one byte.
   */
  predicate ClType(t: Type)
    decreases t
  {
    match t
    case Basic(_, rows, cols, _, _, _) => 1 <= rows <= 16 && cols == 1
    case Handle(_, _, _, _, _) => true
    case Array(elem, _, _) => ClType(elem)
    case Struct(_, _, _, fields) => forall k :: 0 <= k < |fields| ==> ClType(fields[k].typ)
    case Interface(_, _, _, fields) =>
      (forall k :: 0 <= k < |fields| ==> ClType(fields[k].typ)) && ClSize(AsStruct(t)) == 1
    case _ => false
  }

  lemma VectorClUnit(t: Type)
    requires ClType(t) && IsVector(t)
    ensures Unit(LeafClSize(t)) && VectorBytes(t) <= LeafClSize(t)
  {
    if t.Basic? {
      PowerOfTwoCases(t.rows);
      MulMono(Bytes(t.base), t.rows, NextPowerOfTwo(t.rows));
    }
  }

  lemma PowerOfTwoCases(n: nat)
    requires 1 <= n <= 16
    ensures NextPowerOfTwo(n) in {1, 2, 4, 8, 16}
  {
    assert NextPowerOfTwo(1) == 1 && NextPowerOfTwo(2) == 2;
    assert NextPowerOfTwo(3) == 4 && NextPowerOfTwo(4) == 4;
    assert n > 4 ==> (n + 1) / 2 in {3, 4, 5, 6, 7, 8};
    assert NextPowerOfTwo(5) == 8 && NextPowerOfTwo(6) == 8 && NextPowerOfTwo(7) == 8 && NextPowerOfTwo(8) == 8;
  }

  lemma {:induction false} ClAlignUnit(t: Type)
    requires ClType(t)
    ensures Unit(ClAlign(t))
    decreases t, 1
  {
    if IsVector(t) {
      VectorClUnit(t);
    } else if t.Array? {
      ClAlignUnit(t.elem);
    } else if t.Struct? {
      ClFieldsUnit(t, |t.fields|);
    }
  }

  lemma {:induction false} ClFieldsUnit(t: Type, n: nat)
    requires IsRecord(t) && n <= |t.fields| && forall k :: 0 <= k < |t.fields| ==> ClType(t.fields[k].typ)
    ensures Unit(ClFieldsAlign(AsStruct(t), n))
    decreases t, 0, n
  {
    if n > 0 {
      ClFieldsUnit(t, n - 1);
      ClAlignUnit(t.fields[n - 1].typ);
    }
  }

  /** glsl_get_cl_size */
  function ClSize(t: Type): (s: nat)
    decreases t, 1
  {
    if ClLeaf(t) then LeafClSize(t)
    else if t.Array? then MulPositive(ClSize(t.elem), t.length); ClSize(t.elem) * t.length
    else if t.Struct? then AlignUp(ClEnd(t, |t.fields|), if t.packed then 1 else ClFieldsAlign(t, |t.fields|))
    else 1
  }

  function ClEnd(t: Type, n: nat): (e: nat)
    requires t.Struct? && n <= |t.fields|
    decreases t, 0, n
  {
    if n == 0 then 0
    else
      var f := t.fields[n - 1].typ;
      var e := ClEnd(t, n - 1);
      (if t.packed then e else AlignUp(e, ClAlign(f))) + ClSize(f)
  }

  /** Sizes are multiples of alignments, so arrays need no padding. */
  lemma {:induction false} ClSizeMultiple(t: Type)
    requires ClType(t)
    ensures ClAlign(t) > 0 && ClSize(t) % ClAlign(t) == 0
  {
    hide AlignUp;
    ClAlignUnit(t);
    if t.Array? {
      ClSizeMultiple(t.elem);
      MultipleOf(t.length, ClSize(t.elem), ClAlign(t));
    } else if t.Struct? {
      AlignUpIs(ClEnd(t, |t.fields|), ClAlign(t));
    }
  }

  // ------------------------------------------------- by callback

  datatype Laid = Laid(typ: Type, size: nat, align: nat)

  /** The callback gives every scalar and vector a positive alignment. */
  ghost predicate Describes(info: Type -> (nat, nat)) {
    forall v: Type :: IsVector(v) ==> info(v).1 > 0
  }

  /** What glsl_get_explicit_type_for_size_align handles: no cooperative matrix, no row-major field. */
  predicate Described(t: Type)
    decreases t
  {
    match t
    case Basic(_, rows, cols, _, _, _) => 1 <= rows && 1 <= cols && (cols > 1 ==> rows > 1)
    case Handle(_, _, _, _, _) => true
    case Array(elem, _, _) => Described(elem)
    case Struct(_, _, _, fields) =>
      forall k :: 0 <= k < |fields| ==> Described(fields[k].typ) && Sub(fields[k].rest.flags, 0x20, 4) != 2
    case Interface(_, _, _, fields) =>
      forall k :: 0 <= k < |fields| ==> Described(fields[k].typ) && Sub(fields[k].rest.flags, 0x20, 4) != 2
    case _ => false
  }

  /** `stride * (length - 1) + elem_size` in unsigned arithmetic, which wraps for length zero. */
  function Run(n: nat, stride: nat, last: nat): (s: nat) {
    if n == 0 then (last - stride) % 0x1_0000_0000 else Spaced(n, stride, last)
  }

  function SizeAlign(t: Type, info: Type -> (nat, nat)): (r: Laid)
    requires Described(t) && Describes(info)
    ensures r.align > 0
    decreases t, 1
  {
    if t.Handle? || (IsVector(t) && t.rows == 1) then var (s, a) := info(t); Laid(t, s, a)
    else if IsVector(t) then var (s, a) := info(t); Laid(Basic(t.base, t.rows, 1, 0, a, false), s, a)
    else if t.Array? then
      var e := SizeAlign(t.elem, info);
      var stride := AlignUp(e.size, e.align);
      Laid(Array(e.typ, t.length, stride), Run(t.length, stride, e.size), e.align)
    else if IsMatrix(t) then
      var (s, a) := info(VectorOf(t, false));
      var stride := AlignUp(s, a);
      MulPositive(t.cols, stride);
      Laid(Basic(t.base, t.rows, t.cols, stride, a, false), t.cols * stride, a)
    else
      var (fields, end, align) := LaidFields(t, |t.fields|, info);
      var typ :=
        if t.Struct? then Struct(t.name, t.packed, align, fields)
        else Interface(t.name, t.packing, t.rowMajor, fields);
      Laid(typ, AlignUp(end, align), align)
  }

  /** The first `n` fields, where they end, and their largest alignment. */
  function LaidFields(t: Type, n: nat, info: Type -> (nat, nat)): (r: (seq<Member>, nat, nat))
    requires IsRecord(t) && Described(t) && Describes(info) && n <= |t.fields|
    ensures |r.0| == n && r.2 > 0
    decreases t, 0, n
  {
    if n == 0 then ([], 0, 1)
    else
      var (before, end, align) := LaidFields(t, n - 1, info);
      var f := t.fields[n - 1];
      var l := SizeAlign(f.typ, info);
      var a := if Packed(t) then 1 else l.align;
      var at := AlignUp(end, a);
      (before + [f.(typ := l.typ, offset := at)], at + l.size, Max(align, a))
  }

  // ------------------------------------------------- the two agree

  /** glsl_get_cl_type_size_align */
  function ClInfo(v: Type): (r: (nat, nat)) {
    (ClSize(v), ClAlign(v))
  }

  lemma ClDescribes()
    ensures Describes(ClInfo)
  {
  }

  lemma RunOfWhole(n: nat, size: nat)
    ensures Run(n, size, size) == size * n
  {
    if n > 0 { MulAdd(size, n - 1, 1); }
  }

  /** The two computations give the same size and alignment. */
  ghost predicate Agree(t: Type)
    requires Described(t)
  {
    Describes(ClInfo) && SizeAlign(t, ClInfo).size == ClSize(t) && SizeAlign(t, ClInfo).align == ClAlign(t)
  }

  /** They agree on the type and on everything in it. */
  ghost predicate AgreeThroughout(t: Type)
    requires Described(t)
    decreases t
  {
    && Agree(t)
    && (t.Array? ==> AgreeThroughout(t.elem))
    && (IsRecord(t) ==> forall k :: 0 <= k < |t.fields| ==> AgreeThroughout(t.fields[k].typ))
  }

  /** Vectors have at most sixteen components. */
  predicate Short(t: Type)
    decreases t
  {
    match t
    case Basic(_, rows, _, _, _, _) => rows <= 16
    case Array(elem, _, _) => Short(elem)
    case Struct(_, _, _, fields) => forall k :: 0 <= k < |fields| ==> Short(fields[k].typ)
    case Interface(_, _, _, fields) => forall k :: 0 <= k < |fields| ==> Short(fields[k].typ)
    case _ => true
  }

  /**
   The two computations agree on a type and on everything in it, packed structures and empty
   arrays included, iff it has no matrix and no interface but those of one byte.
   */
  lemma {:induction false} TwoLayoutsAgree(t: Type)
    requires Described(t) && Short(t)
    ensures AgreeThroughout(t) <==> ClType(t)
    decreases t
  {
    hide AlignUp, Sub, SizeAlign, ClSize, ClAlign, Agree;
    if ClType(t) { CommonAgree(t); }
    if t.Array? {
      TwoLayoutsAgree(t.elem);
    } else if IsRecord(t) {
      forall k | 0 <= k < |t.fields| ensures AgreeThroughout(t.fields[k].typ) <==> ClType(t.fields[k].typ) {
        TwoLayoutsAgree(t.fields[k].typ);
      }
      if t.Interface? && AgreeThroughout(t) { OneByteInterface(t); }
    } else if IsMatrix(t) {
      MatricesDisagree(t);
    }
  }

  /** Where the condition holds, the two agree. */
  lemma {:induction false} CommonAgree(t: Type)
    requires ClType(t) && Described(t)
    ensures Agree(t)
    decreases t, 1
  {
    hide AlignUp, Sub;
    ClDescribes();
    ClAlignUnit(t);
    if t.Array? {
      CommonAgree(t.elem);
      ClSizeMultiple(t.elem);
      AlignUpFixed(ClSize(t.elem), ClAlign(t.elem));
      RunOfWhole(t.length, ClSize(t.elem));
    } else if IsRecord(t) {
      FieldsAgree(t, |t.fields|);
      RecordAgrees(t);
    }
  }

  lemma {:induction false} FieldsAgree(t: Type, n: nat)
    requires IsRecord(t) && Described(t) && n <= |t.fields|
    requires forall k :: 0 <= k < |t.fields| ==> ClType(t.fields[k].typ)
    ensures Describes(ClInfo)
    ensures LaidFields(t, n, ClInfo).1 == ClEnd(AsStruct(t), n)
    ensures LaidFields(t, n, ClInfo).2 == if Packed(t) then 1 else ClFieldsAlign(AsStruct(t), n)
    decreases t, 0, n
  {
    hide AlignUp, Sub, SizeAlign, ClSize, ClAlign;
    ClDescribes();
    if n > 0 {
      FieldsAgree(t, n - 1);
      CommonAgree(t.fields[n - 1].typ);
      if Packed(t) { AlignUpFixed(ClEnd(AsStruct(t), n - 1), 1); }
    }
  }

  /** The callback layout of a record is the direct layout of the structure with its fields. */
  lemma RecordIsStruct(t: Type)
    requires IsRecord(t) && Described(t) && Describes(ClInfo)
    requires LaidFields(t, |t.fields|, ClInfo).1 == ClEnd(AsStruct(t), |t.fields|)
    requires LaidFields(t, |t.fields|, ClInfo).2 == if Packed(t) then 1 else ClFieldsAlign(AsStruct(t), |t.fields|)
    ensures SizeAlign(t, ClInfo).size == ClSize(AsStruct(t)) && SizeAlign(t, ClInfo).align == ClAlign(AsStruct(t))
  {
    hide AlignUp, Sub, LaidFields, ClEnd, ClFieldsAlign;
  }

  lemma RecordAgrees(t: Type)
    requires ClType(t) && IsRecord(t) && Described(t) && Describes(ClInfo)
    requires LaidFields(t, |t.fields|, ClInfo).1 == ClEnd(AsStruct(t), |t.fields|)
    requires LaidFields(t, |t.fields|, ClInfo).2 == if Packed(t) then 1 else ClFieldsAlign(AsStruct(t), |t.fields|)
    ensures Agree(t)
  {
    hide AlignUp, Sub, LaidFields, ClEnd, ClFieldsAlign, SizeAlign;
    RecordIsStruct(t);
    if t.Interface? { OneByteAlign(t); }
  }

  /** What takes one byte is aligned to one byte. */
  lemma OneByteAlign(t: Type)
    requires ClType(t) && t.Interface?
    ensures ClAlign(AsStruct(t)) == 1
  {
    hide ClSize, ClAlign;
    ClSizeMultiple(AsStruct(t));
  }

  lemma OneByteInterface(t: Type)
    requires t.Interface? && Described(t) && Agree(t)
    requires forall k :: 0 <= k < |t.fields| ==> ClType(t.fields[k].typ)
    ensures ClType(t)
  {
    hide AlignUp, Sub, LaidFields, ClEnd, ClFieldsAlign, SizeAlign;
    FieldsAgree(t, |t.fields|);
    RecordIsStruct(t);
  }

  /** On a matrix they do not: the direct computation knows no matrices. */
  lemma MatricesDisagree(m: Type)
    requires IsMatrix(m) && Described(m) && Short(m)
    ensures Describes(ClInfo) && ClSize(m) == 1 && SizeAlign(m, ClInfo).size > 1 && !Agree(m)
  {
    hide AlignUp;
    ClDescribes();
    var v := VectorOf(m, false);
    VectorClUnit(v);
    assert ClInfo(v) == (LeafClSize(v), LeafClSize(v));
    AlignUpIs(LeafClSize(v), LeafClSize(v));
    MulMono(AlignUp(LeafClSize(v), LeafClSize(v)), 2, m.cols);
  }

  function Plain(t: Type): (m: Member) {
    Member(t, -1, Field(Null, [], 0, 0, 0, 0, 0, 0, 0))
  }

  function Scalar(base: Base): (t: Type) {
    Basic(base, 1, 1, 0, 0, false)
  }

  lemma ScalarLaid(base: Base)
    ensures Described(Scalar(base)) && Describes(ClInfo) && ClSize(Scalar(base)) == Bytes(base) == ClAlign(Scalar(base))
    ensures SizeAlign(Scalar(base), ClInfo).size == Bytes(base) == SizeAlign(Scalar(base), ClInfo).align
  {
    ClDescribes();
    assert NextPowerOfTwo(1) == 1;
  }

  function HalfMatrix(): (t: Type) {
    Basic(Float16, 2, 2, 0, 0, false)
  }

  lemma HalfMatrixLaid()
    ensures var m := HalfMatrix();
            && Described(m) && Describes(ClInfo) && ClSize(m) == 1 && ClAlign(m) == 1
            && SizeAlign(m, ClInfo).size == 8 && SizeAlign(m, ClInfo).align == 4
  {
    hide AlignUp;
    ClDescribes();
    assert NextPowerOfTwo(2) == 2;
    assert ClInfo(VectorOf(HalfMatrix(), false)) == (4, 4);
    AlignUpFixed(4, 4);
  }

  /** `struct { double d; f16mat2 m; }` */
  function DoubleAndMatrix(): (t: Type)
    ensures t.Struct? && !t.packed && |t.fields| == 2
  {
    Struct([], false, 0, [Plain(Scalar(Double)), Plain(HalfMatrix())])
  }

  /** The sizes of a whole can be equal although those of a part are not. */
  lemma AgreeByAccident()
    ensures var t := DoubleAndMatrix();
            Described(t) && Short(t) && Agree(t) && ClSize(t) == 16 && ClAlign(t) == 8 && !AgreeThroughout(t)
  {
    hide AlignUp, SizeAlign, ClSize, ClAlign, Sub, ClEnd, LaidFields, Agree;
    var t := DoubleAndMatrix();
    PlainFlags();
    assert t.fields[0].typ == Scalar(Double) && t.fields[1].typ == HalfMatrix();
    ScalarLaid(Double);
    HalfMatrixLaid();
    PairLaid(t);
    PairDirect(t);
    AlignUpFixed(0, 8);
    AlignUpFixed(8, 4);
    AlignUpFixed(8, 1);
    AlignUpFixed(16, 8);
    AlignUpIs(9, 8);
    AgreeIs(t);
    MatricesDisagree(HalfMatrix());
  }

  lemma AgreeIs(t: Type)
    requires Described(t)
    ensures Describes(ClInfo)
    ensures Agree(t) <==> SizeAlign(t, ClInfo).size == ClSize(t) && SizeAlign(t, ClInfo).align == ClAlign(t)
  {
  }

  /** A field without qualifiers is not row-major. */
  lemma PlainFlags()
    ensures Sub(0, 0x20, 4) != 2
  {
  }

  lemma PairLaid(t: Type)
    requires t.Struct? && !t.packed && |t.fields| == 2 && Described(t) && Describes(ClInfo)
    ensures var a, b := SizeAlign(t.fields[0].typ, ClInfo), SizeAlign(t.fields[1].typ, ClInfo);
            var align := Max(Max(1, a.align), b.align);
            && SizeAlign(t, ClInfo).size == AlignUp(AlignUp(AlignUp(0, a.align) + a.size, b.align) + b.size, align)
            && SizeAlign(t, ClInfo).align == align
  {
    hide AlignUp, Sub, ClInfo, LaidFields, SizeAlign, Described;
    NextLaid(t, 0);
    NextLaid(t, 1);
    AllLaid(t);
  }

  /** One more field of a structure that is not packed. */
  lemma NextLaid(t: Type, n: nat)
    requires t.Struct? && !t.packed && n < |t.fields| && Described(t) && Describes(ClInfo)
    ensures LaidFields(t, 0, ClInfo) == ([], 0, 1)
    ensures var l, before := SizeAlign(t.fields[n].typ, ClInfo), LaidFields(t, n, ClInfo);
            var after := LaidFields(t, n + 1, ClInfo);
            after.1 == AlignUp(before.1, l.align) + l.size && after.2 == Max(before.2, l.align)
  {
    hide AlignUp, Sub, ClInfo, SizeAlign, Described;
  }

  lemma AllLaid(t: Type)
    requires t.Struct? && Described(t) && Describes(ClInfo)
    ensures var l, f := SizeAlign(t, ClInfo), LaidFields(t, |t.fields|, ClInfo);
            l.size == AlignUp(f.1, f.2) && l.align == f.2
  {
    hide AlignUp, Sub, ClInfo, LaidFields;
  }

  lemma PairDirect(t: Type)
    requires t.Struct? && !t.packed && |t.fields| == 2
    ensures var a, b := t.fields[0].typ, t.fields[1].typ;
            var align := Max(ClAlign(a), ClAlign(b));
            var second := AlignUp(AlignUp(0, ClAlign(a)) + ClSize(a), ClAlign(b));
            && ClSize(t) == AlignUp(second + ClSize(b), align)
            && ClAlign(t) == align
  {
    hide AlignUp;
    assert ClEnd(t, 0) == 0 && ClFieldsAlign(t, 0) == 1;
    assert ClEnd(t, 1) == AlignUp(0, ClAlign(t.fields[0].typ)) + ClSize(t.fields[0].typ);
    assert ClFieldsAlign(t, 1) == ClAlign(t.fields[0].typ);
  }

  /** On an interface of one scalar they agree iff the scalar takes one byte. */
  lemma InterfaceOfOne(base: Base)
    ensures var t := Interface([], 0, false, [Plain(Scalar(base))]);
            && Described(t) && Describes(ClInfo) && ClSize(t) == 1 && SizeAlign(t, ClInfo).size == Bytes(base)
            && (Agree(t) <==> Bytes(base) == 1)
  {
    hide AlignUp, SizeAlign, Sub, LaidFields, Agree;
    var t := Interface([], 0, false, [Plain(Scalar(base))]);
    PlainFlags();
    ScalarLaid(base);
    assert t.fields[0].typ == Scalar(base);
    FieldsAgree(t, 1);
    RecordIsStruct(t);
    var s := AsStruct(t);
    assert ClEnd(s, 0) == 0 && ClFieldsAlign(s, 0) == 1;
    AlignUpFixed(0, Bytes(base));
    AlignUpFixed(Bytes(base), Bytes(base));
    AgreeIs(t);
  }

  // ------------------------------------------------- what the callback layout places

  /** The callback leaves room for every scalar and vector. */
  ghost predicate Roomy(info: Type -> (nat, nat)) {
    Describes(info) && forall v: Type :: IsVector(v) ==> VectorBytes(v) <= info(v).0
  }

  /** Every array has elements. */
  predicate NoEmptyArray(t: Type)
    decreases t
  {
    match t
    case Array(elem, length, _) => length > 0 && NoEmptyArray(elem)
    case Struct(_, _, _, fields) => forall k :: 0 <= k < |fields| ==> NoEmptyArray(fields[k].typ)
    case Interface(_, _, _, fields) => forall k :: 0 <= k < |fields| ==> NoEmptyArray(fields[k].typ)
    case _ => true
  }

  ghost predicate LaidWell(t: Type, info: Type -> (nat, nat))
    requires Described(t) && Describes(info)
  {
    var l := SizeAlign(t, info);
    Measurable(l.typ) && WellLaid(l.typ) && ExplicitSize(l.typ, false) <= l.size
  }

  /** Whatever the callback, the explicit type is well laid and ends within the size returned. */
  lemma {:induction false} LaidIsWell(t: Type, info: Type -> (nat, nat))
    requires Described(t) && NoEmptyArray(t) && Roomy(info)
    ensures LaidWell(t, info)
    decreases t
  {
    if t.Array? {
      LaidIsWell(t.elem, info);
      ArrayLaid(t, info);
    } else if IsMatrix(t) {
      MatrixLaid(t, info);
    } else if IsRecord(t) {
      forall k | 0 <= k < |t.fields| ensures LaidWell(t.fields[k].typ, info) {
        LaidIsWell(t.fields[k].typ, info);
      }
      RecordLaid(t, info);
    }
  }

  lemma ArrayLaid(t: Type, info: Type -> (nat, nat))
    requires t.Array? && t.length > 0 && Described(t) && Describes(info) && LaidWell(t.elem, info)
    ensures LaidWell(t, info)
  {
    hide AlignUp;
    var e := SizeAlign(t.elem, info);
    AlignUpIs(e.size, e.align);
  }

  lemma MatrixLaid(t: Type, info: Type -> (nat, nat))
    requires IsMatrix(t) && Described(t) && Roomy(info)
    ensures LaidWell(t, info)
  {
    hide AlignUp;
    var (s, a) := info(VectorOf(t, false));
    AlignUpIs(s, a);
    MulAdd(AlignUp(s, a), t.cols - 1, 1);
  }

  /** A field, where it is and how large. */
  lemma {:induction false} LaidField(t: Type, n: nat, k: nat, info: Type -> (nat, nat))
    requires IsRecord(t) && Described(t) && Describes(info) && k < n <= |t.fields|
    ensures var m, before := LaidFields(t, n, info).0[k], LaidFields(t, k, info).1;
            var l := SizeAlign(t.fields[k].typ, info);
            && m.typ == l.typ && m.offset == AlignUp(before, if Packed(t) then 1 else l.align)
            && LaidFields(t, k + 1, info).1 == m.offset + l.size
  {
    hide AlignUp, SizeAlign, Sub, Described;
    if k + 1 < n { LaidField(t, n - 1, k, info); }
  }

  /** Fields are aligned, unless the structure is packed, and in order. */
  lemma LaidInOrder(t: Type, k: nat, info: Type -> (nat, nat))
    requires IsRecord(t) && Described(t) && Describes(info) && k < |t.fields|
    ensures var m, l := LaidFields(t, |t.fields|, info).0[k], SizeAlign(t.fields[k].typ, info);
            && (!Packed(t) ==> m.offset % l.align == 0)
            && LaidFields(t, k, info).1 <= m.offset
            && LaidFields(t, k + 1, info).1 == m.offset + l.size
  {
    hide AlignUp, SizeAlign, LaidFields, Sub;
    LaidField(t, |t.fields|, k, info);
    AlignUpIs(LaidFields(t, k, info).1, if Packed(t) then 1 else SizeAlign(t.fields[k].typ, info).align);
  }

  lemma RecordTyp(t: Type, info: Type -> (nat, nat))
    requires IsRecord(t) && Described(t) && Describes(info)
    ensures var l, f := SizeAlign(t, info), LaidFields(t, |t.fields|, info);
            IsRecord(l.typ) && l.typ.fields == f.0 && f.1 <= l.size
  {
    hide AlignUp, LaidFields, Sub;
    var f := LaidFields(t, |t.fields|, info);
    AlignUpIs(f.1, f.2);
  }

  lemma FieldLaid(t: Type, k: nat, info: Type -> (nat, nat))
    requires IsRecord(t) && Described(t) && Describes(info) && k < |t.fields| && LaidWell(t.fields[k].typ, info)
    ensures var m := LaidFields(t, |t.fields|, info).0[k];
            && m.offset >= 0 && Measurable(m.typ) && WellLaid(m.typ)
            && LaidFields(t, k, info).1 <= m.offset
            && m.offset + ExplicitSize(m.typ, false) <= LaidFields(t, k + 1, info).1
  {
    hide AlignUp, SizeAlign, LaidFields, Sub, Measurable, WellLaid, ExplicitSize;
    LaidField(t, |t.fields|, k, info);
    LaidInOrder(t, k, info);
  }

  lemma RecordLaid(t: Type, info: Type -> (nat, nat))
    requires IsRecord(t) && Described(t) && Describes(info)
    requires forall k :: 0 <= k < |t.fields| ==> LaidWell(t.fields[k].typ, info)
    ensures LaidWell(t, info)
  {
    hide AlignUp, SizeAlign, LaidFields, Sub, LaidWell, ExplicitSize, Described;
    RecordTyp(t, info);
    var r := SizeAlign(t, info).typ;
    forall k | 0 <= k < |r.fields|
      ensures r.fields[k].offset >= 0 && Measurable(r.fields[k].typ) && WellLaid(r.fields[k].typ)
    {
      FieldLaid(t, k, info);
    }
    forall k | 0 < k < |r.fields|
      ensures r.fields[k - 1].offset + ExplicitSize(r.fields[k - 1].typ, false) <= r.fields[k].offset
    {
      FieldLaid(t, k - 1, info);
      FieldLaid(t, k, info);
    }
    RecordEnds(t, |t.fields|, info);
    RecordIsLaid(t, info);
  }

  lemma RecordIsLaid(t: Type, info: Type -> (nat, nat))
    requires IsRecord(t) && Described(t) && Describes(info)
    requires var l := SizeAlign(t, info);
             && IsRecord(l.typ) && Measurable(l.typ) && WellLaid(l.typ) && LastByte(l.typ, |l.typ.fields|) <= l.size
    ensures LaidWell(t, info)
  {
    hide AlignUp, SizeAlign, LaidFields, Measurable, WellLaid, LastByte;
  }

  lemma {:induction false} RecordEnds(t: Type, n: nat, info: Type -> (nat, nat))
    requires IsRecord(t) && Described(t) && Describes(info) && n <= |t.fields|
    requires forall k :: 0 <= k < |t.fields| ==> LaidWell(t.fields[k].typ, info)
    requires var r := SizeAlign(t, info).typ;
             IsRecord(r) && Measurable(r) && r.fields == LaidFields(t, |t.fields|, info).0
    ensures LastByte(SizeAlign(t, info).typ, n) <= LaidFields(t, n, info).1
    decreases n
  {
    hide AlignUp, SizeAlign, LaidFields, Sub, LaidWell, ExplicitSize, WellLaid, Described;
    if n > 0 {
      RecordEnds(t, n - 1, info);
      FieldLaid(t, n - 1, info);
    }
  }
}
