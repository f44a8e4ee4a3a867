/**
 The layout functions as src/compiler/glsl_types.c runs them: loops over fields and nested arrays,
 for the standard layouts in 32-bit arithmetic.
 */
module LayoutLoops {
  import opened Words
  import opened Products
  import opened BitScan
  import opened Alignment
  import opened GlslTypes
  import opened TypeTrees
  import opened StdLayouts
  import opened Placement
  import opened ExplicitLayouts
  import opened ClLayouts
  import opened ClWords
  import opened Wrapping
  import opened WrappedLayouts

  /** glsl_without_array together with glsl_get_aoa_size. */
  method FlattenArray(t: Type) returns (core: Type, count: u32)
    requires t.Array?
    ensures core == Core(t) && count == Wrap(Count(t))
  {
    count := Wrap(t.length);
    core := t.elem;
    WrapMul(t.length, Count(core));
    while core.Array?
      invariant Core(core) == Core(t) && count * Count(core) >= 0 && Wrap(count * Count(core)) == Wrap(Count(t))
      decreases core
    {
      MulAssoc(count, core.length, Count(core.elem));
      MulPositive(count, core.length);
      WrapMul(count * core.length, Count(core.elem));
      count, core := Wrap(count * core.length), core.elem;
    }
  }

  method BaseAlignment(std: Std, t: Type, rowMajor: bool) returns (a: nat)
    requires Sized(std, t)
    ensures a == Align(std, t, rowMajor)
    decreases t
  {
    hide FieldRowMajor, Component;
    if IsVector(t) { return VectorAlign(t); }
    if t.Array? {
      a := BaseAlignment(std, t.elem, rowMajor);
      if IsVector(t.elem) || IsMatrix(t.elem) { a := Rounded(std, a); }
      return;
    }
    if IsMatrix(t) { return Rounded(std, VectorAlign(VectorOf(t, rowMajor))); }
    a := if std.Std140? then 16 else 0;
    for i := 0 to |t.fields|
      invariant a == FieldsAlign(std, t, i, rowMajor)
    {
      var b := BaseAlignment(std, t.fields[i].typ, FieldRowMajor(t.fields[i], rowMajor));
      a := Max(a, b);
    }
  }

  /** The size modulo 2^32, whatever wraps on the way. */
  method LayoutSize(std: Std, t: Type, rowMajor: bool) returns (size: u32)
    requires Block(std, t)
    ensures size == Wrap(Size(std, t, rowMajor))
    decreases t
  {
    if IsVector(t) { return Rows(t) * ComponentOf(t); }
    if IsRecord(t) {
      size := LayoutRecord(std, t, rowMajor);
      return;
    }
    var core, count := t, 1;
    if t.Array? { core, count := FlattenArray(t); }
    CoreSized(std, t);
    var stride: u32;
    if IsMatrix(core) {
      WrapMul(Count(t), VectorCount(core, rowMajor));
      count := Wrap(count * VectorCount(core, rowMajor));
      stride := Rounded(std, VectorAlign(VectorOf(core, rowMajor)));
    } else if core.Struct? {
      stride := LayoutSize(std, core, rowMajor);
    } else {
      var a := BaseAlignment(std, core, rowMajor);
      stride := Rounded(std, a);
    }
    RepeatedSize(std, t, rowMajor, count, stride);
    size := Wrap(count * stride);
  }

  lemma RepeatedSize(std: Std, t: Type, rowMajor: bool, count: u32, stride: u32)
    requires Sized(std, t) && !IsVector(t) && !IsRecord(t) && Sized(std, Core(t))
    requires var core := Core(t);
             if IsMatrix(core) then
               && Count(t) * VectorCount(core, rowMajor) >= 0 && count == Wrap(Count(t) * VectorCount(core, rowMajor))
               && stride == Rounded(std, VectorAlign(VectorOf(core, rowMajor)))
             else
               && count == Wrap(Count(t))
               && (if core.Struct? then stride == Wrap(Size(std, core, rowMajor))
                   else stride == Rounded(std, Align(std, core, rowMajor)))
    ensures count * stride >= 0 && Wrap(count * stride) == Wrap(Size(std, t, rowMajor))
  {
    hide Wrap;
    var core := Core(t);
    if IsMatrix(core) {
      WrapMul(Count(t) * VectorCount(core, rowMajor), stride);
    } else {
      WrapMul(Count(t), stride);
      if core.Struct? { WrapMul(Size(std, core, rowMajor), Count(t)); }
    }
  }

  /** The loop over the fields of a structure or interface. */
  method LayoutRecord(std: Std, t: Type, rowMajor: bool) returns (size: u32)
    requires IsRecord(t) && FieldsSized(std, t)
    ensures size == Wrap(Size(std, t, rowMajor))
    decreases t, 0
  {
    hide AlignUp, AlignWord, Wrap, FieldRowMajor, Size, Align, Sized, WordUnit, Unit;
    size := 0;
    UnitIsWord(16);
    WrapSmall(0);
    var maxAlign := if std.Std140? then 16 else 0;
    for i := 0 to |t.fields|
      invariant size == Wrap(End(std, t, i, rowMajor)) && maxAlign == FieldsAlign(std, t, i, rowMajor)
    {
      var row := FieldRowMajor(t.fields[i], rowMajor);
      var a := BaseAlignment(std, t.fields[i].typ, row);
      var s := LayoutSize(std, t.fields[i].typ, row);
      UnitIsWord(a);
      AlignWordIs(End(std, t, i, rowMajor), a);
      WrapSum(AlignUp(End(std, t, i, rowMajor), a), Size(std, t.fields[i].typ, row));
      size := Wrap(AlignWord(size, a) + s);
      maxAlign := Max(maxAlign, a);
      if std.Std140? && t.fields[i].typ.Struct? && i + 1 < |t.fields| {
        AlignWordIs(AlignUp(End(std, t, i, rowMajor), a) + Size(std, t.fields[i].typ, row), 16);
        size := AlignWord(size, 16);
      }
    }
    UnitIsWord(maxAlign);
    AlignWordIs(End(std, t, |t.fields|, rowMajor), maxAlign);
    size := AlignWord(size, maxAlign);
    RecordSize(std, t, rowMajor);
  }

  lemma RecordSize(std: Std, t: Type, rowMajor: bool)
    requires IsRecord(t) && FieldsSized(std, t)
    ensures Size(std, t, rowMajor) == AlignUp(End(std, t, |t.fields|, rowMajor),
                                              FieldsAlign(std, t, |t.fields|, rowMajor))
  {
  }

  method ArrayStride(std: Std, elem: Type, rowMajor: bool) returns (stride: u32)
    requires Sized(std, elem)
    ensures stride == Wrap(Stride(std, elem, rowMajor))
  {
    if std.Std430? && IsVector(elem) && Rows(elem) == 3 { return 4 * ComponentOf(elem); }
    stride := LayoutSize(std, elem, rowMajor);
    if std.Std140? {
      AlignWordIs(Size(std, elem, rowMajor), 16);
      stride := AlignWord(stride, 16);
    }
  }

  method MakeExplicit(std: Std, t: Type, rowMajor: bool) returns (r: Type)
    requires Block(std, t)
    ensures r == Wrapped(Explicit(std, t, rowMajor))
    decreases t
  {
    if IsVector(t) { return t; }
    if IsMatrix(t) {
      var v := VectorOf(t, rowMajor);
      VectorStride(std, v, false);
      WrapSmall(Stride(std, v, false));
      var stride := ArrayStride(std, v, false);
      return Basic(t.base, t.rows, t.cols, stride, 0, rowMajor);
    }
    if t.Array? {
      var elem := MakeExplicit(std, t.elem, rowMajor);
      var stride := ArrayStride(std, t.elem, rowMajor);
      return Array(elem, t.length, stride);
    }
    var fields := PlaceFields(std, t, rowMajor);
    WrappedRecord(Explicit(std, t, rowMajor));
    if t.Struct? { return Struct(t.name, false, 0, fields); }
    return Interface(t.name, t.packing, t.rowMajor, fields);
  }

  /** The loop that makes the fields explicit and gives them offsets. */
  method PlaceFields(std: Std, t: Type, rowMajor: bool) returns (fields: seq<Member>)
    requires IsRecord(t) && FieldsSized(std, t)
    ensures fields == WrappedMembers(ExplicitFields(std, t, |t.fields|, rowMajor).0)
    decreases t, 0
  {
    hide AlignUp, AlignWord, Wrap, AsInt, FieldRowMajor, Size, Align, Sized, Explicit, ExplicitFields, Wrapped,
         SameKind, WordUnit, Unit;
    NoFieldsYet(std, t, rowMajor);
    WrapSmall(0);
    fields := [];
    var offset: u32 := 0;
    for i := 0 to |t.fields|
      invariant fields == WrappedMembers(ExplicitFields(std, t, i, rowMajor).0)
      invariant offset == Wrap(ExplicitFields(std, t, i, rowMajor).1)
    {
      var f, row := t.fields[i], FieldRowMajor(t.fields[i], rowMajor);
      OneMoreField(std, t, i + 1, rowMajor);
      ghost var e := Explicit(std, f.typ, row);
      ghost var next := if f.offset >= 0 then f.offset else ExplicitFields(std, t, i, rowMajor).1;
      ExplicitKind(std, f.typ, row);
      WrappedKeeps(std, e, row);
      var typ := MakeExplicit(std, f.typ, row);
      var size := LayoutSize(std, typ, row);
      var a := BaseAlignment(std, typ, row);
      if f.offset >= 0 { offset := Wrap(f.offset); }
      UnitIsWord(a);
      AlignWordIs(next, a);
      offset := AlignWord(offset, a);
      WrappedAppend(ExplicitFields(std, t, i, rowMajor).0, f.(typ := e, offset := AlignUp(next, a)));
      fields := fields + [Member(typ, AsInt(offset), f.rest)];
      WrapSum(AlignUp(next, a), Size(std, e, row));
      offset := Wrap(offset + size);
    }
  }

  /** glsl_get_explicit_size */
  method MeasureExplicit(t: Type, toStride: bool) returns (size: u32)
    requires Measurable(t) && InRange(t)
    ensures size == MeasuredWord(t, toStride)
    decreases t
  {
    if IsRecord(t) {
      size := 0;
      for i := 0 to |t.fields|
        invariant size == LastWord(t, i)
      {
        var s := MeasureExplicit(t.fields[i].typ, false);
        var last := Wrap(t.fields[i].offset + s);
        if size < last { size := last; }
      }
    } else if t.Array? {
      if t.length == 0 { return t.stride; }
      var last := t.stride;
      if !toStride { last := MeasureExplicit(t.elem, false); }
      size := Wrap(Spaced(t.length, t.stride, last));
    } else if IsMatrix(t) {
      var last := if toStride then t.stride else VectorBytes(VectorOf(t, t.rowMajor));
      size := Wrap(Spaced(VectorCount(t, t.rowMajor), t.stride, last));
    } else {
      size := Wrap(VectorBytes(t));
    }
  }

  /** glsl_get_cl_alignment */
  method OpenClAlignment(t: Type) returns (a: nat)
    ensures a == ClAlign(t)
    decreases t
  {
    if ClLeaf(t) { return LeafClSize(t); }
    if t.Array? {
      a := OpenClAlignment(t.elem);
    } else if t.Struct? && !t.packed {
      a := 1;
      for i := 0 to |t.fields|
        invariant a == ClFieldsAlign(t, i)
      {
        var b := OpenClAlignment(t.fields[i].typ);
        a := Max(a, b);
      }
    } else {
      a := 1;
    }
  }

  /** glsl_get_cl_size */
  method OpenClSize(t: Type) returns (size: u32)
    requires Stored(t)
    ensures size == Wrap(ClSize(t))
    decreases t
  {
    hide ClSize, LeafClSize, Wrap;
    ClSizeUnfolds(t);
    if ClLeaf(t) {
      LeafIsWord(t);
      WrapSmall(LeafClSize(t));
      return LeafClSize(t);
    }
    if t.Array? {
      size := OpenClSize(t.elem);
      WrapMul(ClSize(t.elem), t.length);
      size := Wrap(size * t.length);
    } else if t.Struct? {
      size := OpenClRecord(t);
    } else {
      WrapSmall(1);
      size := 1;
    }
  }

  lemma ClSizeUnfolds(t: Type)
    ensures ClLeaf(t) ==> ClSize(t) == LeafClSize(t)
    ensures t.Array? ==> ClSize(t.elem) * t.length >= 0 && ClSize(t) == ClSize(t.elem) * t.length
    ensures t.Struct? ==>
              ClSize(t) == AlignUp(ClEnd(t, |t.fields|), if t.packed then 1 else ClFieldsAlign(t, |t.fields|))
    ensures !ClLeaf(t) && !t.Array? && !t.Struct? ==> ClSize(t) == 1
  {
    hide AlignUp, LeafClSize;
  }

  /** The loop over the fields of a structure. */
  method OpenClRecord(t: Type) returns (size: u32)
    requires Stored(t) && t.Struct?
    ensures size == Wrap(ClSize(t))
    decreases t, 0
  {
    hide AlignUp, AlignWord, Wrap, ClSize, ClAlign, WordUnit;
    var maxAlign := 1;
    size := 0;
    WrapSmall(0);
    UnitIsWord(1);
    for i := 0 to |t.fields|
      invariant size == Wrap(ClEnd(t, i)) && maxAlign == if t.packed then 1 else ClFieldsAlign(t, i)
    {
      ghost var before := ClEnd(t, i);
      if !t.packed {
        var a := OpenClAlignment(t.fields[i].typ);
        maxAlign := Max(maxAlign, a);
        ClAlignIsWord(t.fields[i].typ);
        AlignWordIs(before, a);
        size := AlignWord(size, a);
        before := AlignUp(before, a);
      }
      var s := OpenClSize(t.fields[i].typ);
      WrapSum(before, ClSize(t.fields[i].typ));
      size := Wrap(size + s);
    }
    ClFieldsAlignIsWord(t, |t.fields|);
    AlignWordIs(ClEnd(t, |t.fields|), maxAlign);
    size := AlignWord(size, maxAlign);
    ClSizeUnfolds(t);
  }

  /** glsl_get_explicit_type_for_size_align */
  method LayBySizeAlign(t: Type, info: Type -> (nat, nat)) returns (r: Laid)
    requires Described(t) && Stored(t) && Fitting(info)
    ensures r == LaidWord(SizeAlign(t, info))
    decreases t
  {
    hide AlignUp, AlignWord, Wrap;
    if IsVector(t) {
      var (size, alignment) := info(t);
      WrapSmall(size);
      var typ := if t.Handle? || t.rows == 1 then t else Basic(t.base, t.rows, 1, 0, alignment, false);
      return Laid(typ, size, alignment);
    }
    if IsMatrix(t) {
      var v := VectorOf(t, false);
      var (size, alignment) := info(v);
      assert Stored(v);
      WrapSmall(size);
      AlignWordIs(size, alignment);
      var stride := AlignWord(size, alignment);
      WrapMul(AlignUp(size, alignment), t.cols);
      return Laid(Basic(t.base, t.rows, t.cols, stride, alignment, false), Wrap(stride * t.cols), alignment);
    }
    if t.Array? {
      var e := LayBySizeAlign(t.elem, info);
      ghost var l := SizeAlign(t.elem, info);
      LaidAlignIsWord(t.elem, info);
      AlignWordIs(l.size, l.align);
      var stride := AlignWord(e.size, e.align);
      RunWord(t.length, AlignUp(l.size, l.align), l.size);
      return Laid(Array(e.typ, t.length, stride), Wrap(stride * Wrap(t.length - 1) + e.size), e.align);
    }
    r := LayRecord(t, info);
  }

  method LayRecord(t: Type, info: Type -> (nat, nat)) returns (r: Laid)
    requires IsRecord(t) && Described(t) && Stored(t) && Fitting(info)
    ensures r == LaidWord(SizeAlign(t, info))
    decreases t, 0
  {
    hide AlignUp, AlignWord, Wrap, AsInt, SizeAlign, LaidFields, Wrapped, WordUnit, Described, Stored, SameKind;
    var fields, size, alignment := [], 0, 1;
    NothingLaid(t, info);
    for i := 0 to |t.fields|
      invariant fields == WrappedMembers(LaidFields(t, i, info).0)
      invariant size == Wrap(LaidFields(t, i, info).1) && alignment == LaidFields(t, i, info).2
    {
      var f := t.fields[i];
      FieldOk(t, i);
      OneMoreLaid(t, i, info);
      ghost var (before, end, _) := LaidFields(t, i, info);
      ghost var laid := SizeAlign(f.typ, info);
      var l := LayBySizeAlign(f.typ, info);
      var a := if Packed(t) then 1 else l.align;
      UnitIsWord(1);
      LaidAlignIsWord(f.typ, info);
      AlignWordIs(end, a);
      var at := AlignWord(size, a);
      WrappedAppend(before, f.(typ := laid.typ, offset := AlignUp(end, a)));
      fields := fields + [Member(l.typ, AsInt(at), f.rest)];
      WrapSum(AlignUp(end, a), laid.size);
      size, alignment := Wrap(at + l.size), Max(alignment, a);
    }
    LaidFieldsAlignIsWord(t, |t.fields|, info);
    AlignWordIs(LaidFields(t, |t.fields|, info).1, alignment);
    size := AlignWord(size, alignment);
    RecordLaidOut(t, info);
    WrappedRecord(SizeAlign(t, info).typ);
    r := Laid(if t.Struct? then Struct(t.name, t.packed, alignment, fields)
              else Interface(t.name, t.packing, t.rowMajor, fields),
              size, alignment);
  }

  lemma FieldOk(t: Type, k: nat)
    requires IsRecord(t) && Described(t) && Stored(t) && k < |t.fields|
    ensures Described(t.fields[k].typ) && Stored(t.fields[k].typ)
  {
  }

  lemma NothingLaid(t: Type, info: Type -> (nat, nat))
    requires IsRecord(t) && Described(t) && Describes(info)
    ensures LaidFields(t, 0, info) == ([], 0, 1) && Wrap(0) == 0
  {
  }

  /** One more field, written out. */
  lemma OneMoreLaid(t: Type, n: nat, info: Type -> (nat, nat))
    requires IsRecord(t) && Described(t) && Describes(info) && n < |t.fields|
    ensures var f := t.fields[n];
            && Described(f.typ)
            && var (before, end, align) := LaidFields(t, n, info);
               var l := SizeAlign(f.typ, info);
               var a := if Packed(t) then 1 else l.align;
               var at := AlignUp(end, a);
               LaidFields(t, n + 1, info) == (before + [f.(typ := l.typ, offset := at)], at + l.size, Max(align, a))
  {
    hide AlignUp, SizeAlign;
  }

  lemma RecordLaidOut(t: Type, info: Type -> (nat, nat))
    requires IsRecord(t) && Described(t) && Describes(info)
    ensures var (fields, end, align) := LaidFields(t, |t.fields|, info);
            SizeAlign(t, info) ==
            Laid(if t.Struct? then Struct(t.name, t.packed, align, fields)
                 else Interface(t.name, t.packing, t.rowMajor, fields),
                 AlignUp(end, align), align)
  {
    hide LaidFields, AlignUp, Sub;
  }
}
