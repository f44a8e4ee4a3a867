/**
 The types with explicit strides and offsets that glsl_get_explicit_std140_type and
 glsl_get_explicit_std430_type build.
 */
module ExplicitLayouts {
  import opened Products
  import opened Alignment
  import opened GlslTypes
  import opened TypeTrees
  import opened StdLayouts
  import opened Placement

  /** Same constructor, and same vector if it is one. */
  predicate SameKind(t: Type, r: Type) {
    && (IsVector(t) ==> r == t)
    && (IsVector(r) ==> IsVector(t))
    && (IsMatrix(t) <==> IsMatrix(r))
    && (t.Array? <==> r.Array?) && (t.Struct? <==> r.Struct?) && (t.Interface? <==> r.Interface?)
  }

  function Explicit(std: Std, t: Type, rowMajor: bool): (r: Type)
    requires Block(std, t)
    ensures Block(std, r) && SameKind(t, r)
    decreases t, 1
  {
    if IsVector(t) then t
    else if IsMatrix(t) then
      Basic(t.base, t.rows, t.cols, Stride(std, VectorOf(t, rowMajor), false), 0, rowMajor)
    else if t.Array? then Array(Explicit(std, t.elem, rowMajor), t.length, Stride(std, t.elem, rowMajor))
    else
      var fields := ExplicitFields(std, t, |t.fields|, rowMajor).0;
      if t.Struct? then Struct(t.name, false, 0, fields) else Interface(t.name, t.packing, t.rowMajor, fields)
  }

  /** The first `n` fields, and the first offset after them. */
  function ExplicitFields(std: Std, t: Type, n: nat, rowMajor: bool): (r: (seq<Member>, nat))
    requires IsRecord(t) && FieldsSized(std, t) && n <= |t.fields|
    ensures |r.0| == n
    ensures forall k :: 0 <= k < n ==>
              && r.0[k].rest == t.fields[k].rest
              && r.0[k].typ == Explicit(std, t.fields[k].typ, FieldRowMajor(t.fields[k], rowMajor))
    decreases t, 0, n
  {
    if n == 0 then ([], 0)
    else
      var (before, next) := ExplicitFields(std, t, n - 1, rowMajor);
      var f := t.fields[n - 1];
      var row := FieldRowMajor(f, rowMajor);
      var typ := Explicit(std, f.typ, row);
      var at := AlignUp(if f.offset >= 0 then f.offset else next, Align(std, typ, row));
      (before + [f.(typ := typ, offset := at)], at + Size(std, typ, row))
  }

  // ------------------------------------------------- what making a type explicit keeps

  /** Making a type explicit changes neither its size nor its alignment. */
  lemma {:induction false} ExplicitKeeps(std: Std, t: Type, rowMajor: bool)
    requires Block(std, t)
    ensures Size(std, Explicit(std, t, rowMajor), rowMajor) == Size(std, t, rowMajor)
    ensures Sized(std, t) ==> Align(std, Explicit(std, t, rowMajor), rowMajor) == Align(std, t, rowMajor)
    decreases t, 1
  {
    var r := Explicit(std, t, rowMajor);
    if t.Array? {
      ExplicitKeeps(std, t.elem, rowMajor);
      SizeOfArray(std, t.elem, t.length, t.stride, rowMajor);
      SizeOfArray(std, r.elem, r.length, r.stride, rowMajor);
    } else if IsRecord(t) {
      FieldsKeep(std, t, |t.fields|, rowMajor);
    }
  }

  /** An explicit record has the same fields, made explicit. */
  lemma ExplicitRecord(std: Std, t: Type, rowMajor: bool)
    requires IsRecord(t) && FieldsSized(std, t)
    ensures var r := Explicit(std, t, rowMajor);
            && IsRecord(r) && FieldsSized(std, r) && |r.fields| == |t.fields|
            && r.fields == ExplicitFields(std, t, |t.fields|, rowMajor).0
  {
  }

  lemma {:induction false} FieldsKeep(std: Std, t: Type, n: nat, rowMajor: bool)
    requires IsRecord(t) && FieldsSized(std, t) && n <= |t.fields|
    ensures var r := Explicit(std, t, rowMajor);
            && FieldsAlign(std, r, n, rowMajor) == FieldsAlign(std, t, n, rowMajor)
            && End(std, r, n, rowMajor) == End(std, t, n, rowMajor)
    decreases t, 0, n
  {
    hide Explicit, ExplicitFields, Size, Align, AlignUp, Sub, SameKind, Sized, FieldsAlign, End;
    RecordBlock(std, t);
    ExplicitRecord(std, t, rowMajor);
    if n == 0 { NoFieldsSame(std, t, Explicit(std, t, rowMajor), rowMajor); }
    if n > 0 {
      FieldsKeep(std, t, n - 1, rowMajor);
      var r := Explicit(std, t, rowMajor);
      var f, g := t.fields[n - 1], r.fields[n - 1];
      var row := FieldRowMajor(f, rowMajor);
      assert g.typ == Explicit(std, f.typ, row) && FieldRowMajor(g, rowMajor) == row;
      ExplicitKind(std, f.typ, row);
      ExplicitKeeps(std, f.typ, row);
      SameStep(std, t, r, n, rowMajor);
    }
  }

  lemma NoFieldsSame(std: Std, t: Type, r: Type, rowMajor: bool)
    requires IsRecord(t) && FieldsSized(std, t) && IsRecord(r) && FieldsSized(std, r)
    ensures FieldsAlign(std, r, 0, rowMajor) == FieldsAlign(std, t, 0, rowMajor)
            && End(std, r, 0, rowMajor) == End(std, t, 0, rowMajor)
  {
  }

  /** One more field that takes the same room leaves alignment and running size the same. */
  lemma SameStep(std: Std, t: Type, r: Type, n: nat, rowMajor: bool)
    requires IsRecord(t) && FieldsSized(std, t) && IsRecord(r) && FieldsSized(std, r)
    requires 0 < n <= |t.fields| == |r.fields|
    requires FieldsAlign(std, r, n - 1, rowMajor) == FieldsAlign(std, t, n - 1, rowMajor)
    requires End(std, r, n - 1, rowMajor) == End(std, t, n - 1, rowMajor)
    requires var f, g, row := t.fields[n - 1], r.fields[n - 1], FieldRowMajor(t.fields[n - 1], rowMajor);
             && FieldRowMajor(g, rowMajor) == row && f.typ.Struct? == g.typ.Struct?
             && Align(std, g.typ, row) == Align(std, f.typ, row) && Size(std, g.typ, row) == Size(std, f.typ, row)
    ensures FieldsAlign(std, r, n, rowMajor) == FieldsAlign(std, t, n, rowMajor)
    ensures End(std, r, n, rowMajor) == End(std, t, n, rowMajor)
  {
    hide Size, Align, AlignUp, FieldRowMajor;
  }

  lemma ExplicitKind(std: Std, t: Type, rowMajor: bool)
    requires Sized(std, t)
    ensures Sized(std, Explicit(std, t, rowMajor)) && Explicit(std, t, rowMajor).Struct? == t.Struct?
  {
  }

  // ------------------------------------------------- asserts on strides

  /** No stride is set anywhere. */
  predicate Plain(t: Type)
    decreases t
  {
    match t
    case Basic(_, _, _, stride, _, _) => stride == 0
    case Array(elem, _, stride) => stride == 0 && Plain(elem)
    case Struct(_, _, _, fields) => forall k :: 0 <= k < |fields| ==> Plain(fields[k].typ)
    case Interface(_, _, _, fields) => forall k :: 0 <= k < |fields| ==> Plain(fields[k].typ)
    case _ => true
  }

  /** The asserts on explicit strides that computing the size meets. */
  predicate SizeAsserts(std: Std, t: Type, rowMajor: bool)
    requires Block(std, t)
    decreases t
  {
    if IsRecord(t) then
      forall k :: 0 <= k < |t.fields| ==> SizeAsserts(std, t.fields[k].typ, FieldRowMajor(t.fields[k], rowMajor))
    else
      CoreSized(std, t);
      && (t.Array? && !IsMatrix(Core(t)) ==> t.stride == 0 || Size(std, t, rowMajor) == t.length * t.stride)
      && (t.Array? && Core(t).Struct? ==> SizeAsserts(std, Core(t), rowMajor))
  }

  /** The asserts that computing an array stride meets. */
  predicate StrideAsserts(std: Std, elem: Type, rowMajor: bool)
    requires Sized(std, elem)
  {
    if std.Std140? then SizeAsserts(std, elem, rowMajor)
    else if IsVector(elem) && Rows(elem) == 3 then true
    else
      && SizeAsserts(std, elem, rowMajor)
      && (match elem
          case Basic(_, _, _, stride, _, _) => stride == 0 || stride == Size(std, elem, rowMajor)
          case Array(_, _, stride) => stride == 0 || stride == Size(std, elem, rowMajor)
          case _ => true)
  }

  /** The asserts on strides that making a type explicit meets. */
  predicate ExplicitAsserts(std: Std, t: Type, rowMajor: bool)
    requires Block(std, t)
    decreases t
  {
    if IsRecord(t) then
      forall k :: 0 <= k < |t.fields| ==>
        var row := FieldRowMajor(t.fields[k], rowMajor);
        ExplicitAsserts(std, t.fields[k].typ, row) && SizeAsserts(std, Explicit(std, t.fields[k].typ, row), row)
    else t.Array? ==> ExplicitAsserts(std, t.elem, rowMajor) && StrideAsserts(std, t.elem, rowMajor)
  }

  lemma {:induction false} CorePlain(t: Type)
    requires Plain(t)
    ensures Plain(Core(t))
  {
    if t.Array? { CorePlain(t.elem); }
  }

  lemma {:induction false} PlainSize(std: Std, t: Type, rowMajor: bool)
    requires Block(std, t) && Plain(t)
    ensures SizeAsserts(std, t, rowMajor)
    decreases t
  {
    if IsRecord(t) {
      forall k | 0 <= k < |t.fields| ensures SizeAsserts(std, t.fields[k].typ, FieldRowMajor(t.fields[k], rowMajor)) {
        PlainSize(std, t.fields[k].typ, FieldRowMajor(t.fields[k], rowMajor));
      }
    } else {
      CorePlain(t);
      CoreSized(std, t);
      if t.Array? && Core(t).Struct? { PlainSize(std, Core(t), rowMajor); }
    }
  }

  lemma {:induction false} CoreExplicit(std: Std, t: Type, rowMajor: bool)
    requires Sized(std, t)
    ensures Sized(std, Core(t)) && Core(Explicit(std, t, rowMajor)) == Explicit(std, Core(t), rowMajor)
  {
    if t.Array? { CoreExplicit(std, t.elem, rowMajor); }
  }

  /** Strides that were made explicit agree with the sizes. */
  lemma {:induction false} ExplicitSizeAsserts(std: Std, t: Type, rowMajor: bool)
    requires Block(std, t)
    ensures SizeAsserts(std, Explicit(std, t, rowMajor), rowMajor)
    decreases t
  {
    var r := Explicit(std, t, rowMajor);
    if IsRecord(t) {
      forall k | 0 <= k < |r.fields| ensures SizeAsserts(std, r.fields[k].typ, FieldRowMajor(r.fields[k], rowMajor)) {
        ExplicitSizeAsserts(std, t.fields[k].typ, FieldRowMajor(t.fields[k], rowMajor));
      }
    } else if t.Array? {
      CoreSized(std, t);
      CoreExplicit(std, t, rowMajor);
      ExplicitKeeps(std, t, rowMajor);
      SizeOfArray(std, t.elem, t.length, t.stride, rowMajor);
      if Core(t).Struct? { ExplicitSizeAsserts(std, Core(t), rowMajor); }
    }
  }

  /** On types without explicit strides no assert about strides ever fires. */
  lemma {:induction false} AssertsNeverFire(std: Std, t: Type, rowMajor: bool)
    requires Block(std, t) && Plain(t)
    ensures ExplicitAsserts(std, t, rowMajor)
    decreases t
  {
    if IsRecord(t) {
      forall k | 0 <= k < |t.fields|
        ensures var row := FieldRowMajor(t.fields[k], rowMajor);
                ExplicitAsserts(std, t.fields[k].typ, row) && SizeAsserts(std, Explicit(std, t.fields[k].typ, row), row)
      {
        AssertsNeverFire(std, t.fields[k].typ, FieldRowMajor(t.fields[k], rowMajor));
        ExplicitSizeAsserts(std, t.fields[k].typ, FieldRowMajor(t.fields[k], rowMajor));
      }
    } else if t.Array? {
      AssertsNeverFire(std, t.elem, rowMajor);
      PlainSize(std, t.elem, rowMajor);
    }
  }

  // ------------------------------------------------- offsets

  /** The assert on declared offsets: none goes back behind the fields before it. */
  predicate OffsetsMeet(std: Std, t: Type, rowMajor: bool)
    requires IsRecord(t) && FieldsSized(std, t)
  {
    forall k :: 0 <= k < |t.fields| ==>
      t.fields[k].offset < 0 || t.fields[k].offset >= ExplicitFields(std, t, k, rowMajor).1
  }

  lemma NoFieldsYet(std: Std, t: Type, rowMajor: bool)
    requires IsRecord(t) && FieldsSized(std, t)
    ensures ExplicitFields(std, t, 0, rowMajor) == ([], 0) && End(std, t, 0, rowMajor) == 0
  {
  }

  /** One more field, written out. */
  lemma OneMoreField(std: Std, t: Type, n: nat, rowMajor: bool)
    requires IsRecord(t) && FieldsSized(std, t) && 0 < n <= |t.fields|
    ensures var f, before := t.fields[n - 1], ExplicitFields(std, t, n - 1, rowMajor);
            var row := FieldRowMajor(f, rowMajor);
            var typ := Explicit(std, f.typ, row);
            && Sized(std, typ)
            && var at := AlignUp(if f.offset >= 0 then f.offset else before.1, Align(std, typ, row));
               ExplicitFields(std, t, n, rowMajor) == (before.0 + [Member(typ, at, f.rest)], at + Size(std, typ, row))
  {
    hide Size, Align, AlignUp, FieldRowMajor, Explicit;
    ExplicitKind(std, t.fields[n - 1].typ, FieldRowMajor(t.fields[n - 1], rowMajor));
  }

  /** Growing the prefix does not change what was laid out. */
  lemma {:induction false} FieldAt(std: Std, t: Type, n: nat, k: nat, rowMajor: bool)
    requires IsRecord(t) && FieldsSized(std, t) && k < n <= |t.fields|
    ensures ExplicitFields(std, t, n, rowMajor).0[k] == ExplicitFields(std, t, k + 1, rowMajor).0[k]
  {
    hide Explicit, Size, Align, AlignUp, FieldRowMajor, Sized;
    if k + 1 < n { FieldAt(std, t, n - 1, k, rowMajor); }
  }

  /** Where one field of an explicit record is. */
  lemma FieldPlace(std: Std, t: Type, k: nat, rowMajor: bool)
    requires IsRecord(t) && FieldsSized(std, t) && k < |t.fields|
    ensures var f, row := t.fields[k], FieldRowMajor(t.fields[k], rowMajor);
            var next := ExplicitFields(std, t, k, rowMajor).1;
            var at := Explicit(std, t, rowMajor).fields[k].offset;
            && at == AlignUp(if f.offset >= 0 then f.offset else next, Align(std, f.typ, row))
            && ExplicitFields(std, t, k + 1, rowMajor).1 == at + Size(std, f.typ, row)
  {
    hide Size, Align, AlignUp, FieldRowMajor, Explicit, Sized;
    RecordBlock(std, t);
    ExplicitRecord(std, t, rowMajor);
    ExplicitKind(std, t.fields[k].typ, FieldRowMajor(t.fields[k], rowMajor));
    FieldAt(std, t, |t.fields|, k, rowMajor);
    ExplicitKeeps(std, t.fields[k].typ, FieldRowMajor(t.fields[k], rowMajor));
  }

  /** Every field is at a multiple of its alignment. */
  lemma FieldAligned(std: Std, t: Type, k: nat, rowMajor: bool)
    requires IsRecord(t) && FieldsSized(std, t) && k < |t.fields|
    ensures var f := t.fields[k];
            Explicit(std, t, rowMajor).fields[k].offset % Align(std, f.typ, FieldRowMajor(f, rowMajor)) == 0
  {
    hide AlignUp, Size, Align, Explicit, ExplicitFields, FieldRowMajor, Sized;
    RecordBlock(std, t);
    var f := t.fields[k];
    FieldPlace(std, t, k, rowMajor);
    AlignUpIs(if f.offset >= 0 then f.offset else ExplicitFields(std, t, k, rowMajor).1,
              Align(std, f.typ, FieldRowMajor(f, rowMajor)));
  }

  /** Where the declared offsets meet the assert, a field starts at or after what came before. */
  lemma NextField(std: Std, t: Type, k: nat, rowMajor: bool)
    requires IsRecord(t) && FieldsSized(std, t) && k < |t.fields|
    requires t.fields[k].offset < 0 || t.fields[k].offset >= ExplicitFields(std, t, k, rowMajor).1
    ensures var at := Explicit(std, t, rowMajor).fields[k].offset;
            && ExplicitFields(std, t, k, rowMajor).1 <= at
            && ExplicitFields(std, t, k + 1, rowMajor).1
               == at + Size(std, t.fields[k].typ, FieldRowMajor(t.fields[k], rowMajor))
  {
    hide AlignUp, Size, Align, Explicit, ExplicitFields, FieldRowMajor, Sized;
    RecordBlock(std, t);
    var f := t.fields[k];
    FieldPlace(std, t, k, rowMajor);
    AlignUpIs(if f.offset >= 0 then f.offset else ExplicitFields(std, t, k, rowMajor).1,
              Align(std, f.typ, FieldRowMajor(f, rowMajor)));
  }

  /** Where the declared offsets meet the assert, fields are in order and do not overlap. */
  lemma {:induction false} FieldsInOrder(std: Std, t: Type, i: nat, j: nat, rowMajor: bool)
    requires IsRecord(t) && FieldsSized(std, t) && i < j < |t.fields| && OffsetsMeet(std, t, rowMajor)
    ensures var r := Explicit(std, t, rowMajor);
            && 0 <= r.fields[i].offset
            && r.fields[i].offset + Size(std, t.fields[i].typ, FieldRowMajor(t.fields[i], rowMajor))
               <= r.fields[j].offset
    decreases j
  {
    hide AlignUp, Size, Align, Explicit, ExplicitFields, FieldRowMajor, Sized;
    RecordBlock(std, t);
    NextField(std, t, i, rowMajor);
    NextField(std, t, j, rowMajor);
    if i + 1 < j {
      FieldsInOrder(std, t, i, j - 1, rowMajor);
      NextField(std, t, j - 1, rowMajor);
    }
  }

  /** No field of the record declares an offset. */
  predicate NoOffsets(t: Type)
    requires IsRecord(t)
  {
    forall k :: 0 <= k < |t.fields| ==> t.fields[k].offset < 0
  }

  /** Without declared offsets the layout follows the running size. */
  lemma {:induction false} NextIsEnd(std: Std, t: Type, n: nat, rowMajor: bool)
    requires IsRecord(t) && FieldsSized(std, t) && n <= |t.fields| && NoOffsets(t)
    ensures ExplicitFields(std, t, n, rowMajor).1 == End(std, t, n, rowMajor)
  {
    hide Explicit, ExplicitFields, Size, Align, AlignUp, FieldRowMajor, End;
    if n == 0 {
      NoFieldsYet(std, t, rowMajor);
    } else {
      NextIsEnd(std, t, n - 1, rowMajor);
      var f := t.fields[n - 1];
      var row := FieldRowMajor(f, rowMajor);
      ExplicitKeeps(std, f.typ, row);
      OneMoreField(std, t, n, rowMajor);
      OneMoreEnd(std, t, n, rowMajor);
      if std.Std140? && f.typ.Struct? {
        StructEndsRounded(End(std, t, n - 1, rowMajor), f.typ, row);
      }
    }
  }

  lemma OneMoreEnd(std: Std, t: Type, n: nat, rowMajor: bool)
    requires IsRecord(t) && FieldsSized(std, t) && 0 < n <= |t.fields|
    ensures var f, row := t.fields[n - 1], FieldRowMajor(t.fields[n - 1], rowMajor);
            var e := AlignUp(End(std, t, n - 1, rowMajor), Align(std, f.typ, row)) + Size(std, f.typ, row);
            End(std, t, n, rowMajor) == if std.Std140? && f.typ.Struct? && n < |t.fields| then AlignUp(e, 16) else e
  {
    hide Size, Align, AlignUp, FieldRowMajor;
  }

  /** Rounding to 16 after a structure changes nothing. */
  lemma StructEndsRounded(v: nat, s: Type, rowMajor: bool)
    requires Sized(Std140, s) && s.Struct?
    ensures var e := AlignUp(v, Align(Std140, s, rowMajor)) + Size(Std140, s, rowMajor);
            AlignUp(e, 16) == e
  {
    hide AlignUp, Size, Align;
    var a := Align(Std140, s, rowMajor);
    AlignUpIs(v, a);
    UnitDivides(AlignUp(v, a), 16, a);
    SizeMultiple(s, rowMajor);
    SumOfMultiples(AlignUp(v, a), Size(Std140, s, rowMajor), 16);
    AlignUpFixed(AlignUp(v, a) + Size(Std140, s, rowMajor), 16);
  }

  // ------------------------------------------------- the explicit type in memory

  /** No offset is declared anywhere. */
  predicate Undeclared(t: Type)
    decreases t
  {
    match t
    case Array(elem, _, _) => Undeclared(elem)
    case Struct(_, _, _, fields) => forall k :: 0 <= k < |fields| ==> fields[k].offset < 0 && Undeclared(fields[k].typ)
    case Interface(_, _, _, fields) =>
      forall k :: 0 <= k < |fields| ==> fields[k].offset < 0 && Undeclared(fields[k].typ)
    case _ => true
  }

  lemma VectorFits(std: Std, v: Type)
    requires Sized(std, v) && IsVector(v)
    ensures VectorBytes(v) <= Size(std, v, false) <= Stride(std, v, false)
  {
    if v.Basic? { MulMono(v.rows, Bytes(v.base), Component(v.base)); }
  }

  lemma SizeFitsStride(std: Std, t: Type, rowMajor: bool)
    requires Sized(std, t)
    ensures Size(std, t, rowMajor) <= Stride(std, t, rowMajor)
  {
    hide AlignUp;
    AlignUpIs(Size(std, t, rowMajor), 16);
  }

  lemma SpacedFits(n: nat, stride: nat, last: nat)
    requires n > 0 && last <= stride
    ensures Spaced(n, stride, last) <= n * stride
  {
    MulAdd(stride, n - 1, 1);
  }

  /** The explicit type is well laid and ends within the size of the layout. */
  predicate Fits(std: Std, t: Type, rowMajor: bool)
    requires Block(std, t)
  {
    var r := Explicit(std, t, rowMajor);
    && Measurable(r) && WellLaid(r)
    && ExplicitSize(r, false) <= Size(std, t, rowMajor)
    && ExplicitSize(r, true) <= Size(std, t, rowMajor)
  }

  /** Without declared offsets the last byte, as glsl_get_explicit_size measures it, is within the size. */
  lemma {:induction false} ExplicitFits(std: Std, t: Type, rowMajor: bool)
    requires Block(std, t) && Undeclared(t)
    ensures Fits(std, t, rowMajor)
    decreases t
  {
    if IsMatrix(t) {
      MatrixFits(std, t, rowMajor);
    } else if t.Array? {
      ExplicitFits(std, t.elem, rowMajor);
      ArrayFits(std, t, rowMajor);
    } else if IsRecord(t) {
      forall k | 0 <= k < |t.fields| ensures Fits(std, t.fields[k].typ, FieldRowMajor(t.fields[k], rowMajor)) {
        ExplicitFits(std, t.fields[k].typ, FieldRowMajor(t.fields[k], rowMajor));
      }
      RecordFits(std, t, rowMajor);
    } else {
      VectorFits(std, t);
    }
  }

  lemma MatrixSize(std: Std, t: Type, rowMajor: bool)
    requires Sized(std, t) && IsMatrix(t)
    ensures Size(std, t, rowMajor) == VectorCount(t, rowMajor) * Rounded(std, VectorAlign(VectorOf(t, rowMajor)))
  {
    assert Count(t) * VectorCount(t, rowMajor) == VectorCount(t, rowMajor);
  }

  lemma MatrixFits(std: Std, t: Type, rowMajor: bool)
    requires Sized(std, t) && IsMatrix(t)
    ensures Fits(std, t, rowMajor)
  {
    hide Size, Align, Stride, Rounded, VectorAlign, Bytes, Component, VectorBytes, AlignUp;
    var v, n := VectorOf(t, rowMajor), VectorCount(t, rowMajor);
    VectorFits(std, v);
    VectorStride(std, v, false);
    MatrixSize(std, t, rowMajor);
    SpacedFits(n, Stride(std, v, false), VectorBytes(v));
    SpacedFits(n, Stride(std, v, false), Stride(std, v, false));
  }

  lemma ArrayFits(std: Std, t: Type, rowMajor: bool)
    requires Sized(std, t) && t.Array? && Fits(std, t.elem, rowMajor)
    ensures Fits(std, t, rowMajor)
  {
    hide Size, Stride;
    SizeFitsStride(std, t.elem, rowMajor);
    var stride := Stride(std, t.elem, rowMajor);
    SizeOfArray(std, t.elem, t.length, t.stride, rowMajor);
    SpacedFits(t.length, stride, ExplicitSize(Explicit(std, t.elem, rowMajor), false));
    SpacedFits(t.length, stride, stride);
  }

  predicate FieldsFit(std: Std, t: Type, rowMajor: bool)
    requires IsRecord(t) && FieldsSized(std, t)
  {
    forall k :: 0 <= k < |t.fields| ==> Fits(std, t.fields[k].typ, FieldRowMajor(t.fields[k], rowMajor))
  }

  lemma FieldFits(std: Std, t: Type, k: nat, rowMajor: bool)
    requires IsRecord(t) && FieldsSized(std, t) && FieldsFit(std, t, rowMajor) && k < |t.fields|
    requires t.fields[k].offset < 0 || t.fields[k].offset >= ExplicitFields(std, t, k, rowMajor).1
    ensures var f := Explicit(std, t, rowMajor).fields[k];
            && Measurable(f.typ) && WellLaid(f.typ) && ExplicitFields(std, t, k, rowMajor).1 <= f.offset
            && f.offset + ExplicitSize(f.typ, false) <= ExplicitFields(std, t, k + 1, rowMajor).1
  {
    hide Size, Align, AlignUp, Explicit, ExplicitFields, FieldRowMajor, Measurable, WellLaid, ExplicitSize, Sized;
    RecordBlock(std, t);
    NextField(std, t, k, rowMajor);
    ExplicitRecord(std, t, rowMajor);
    var row := FieldRowMajor(t.fields[k], rowMajor);
    assert Fits(std, t.fields[k].typ, row);
    assert Explicit(std, t, rowMajor).fields[k].typ == Explicit(std, t.fields[k].typ, row);
  }

  /** A record whose declared offsets meet the assert is well laid if its fields are. */
  lemma RecordWellLaid(std: Std, t: Type, rowMajor: bool)
    requires IsRecord(t) && FieldsSized(std, t) && FieldsFit(std, t, rowMajor) && OffsetsMeet(std, t, rowMajor)
    ensures var r := Explicit(std, t, rowMajor); Measurable(r) && WellLaid(r)
  {
    hide Size, Align, AlignUp, Explicit, ExplicitFields, Sub, FieldsFit, FieldRowMajor, ExplicitSize, Sized,
         OffsetsMeet, Measurable, WellLaid;
    RecordBlock(std, t);
    ExplicitRecord(std, t, rowMajor);
    var r := Explicit(std, t, rowMajor);
    forall k | 0 <= k < |r.fields|
      ensures r.fields[k].offset >= 0 && Measurable(r.fields[k].typ) && WellLaid(r.fields[k].typ)
    {
      OffsetMeets(std, t, k, rowMajor);
      FieldFits(std, t, k, rowMajor);
    }
    forall k | 0 < k < |r.fields|
      ensures r.fields[k - 1].offset + ExplicitSize(r.fields[k - 1].typ, false) <= r.fields[k].offset
    {
      OffsetMeets(std, t, k - 1, rowMajor);
      OffsetMeets(std, t, k, rowMajor);
      FieldFits(std, t, k - 1, rowMajor);
      FieldFits(std, t, k, rowMajor);
    }
    WellLaidRecord(r);
  }

  lemma WellLaidRecord(r: Type)
    requires IsRecord(r)
    requires forall k :: 0 <= k < |r.fields| ==>
               r.fields[k].offset >= 0 && Measurable(r.fields[k].typ) && WellLaid(r.fields[k].typ)
    requires forall k :: 0 < k < |r.fields| ==>
               r.fields[k - 1].offset + ExplicitSize(r.fields[k - 1].typ, false) <= r.fields[k].offset
    ensures Measurable(r) && WellLaid(r)
  {
    hide ExplicitSize;
  }

  lemma {:induction false} LastByteFits(std: Std, t: Type, n: nat, rowMajor: bool)
    requires IsRecord(t) && FieldsSized(std, t) && FieldsFit(std, t, rowMajor) && OffsetsMeet(std, t, rowMajor)
    requires n <= |t.fields| && Measurable(Explicit(std, t, rowMajor))
    ensures LastByte(Explicit(std, t, rowMajor), n) <= ExplicitFields(std, t, n, rowMajor).1
  {
    hide Size, Align, AlignUp, Explicit, ExplicitFields, Sub, FieldsFit, FieldRowMajor, ExplicitSize, WellLaid,
         LastByte, Measurable,
         Sized, OffsetsMeet;
    RecordBlock(std, t);
    ExplicitRecord(std, t, rowMajor);
    if n == 0 {
      NoFields(Explicit(std, t, rowMajor), 0);
    } else {
      LastByteFits(std, t, n - 1, rowMajor);
      OffsetMeets(std, t, n - 1, rowMajor);
      FieldFits(std, t, n - 1, rowMajor);
      NextByteFits(Explicit(std, t, rowMajor), n, ExplicitFields(std, t, n - 1, rowMajor).1,
                   ExplicitFields(std, t, n, rowMajor).1);
    }
  }

  lemma OffsetMeets(std: Std, t: Type, k: nat, rowMajor: bool)
    requires IsRecord(t) && FieldsSized(std, t) && OffsetsMeet(std, t, rowMajor) && k < |t.fields|
    ensures t.fields[k].offset < 0 || t.fields[k].offset >= ExplicitFields(std, t, k, rowMajor).1
  {
    hide ExplicitFields, FieldsSized;
  }

  lemma NextByteFits(r: Type, n: nat, before: int, after: int)
    requires IsRecord(r) && Measurable(r) && 0 < n <= |r.fields|
             && LastByte(r, n - 1) <= before <= r.fields[n - 1].offset
    requires r.fields[n - 1].offset + ExplicitSize(r.fields[n - 1].typ, false) <= after
    ensures LastByte(r, n) <= after
  {
    hide ExplicitSize, Measurable, LastByte;
    NextByte(r, n);
  }

  lemma RecordFits(std: Std, t: Type, rowMajor: bool)
    requires IsRecord(t) && FieldsSized(std, t) && NoOffsets(t) && FieldsFit(std, t, rowMajor)
    ensures Fits(std, t, rowMajor)
  {
    hide Align, AlignUp, Explicit, ExplicitFields, Sub, FieldsFit, FieldRowMajor, WellLaid, Measurable, LastByte, End;
    var n := |t.fields|;
    ExplicitRecord(std, t, rowMajor);
    RecordWellLaid(std, t, rowMajor);
    LastByteFits(std, t, n, rowMajor);
    NextIsEnd(std, t, n, rowMajor);
    AlignUpIs(End(std, t, n, rowMajor), FieldsAlign(std, t, n, rowMajor));
  }

  /**
   Without declared offsets no two scalars or vectors of a type share a byte, and all of them
   lie within its size.
   */
  lemma LayoutNoOverlap(std: Std, t: Type, rowMajor: bool, at: int)
    requires Block(std, t) && Undeclared(t)
    ensures var r := Explicit(std, t, rowMajor);
            Measurable(r) && Ordered(Extents(r, at), at, at + Size(std, t, rowMajor))
  {
    hide Extents, Size, Align, AlignUp, Explicit, Undeclared, Sized;
    ExplicitFits(std, t, rowMajor);
    NoOverlap(Explicit(std, t, rowMajor), at);
  }

  /** The same for a record whose fields are well laid and whose declared offsets meet the assert. */
  lemma BlockNoOverlap(std: Std, t: Type, rowMajor: bool, at: int)
    requires IsRecord(t) && FieldsSized(std, t) && OffsetsMeet(std, t, rowMajor) && FieldsFit(std, t, rowMajor)
    ensures var r := Explicit(std, t, rowMajor);
            Measurable(r) && Ordered(Extents(r, at), at, at + ExplicitSize(r, false))
  {
    hide Extents, Size, Align, AlignUp, Explicit, Fits, ExplicitSize, FieldRowMajor, FieldsFit;
    RecordWellLaid(std, t, rowMajor);
    NoOverlap(Explicit(std, t, rowMajor), at);
  }

  /** A float without field qualifiers. */
  function FloatAt(offset: int): (m: Member) {
    Member(Basic(Float, 1, 1, 0, 0, false), offset, Field(Null, [], 0, 0, 0, 0, 0, 0, 0))
  }

  /** A structure whose only field is declared at offset `at`, and a block where a float follows it. */
  function Nested(at: nat): (t: Type) {
    Struct([], false, 0, [FloatAt(at)])
  }

  function Nesting(at: nat): (t: Type) {
    Interface([], 0, false, [FloatAt(-1).(typ := Nested(at)), FloatAt(-1)])
  }

  lemma FloatFacts(offset: int)
    ensures var f := FloatAt(offset);
            && Sized(Std140, f.typ) && Size(Std140, f.typ, false) == 4 && Align(Std140, f.typ, false) == 4
            && !FieldRowMajor(f, false) && Measurable(f.typ) && ExplicitSize(f.typ, false) == 4
            && Explicit(Std140, f.typ, false) == f.typ
  {
  }

  lemma NestedSize(at: nat)
    ensures var t := Nested(at); Sized(Std140, t) && Size(Std140, t, false) == 16 && Align(Std140, t, false) == 16
  {
    hide AlignUp, FloatAt, FieldRowMajor;
    FloatFacts(at);
    AlignUpFixed(0, 4);
    AlignUpIs(4, 16);
    var t := Nested(at);
    assert FieldsAlign(Std140, t, 0, false) == 16 && End(Std140, t, 0, false) == 0;
    assert FieldsAlign(Std140, t, 1, false) == 16 && End(Std140, t, 1, false) == 4;
  }

  lemma NestedPlaced(at: nat)
    requires at % 4 == 0
    ensures var t := Nested(at); Sized(Std140, t) && Explicit(Std140, t, false) == t && OffsetsMeet(Std140, t, false)
    ensures Measurable(Nested(at)) && Extents(Nested(at), 0) == [Extent(at, 4)]
  {
    hide AlignUp, FieldRowMajor, Size, Align, ExplicitFields;
    var t := Nested(at);
    FloatFacts(at);
    AlignUpFixed(at, 4);
    NoFieldsYet(Std140, t, false);
    FieldPlace(Std140, t, 0, false);
    ExplicitRecord(Std140, t, false);
    assert Explicit(Std140, t, false).fields == t.fields;
    NextExtents(t, 1, 0);
    NoFields(t, 0);
  }

  /** The size of the nested structure ignores where its field was declared. */
  lemma NestedExtents(at: nat)
    requires at % 4 == 0
    ensures Block(Std140, Nesting(at))
    ensures OffsetsMeet(Std140, Nested(at), false) && OffsetsMeet(Std140, Nesting(at), false)
    ensures var r := Explicit(Std140, Nesting(at), false);
            Measurable(r) && Extents(r, 0) == [Extent(at, 4), Extent(16, 4)]
  {
    hide AlignUp, Size, Align, ExplicitFields, Explicit, Extents, OffsetsMeet, Nested, FieldRowMajor, FieldExtents;
    var t := Nesting(at);
    NestedSize(at);
    NestedPlaced(at);
    FloatFacts(-1);
    AlignUpFixed(0, 16);
    AlignUpFixed(16, 4);
    NestingFacts(at);
    NoFieldsYet(Std140, t, false);
    FieldPlace(Std140, t, 0, false);
    FieldPlace(Std140, t, 1, false);
    ExplicitRecord(Std140, t, false);
    var r := Explicit(Std140, t, false);
    assert |r.fields| == 2 && r.fields[0].offset == 0 && r.fields[1].offset == 16;
    assert r.fields[0].typ == Nested(at) && r.fields[1].typ == FloatAt(-1).typ;
    TwoFields(r, 0);
    FloatExtents(16);
  }

  /** A block that meets every assert on declared offsets and yet has two floats at the same bytes. */
  lemma NestedOffsetsOverlap()
    ensures var t := Nesting(16);
            Block(Std140, t) && OffsetsMeet(Std140, Nested(16), false) && OffsetsMeet(Std140, t, false)
    ensures var r := Explicit(Std140, Nesting(16), false);
            Measurable(r) && Extents(r, 0) == [Extent(16, 4), Extent(16, 4)]
  {
    NestedExtents(16);
  }

  lemma TwoFields(r: Type, at: int)
    requires r.Interface? && Measurable(r) && |r.fields| == 2
    ensures Extents(r, at) ==
            Extents(r.fields[0].typ, at + r.fields[0].offset) + Extents(r.fields[1].typ, at + r.fields[1].offset)
  {
    hide Measurable;
    NoFields(r, at);
    NextExtents(r, 1, at);
    NextExtents(r, 2, at);
    assert Extents(r, at) == FieldExtents(r, 2, at);
  }

  lemma FloatExtents(at: int)
    ensures Measurable(FloatAt(-1).typ) && Extents(FloatAt(-1).typ, at) == [Extent(at, 4)]
  {
  }

  lemma NestingFacts(at: nat)
    requires Sized(Std140, Nested(at))
    ensures FieldsSized(Std140, Nesting(at)) && OffsetsMeet(Std140, Nesting(at), false)
    ensures !FieldRowMajor(Nesting(at).fields[0], false) && !FieldRowMajor(Nesting(at).fields[1], false)
  {
    hide ExplicitFields, Nested;
    FloatFacts(-1);
  }

  // ------------------------------------------------- running it again

  /** Making an explicit type explicit once more changes nothing. */
  lemma {:induction false} ExplicitTwice(std: Std, t: Type, rowMajor: bool)
    requires Block(std, t)
    ensures Explicit(std, Explicit(std, t, rowMajor), rowMajor) == Explicit(std, t, rowMajor)
    decreases t, 1
  {
    if t.Array? {
      ExplicitTwice(std, t.elem, rowMajor);
      ExplicitKeeps(std, t.elem, rowMajor);
    } else if IsRecord(t) {
      ExplicitRecord(std, t, rowMajor);
      FieldsTwice(std, t, |t.fields|, rowMajor);
    }
  }

  lemma {:induction false} FieldsTwice(std: Std, t: Type, n: nat, rowMajor: bool)
    requires IsRecord(t) && FieldsSized(std, t) && n <= |t.fields|
    ensures var r := Explicit(std, t, rowMajor);
            IsRecord(r) && FieldsSized(std, r) && |r.fields| == |t.fields| &&
            ExplicitFields(std, r, n, rowMajor) == ExplicitFields(std, t, n, rowMajor)
    decreases t, 0, n
  {
    hide Explicit, Size, Align, AlignUp, Sub, ExplicitFields, Sized;
    RecordBlock(std, t);
    ExplicitRecord(std, t, rowMajor);
    if n == 0 {
      NoneTwice(std, t, rowMajor);
    } else {
      FieldsTwice(std, t, n - 1, rowMajor);
      var r := Explicit(std, t, rowMajor);
      var f, g := t.fields[n - 1], r.fields[n - 1];
      var row := FieldRowMajor(f, rowMajor);
      assert g.typ == Explicit(std, f.typ, row) && FieldRowMajor(g, rowMajor) == row;
      ExplicitTwice(std, f.typ, row);
      FieldAligned(std, t, n - 1, rowMajor);
      FieldAt(std, t, |t.fields|, n - 1, rowMajor);
      ExplicitKeeps(std, f.typ, row);
      OneMoreField(std, t, n, rowMajor);
      OneMoreField(std, r, n, rowMajor);
      AlignUpFixed(g.offset, Align(std, f.typ, row));
    }
  }

  lemma NoneTwice(std: Std, t: Type, rowMajor: bool)
    requires IsRecord(t) && FieldsSized(std, t)
    ensures var r := Explicit(std, t, rowMajor);
            && IsRecord(r) && FieldsSized(std, r)
            && ExplicitFields(std, r, 0, rowMajor) == ExplicitFields(std, t, 0, rowMajor)
  {
    hide Size, Align, AlignUp, FieldRowMajor;
    ExplicitRecord(std, t, rowMajor);
  }

  /** Arrays whose elements are neither matrices nor arrays of several elements. */
  predicate Flat(t: Type)
    decreases t
  {
    match t
    case Array(elem, _, _) => Flat(elem) && !IsMatrix(elem) && (elem.Array? ==> elem.length == 1)
    case Struct(_, _, _, fields) => forall k :: 0 <= k < |fields| ==> Flat(fields[k].typ)
    case Interface(_, _, _, fields) => forall k :: 0 <= k < |fields| ==> Flat(fields[k].typ)
    case _ => true
  }

  lemma {:induction false} SizePositive(t: Type, rowMajor: bool)
    requires Sized(Std430, t)
    ensures Size(Std430, t, rowMajor) > 0
    decreases t
  {
    if t.Array? {
      SizePositive(t.elem, rowMajor);
      SizeFitsStride(Std430, t.elem, rowMajor);
      SizeOfArray(Std430, t.elem, t.length, t.stride, rowMajor);
      MulPositive(t.length, Stride(Std430, t.elem, rowMajor));
    } else if t.Struct? {
      hide AlignUp;
      var n := |t.fields|;
      SizePositive(t.fields[n - 1].typ, FieldRowMajor(t.fields[n - 1], rowMajor));
      AlignUpIs(End(Std430, t, n, rowMajor), FieldsAlign(Std430, t, n, rowMajor));
    }
  }

  lemma ArrayStrideAgain(t: Type, rowMajor: bool)
    requires Sized(Std430, t) && t.Array?
    ensures var s := Stride(Std430, t.elem, rowMajor); s > 0 && (s == Size(Std430, t, rowMajor) <==> t.length == 1)
  {
    hide Size, Stride;
    var s := Stride(Std430, t.elem, rowMajor);
    SizePositive(t.elem, rowMajor);
    SizeFitsStride(Std430, t.elem, rowMajor);
    SizeOfArray(Std430, t.elem, t.length, t.stride, rowMajor);
    if t.length > 1 { MulMono(s, 2, t.length); }
  }

  lemma MatrixStrideAgain(t: Type, rowMajor: bool)
    requires Sized(Std430, t) && IsMatrix(t)
    ensures 0 < Stride(Std430, VectorOf(t, rowMajor), false) < Size(Std430, t, rowMajor)
  {
    var v := VectorOf(t, rowMajor);
    VectorStride(Std430, v, false);
    assert Count(t) * VectorCount(t, rowMajor) == VectorCount(t, rowMajor) >= 2;
    MulMono(Stride(Std430, v, false), 2, VectorCount(t, rowMajor));
  }

  /** The assert of glsl_get_std430_array_stride on an element that is already explicit. */
  lemma StrideAgain(elem: Type, rowMajor: bool)
    requires Sized(Std430, elem)
    ensures StrideAsserts(Std430, Explicit(Std430, elem, rowMajor), rowMajor)
            <==> !IsMatrix(elem) && (elem.Array? ==> elem.length == 1)
  {
    hide Size, Stride, SizeAsserts, Align;
    ExplicitSizeAsserts(Std430, elem, rowMajor);
    ExplicitKeeps(Std430, elem, rowMajor);
    if elem.Array? {
      ArrayStrideAgain(elem, rowMajor);
    } else if IsMatrix(elem) {
      MatrixStrideAgain(elem, rowMajor);
    }
  }

  /**
   Which asserts on strides hold when an explicit type is made explicit again: all of them in
   std140, in std430 exactly when every array is flat.
   */
  lemma {:induction false} AssertsAgain(std: Std, t: Type, rowMajor: bool)
    requires Block(std, t)
    ensures ExplicitAsserts(std, Explicit(std, t, rowMajor), rowMajor) <==> std.Std140? || Flat(t)
    decreases t
  {
    hide Stride, Size, SizeAsserts, StrideAsserts, SameKind, FieldRowMajor;
    if t.Array? {
      AssertsAgain(std, t.elem, rowMajor);
      ArrayAssertsAgain(std, t, rowMajor);
    } else if IsRecord(t) {
      forall k | 0 <= k < |t.fields|
        ensures var row := FieldRowMajor(t.fields[k], rowMajor);
                ExplicitAsserts(std, Explicit(std, t.fields[k].typ, row), row) <==> std.Std140? || Flat(t.fields[k].typ)
      {
        AssertsAgain(std, t.fields[k].typ, FieldRowMajor(t.fields[k], rowMajor));
      }
      RecordAsserts(std, t, rowMajor);
    }
  }

  lemma ArrayAssertsAgain(std: Std, t: Type, rowMajor: bool)
    requires Sized(std, t) && t.Array?
    ensures ExplicitAsserts(std, Explicit(std, t, rowMajor), rowMajor) <==>
              && ExplicitAsserts(std, Explicit(std, t.elem, rowMajor), rowMajor)
              && (std.Std430? ==> !IsMatrix(t.elem) && (t.elem.Array? ==> t.elem.length == 1))
  {
    hide Stride, Size, SizeAsserts;
    ExplicitSizeAsserts(std, t.elem, rowMajor);
    if std.Std430? { StrideAgain(t.elem, rowMajor); }
  }

  /** An input: of `float[2][2]`, the first run is fine and the second fires an assert. */
  lemma SecondRunAsserts()
    ensures var t := Array(Array(Basic(Float, 1, 1, 0, 0, false), 2, 0), 2, 0);
            && Block(Std430, t) && ExplicitAsserts(Std430, t, false)
            && !ExplicitAsserts(Std430, Explicit(Std430, t, false), false)
  {
    hide Explicit, ExplicitAsserts, Size, Align, Stride;
    var t := Array(Array(Basic(Float, 1, 1, 0, 0, false), 2, 0), 2, 0);
    AssertsNeverFire(Std430, t, false);
    AssertsAgain(Std430, t, false);
  }

  lemma RecordAsserts(std: Std, t: Type, rowMajor: bool)
    requires IsRecord(t) && FieldsSized(std, t)
    ensures ExplicitAsserts(std, Explicit(std, t, rowMajor), rowMajor)
            <==> forall k :: 0 <= k < |t.fields| ==>
                   var row := FieldRowMajor(t.fields[k], rowMajor);
                   ExplicitAsserts(std, Explicit(std, t.fields[k].typ, row), row)
  {
    hide Explicit, ExplicitFields, SizeAsserts, Sub, Size, StrideAsserts, Sized;
    RecordBlock(std, t);
    ExplicitRecord(std, t, rowMajor);
    var r := Explicit(std, t, rowMajor);
    forall k | 0 <= k < |r.fields|
      ensures var row := FieldRowMajor(t.fields[k], rowMajor);
              && r.fields[k].typ == Explicit(std, t.fields[k].typ, row) && FieldRowMajor(r.fields[k], rowMajor) == row
              && SizeAsserts(std, Explicit(std, r.fields[k].typ, row), row)
    {
      ExplicitSizeAsserts(std, r.fields[k].typ, FieldRowMajor(t.fields[k], rowMajor));
    }
  }

  // ------------------------------------------------- std430 against std140

  lemma {:induction false} SizedBoth(t: Type)
    requires Sized(Std430, t)
    ensures Sized(Std140, t)
  {
    match t
    case Array(elem, _, _) => SizedBoth(elem);
    case Struct(_, _, _, fields) =>
      forall k | 0 <= k < |fields| ensures Sized(Std140, fields[k].typ) { SizedBoth(fields[k].typ); }
    case _ =>
  }

  lemma BlockBoth(t: Type)
    requires Block(Std430, t)
    ensures Block(Std140, t)
  {
    if t.Interface? {
      forall k | 0 <= k < |t.fields| ensures Sized(Std140, t.fields[k].typ) { SizedBoth(t.fields[k].typ); }
    } else {
      SizedBoth(t);
    }
  }

  /** std430 is never looser than std140: its alignment divides, its size does not exceed. */
  predicate Tighter(t: Type, rowMajor: bool)
    requires Block(Std430, t) && Block(Std140, t)
  {
    && Size(Std430, t, rowMajor) <= Size(Std140, t, rowMajor)
    && (!t.Interface? ==> Align(Std140, t, rowMajor) % Align(Std430, t, rowMajor) == 0)
    && (!t.Interface? ==> Align(Std430, t, rowMajor) <= Align(Std140, t, rowMajor))
  }

  lemma {:induction false} NeverLooser(t: Type, rowMajor: bool)
    requires Block(Std430, t)
    ensures Block(Std140, t) && Tighter(t, rowMajor)
    decreases t, 1
  {
    hide Tighter, Size, Align, AlignUp;
    BlockBoth(t);
    if t.Array? {
      NeverLooser(t.elem, rowMajor);
      ArrayTighter(t, rowMajor);
    } else if IsRecord(t) {
      FieldsTighter(t, |t.fields|, rowMajor);
      RecordTighter(t, rowMajor);
    } else if IsMatrix(t) {
      MatrixTighter(t, rowMajor);
    } else {
      VectorTighter(t, rowMajor);
    }
  }

  lemma VectorTighter(t: Type, rowMajor: bool)
    requires Sized(Std430, t) && Sized(Std140, t) && IsVector(t)
    ensures Tighter(t, rowMajor)
  {
  }

  lemma MatrixTighter(t: Type, rowMajor: bool)
    requires Sized(Std430, t) && Sized(Std140, t) && IsMatrix(t)
    ensures Tighter(t, rowMajor)
  {
    var a := VectorAlign(VectorOf(t, rowMajor));
    UnitOrder(a, Rounded(Std140, a));
    MulMono(Count(t) * VectorCount(t, rowMajor), a, Rounded(Std140, a));
  }

  lemma ArrayTighter(t: Type, rowMajor: bool)
    requires Sized(Std430, t) && Sized(Std140, t) && t.Array? && Tighter(t.elem, rowMajor)
    ensures Tighter(t, rowMajor)
  {
    StrideTighter(t.elem, rowMajor);
    SizeOfArray(Std430, t.elem, t.length, t.stride, rowMajor);
    SizeOfArray(Std140, t.elem, t.length, t.stride, rowMajor);
    MulMono(t.length, Stride(Std430, t.elem, rowMajor), Stride(Std140, t.elem, rowMajor));
    UnitOrder(Align(Std430, t, rowMajor), Align(Std140, t, rowMajor));
  }

  lemma StrideTighter(t: Type, rowMajor: bool)
    requires Sized(Std430, t) && Sized(Std140, t) && Tighter(t, rowMajor)
    ensures Stride(Std430, t, rowMajor) <= Stride(Std140, t, rowMajor)
  {
    if IsVector(t) {
      VectorStride(Std430, t, rowMajor);
      VectorStride(Std140, t, rowMajor);
    } else {
      SizeFitsStride(Std140, t, rowMajor);
    }
  }

  lemma {:induction false} FieldsTighter(t: Type, n: nat, rowMajor: bool)
    requires IsRecord(t) && FieldsSized(Std430, t) && FieldsSized(Std140, t) && n <= |t.fields|
    ensures FieldsAlign(Std430, t, n, rowMajor) <= FieldsAlign(Std140, t, n, rowMajor)
    ensures End(Std430, t, n, rowMajor) <= End(Std140, t, n, rowMajor)
    decreases t, 0, n
  {
    hide AlignUp, Size, Align, FieldRowMajor, Sized, End;
    if n == 0 {
      NoFieldsYet(Std430, t, rowMajor);
      NoFieldsYet(Std140, t, rowMajor);
    } else {
      FieldsTighter(t, n - 1, rowMajor);
      var f := t.fields[n - 1];
      var row := FieldRowMajor(f, rowMajor);
      NeverLooser(f.typ, row);
      OneMoreEnd(Std430, t, n, rowMajor);
      OneMoreEnd(Std140, t, n, rowMajor);
      EndTighter(End(Std430, t, n - 1, rowMajor), Align(Std430, f.typ, row), Size(Std430, f.typ, row),
                 End(Std140, t, n - 1, rowMajor), Align(Std140, f.typ, row), Size(Std140, f.typ, row));
    }
  }

  lemma EndTighter(e: nat, a: nat, s: nat, e': nat, a': nat, s': nat)
    requires Unit(a) && Unit(a') && e <= e' && a <= a' && s <= s'
    ensures AlignUp(e, a) + s <= AlignUp(e', a') + s' <= AlignUp(AlignUp(e', a') + s', 16)
  {
    hide AlignUp;
    AlignUpMono(e, e', a, a');
    AlignUpIs(AlignUp(e', a') + s', 16);
  }

  lemma RecordTighter(t: Type, rowMajor: bool)
    requires IsRecord(t) && FieldsSized(Std430, t) && FieldsSized(Std140, t)
    requires FieldsAlign(Std430, t, |t.fields|, rowMajor) <= FieldsAlign(Std140, t, |t.fields|, rowMajor)
    requires End(Std430, t, |t.fields|, rowMajor) <= End(Std140, t, |t.fields|, rowMajor)
    ensures Tighter(t, rowMajor)
  {
    hide AlignUp, End, FieldsAlign;
    var n := |t.fields|;
    UnitOrder(FieldsAlign(Std430, t, n, rowMajor), FieldsAlign(Std140, t, n, rowMajor));
    AlignUpMono(End(Std430, t, n, rowMajor), End(Std140, t, n, rowMajor),
                FieldsAlign(Std430, t, n, rowMajor), FieldsAlign(Std140, t, n, rowMajor));
  }
}
