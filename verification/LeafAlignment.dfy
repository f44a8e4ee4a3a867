/**
 Alignment in memory: wherever an explicit type is placed at a multiple of its own alignment,
 every scalar and vector inside it is at a multiple of its own, at any depth.
 */
module LeafAlignment {
  import opened Products
  import opened Alignment
  import opened TypeTrees
  import opened StdLayouts
  import opened Placement
  import opened ExplicitLayouts

  /** Every scalar and vector of the explicit type `t`, placed at `at`, is aligned. */
  ghost predicate LeavesAligned(t: Type, at: nat)
    requires Block(Std140, t) && Measurable(t)
    decreases t
  {
    if IsRecord(t) then forall k :: 0 <= k < |t.fields| ==> LeavesAligned(t.fields[k].typ, at + t.fields[k].offset)
    else if t.Array? then forall k: nat :: k < t.length ==> ElementAligned(t, k, at)
    else if IsMatrix(t) then forall k: nat :: k < VectorCount(t, t.rowMajor) ==> VectorAligned(t, k, at)
    else at % VectorAlign(t) == 0
  }

  ghost predicate ElementAligned(t: Type, k: nat, at: nat)
    requires t.Array? && Block(Std140, t) && Measurable(t)
    decreases t, 0
  {
    LeavesAligned(t.elem, Step(at, k, t.stride))
  }

  ghost predicate VectorAligned(t: Type, k: nat, at: nat)
    requires IsMatrix(t) && Sized(Std140, t)
  {
    Step(at, k, t.stride) % VectorAlign(VectorOf(t, t.rowMajor)) == 0
  }

  /** The place of the k-th copy. */
  function Step(at: nat, k: nat, stride: nat): (r: nat) {
    MulPositive(k, stride);
    at + k * stride
  }

  lemma StepAligned(at: nat, k: nat, stride: nat, a: nat)
    requires a > 0 && at % a == 0 && stride % a == 0
    ensures Step(at, k, stride) % a == 0
  {
    MultipleOf(k, stride, a);
    SumOfMultiples(at, k * stride, a);
  }

  // ------------------------------------------------- sizes are multiples of alignments

  /** The size of whatever is not a vector is a multiple of its alignment. */
  lemma {:induction false} SizeOfWhole(std: Std, t: Type, rowMajor: bool)
    requires Sized(std, t) && !IsVector(t)
    ensures Size(std, t, rowMajor) % Align(std, t, rowMajor) == 0
    decreases t, 0
  {
    if t.Struct? {
      hide AlignUp;
      AlignUpIs(End(std, t, |t.fields|, rowMajor), Align(std, t, rowMajor));
    } else if IsMatrix(t) {
      MatrixSize(std, t, rowMajor);
      MultipleOf(VectorCount(t, rowMajor), Align(std, t, rowMajor), Align(std, t, rowMajor));
    } else {
      hide Size, Stride;
      StrideOfWhole(std, t.elem, rowMajor);
      SizeOfArray(std, t.elem, t.length, t.stride, rowMajor);
      ArrayAlign(std, t, rowMajor);
      MultipleOf(t.length, Stride(std, t.elem, rowMajor), Align(std, t, rowMajor));
    }
  }

  /** Array elements follow each other at multiples of what an array of them is aligned to. */
  lemma {:induction false} StrideOfWhole(std: Std, elem: Type, rowMajor: bool)
    requires Sized(std, elem)
    ensures Stride(std, elem, rowMajor) % ElementUnit(std, elem, rowMajor) == 0
    decreases elem, 1
  {
    hide Size, Stride, Align, AlignUp, Sized, ElementUnit;
    if IsVector(elem) {
      VectorStrideIsUnit(std, elem, rowMajor);
    } else {
      SizeOfWhole(std, elem, rowMajor);
      WholeUnit(std, elem, rowMajor);
      WholeStride(std, elem, rowMajor);
    }
  }

  lemma VectorStrideIsUnit(std: Std, v: Type, rowMajor: bool)
    requires Sized(std, v) && IsVector(v)
    ensures Stride(std, v, rowMajor) == ElementUnit(std, v, rowMajor)
  {
    hide Size, Stride, Sized;
    VectorStride(std, v, rowMajor);
  }

  /** Whatever is not a vector is repeated without padding. */
  lemma WholeStride(std: Std, elem: Type, rowMajor: bool)
    requires Sized(std, elem) && !IsVector(elem)
    ensures Stride(std, elem, rowMajor) == Size(std, elem, rowMajor)
  {
    hide Size, AlignUp, Sized;
    if std.Std140? {
      SizeMultiple(elem, rowMajor);
      AlignUpFixed(Size(std, elem, rowMajor), 16);
    }
  }

  /** The alignment of an array of such elements. */
  function ElementUnit(std: Std, elem: Type, rowMajor: bool): (a: nat)
    requires Sized(std, elem)
    ensures Unit(a)
  {
    if IsVector(elem) || IsMatrix(elem) then Rounded(std, Align(std, elem, rowMajor)) else Align(std, elem, rowMajor)
  }

  lemma WholeUnit(std: Std, elem: Type, rowMajor: bool)
    requires Sized(std, elem) && !IsVector(elem)
    ensures ElementUnit(std, elem, rowMajor) == Align(std, elem, rowMajor)
  {
  }

  lemma ArrayAlign(std: Std, t: Type, rowMajor: bool)
    requires Sized(std, t) && t.Array?
    ensures Align(std, t, rowMajor) == ElementUnit(std, t.elem, rowMajor) >= Align(std, t.elem, rowMajor)
  {
  }

  // ------------------------------------------------- fields

  /** The alignment of a record is at least that of each field. */
  lemma {:induction false} FieldBelow(std: Std, t: Type, n: nat, k: nat, rowMajor: bool)
    requires IsRecord(t) && FieldsSized(std, t) && k < n <= |t.fields|
    ensures Align(std, t.fields[k].typ, FieldRowMajor(t.fields[k], rowMajor)) <= FieldsAlign(std, t, n, rowMajor)
    decreases n
  {
    hide Align, FieldRowMajor;
    if k + 1 < n { FieldBelow(std, t, n - 1, k, rowMajor); }
  }

  /** What the place of a type must be a multiple of. */
  function PlaceUnit(std: Std, t: Type, rowMajor: bool): (a: nat)
    requires Block(std, t)
    ensures Unit(a)
  {
    if t.Interface? then FieldsAlign(std, t, |t.fields|, rowMajor) else Align(std, t, rowMajor)
  }

  lemma RecordUnit(std: Std, t: Type, rowMajor: bool)
    requires IsRecord(t) && FieldsSized(std, t)
    ensures PlaceUnit(std, t, rowMajor) == FieldsAlign(std, t, |t.fields|, rowMajor)
  {
  }

  lemma FieldStaysAligned(std: Std, t: Type, k: nat, rowMajor: bool, at: nat)
    requires IsRecord(t) && FieldsSized(std, t) && k < |t.fields| && at % PlaceUnit(std, t, rowMajor) == 0
    ensures var r := Explicit(std, t, rowMajor);
            && r.fields[k].offset >= 0
            && (at + r.fields[k].offset) % Align(std, t.fields[k].typ, FieldRowMajor(t.fields[k], rowMajor)) == 0
  {
    hide Explicit, ExplicitFields, AlignUp, Size, Align, FieldRowMajor, PlaceUnit, Sized;
    RecordBlock(std, t);
    ExplicitRecord(std, t, rowMajor);
    RecordUnit(std, t, rowMajor);
    var f, row := t.fields[k], FieldRowMajor(t.fields[k], rowMajor);
    var a := Align(std, f.typ, row);
    FieldAligned(std, t, k, rowMajor);
    FieldPlace(std, t, k, rowMajor);
    FieldBelow(std, t, |t.fields|, k, rowMajor);
    UnitDivides(at, a, PlaceUnit(std, t, rowMajor));
    SumOfMultiples(at, Explicit(std, t, rowMajor).fields[k].offset, a);
  }

  // ------------------------------------------------- everything inside is aligned

  /** An explicit type has a measurable size, and both layouts accept it. */
  lemma {:induction false} ExplicitMeasurable(std: Std, t: Type, rowMajor: bool)
    requires Block(std, t)
    ensures Measurable(Explicit(std, t, rowMajor)) && Block(Std140, Explicit(std, t, rowMajor))
    decreases t
  {
    if std.Std430? { BlockBoth(Explicit(std, t, rowMajor)); }
    if t.Array? {
      hide Stride, Align, Size;
      ExplicitMeasurable(std, t.elem, rowMajor);
    } else if IsRecord(t) {
      hide Explicit, ExplicitFields, Size, Align, AlignUp, FieldRowMajor, Measurable;
      ExplicitRecord(std, t, rowMajor);
      var r := Explicit(std, t, rowMajor);
      forall k | 0 <= k < |r.fields| ensures r.fields[k].offset >= 0 && Measurable(r.fields[k].typ) {
        ExplicitMeasurable(std, t.fields[k].typ, FieldRowMajor(t.fields[k], rowMajor));
        FieldPlace(std, t, k, rowMajor);
      }
      RecordMeasurable(r);
    }
  }

  lemma RecordMeasurable(r: Type)
    requires IsRecord(r) && forall k :: 0 <= k < |r.fields| ==> r.fields[k].offset >= 0 && Measurable(r.fields[k].typ)
    ensures Measurable(r)
  {
  }

  /** Every scalar and vector of a type placed at a multiple of its alignment is aligned. */
  lemma {:induction false} EverythingAligned(std: Std, t: Type, rowMajor: bool, at: nat)
    requires Block(std, t) && at % PlaceUnit(std, t, rowMajor) == 0
    ensures var r := Explicit(std, t, rowMajor);
            Measurable(r) && Block(Std140, r) && LeavesAligned(r, at)
    decreases t, 1
  {
    ExplicitMeasurable(std, t, rowMajor);
    if t.Array? {
      ArrayEverything(std, t, rowMajor, at);
    } else if IsRecord(t) {
      RecordEverything(std, t, rowMajor, at);
    } else if IsMatrix(t) {
      MatrixAligned(std, t, rowMajor, at);
    }
  }

  lemma {:induction false} ArrayEverything(std: Std, t: Type, rowMajor: bool, at: nat)
    requires Sized(std, t) && t.Array? && at % PlaceUnit(std, t, rowMajor) == 0
    requires var r := Explicit(std, t, rowMajor); Measurable(r) && Block(Std140, r)
    ensures LeavesAligned(Explicit(std, t, rowMajor), at)
    decreases t, 0
  {
    hide Explicit, Stride, Align, Size, Step;
    ArrayUnit(std, t, rowMajor);
    ElementsAligned(std, t, rowMajor, at);
    forall k: nat | k < t.length ensures ElementAligned(Explicit(std, t, rowMajor), k, at) {
      EverythingAligned(std, t.elem, rowMajor, Step(at, k, Stride(std, t.elem, rowMajor)));
    }
  }

  lemma {:induction false} RecordEverything(std: Std, t: Type, rowMajor: bool, at: nat)
    requires IsRecord(t) && FieldsSized(std, t) && at % PlaceUnit(std, t, rowMajor) == 0
    requires var r := Explicit(std, t, rowMajor); Measurable(r) && Block(Std140, r)
    ensures LeavesAligned(Explicit(std, t, rowMajor), at)
    decreases t, 0
  {
    hide Explicit, ExplicitFields, Size, Align, AlignUp, FieldRowMajor, PlaceUnit, LeavesAligned, Measurable;
    ExplicitRecord(std, t, rowMajor);
    var r := Explicit(std, t, rowMajor);
    forall k | 0 <= k < |r.fields| ensures FieldInPlace(r, k, at) {
      FieldEverything(std, t, k, rowMajor, at);
    }
    RecordAligned(r, at);
  }

  lemma {:induction false} FieldEverything(std: Std, t: Type, k: nat, rowMajor: bool, at: nat)
    requires IsRecord(t) && FieldsSized(std, t) && at % PlaceUnit(std, t, rowMajor) == 0 && k < |t.fields|
    ensures var r := Explicit(std, t, rowMajor); IsRecord(r) && k < |r.fields| && FieldInPlace(r, k, at)
    decreases t, 0, 0
  {
    hide Explicit, ExplicitFields, Size, Align, AlignUp, FieldRowMajor, PlaceUnit, LeavesAligned, Measurable;
    ExplicitRecord(std, t, rowMajor);
    var f, row, g := t.fields[k], FieldRowMajor(t.fields[k], rowMajor), Explicit(std, t, rowMajor).fields[k];
    FieldStaysAligned(std, t, k, rowMajor, at);
    FieldUnit(std, t, k, rowMajor);
    assert g.typ == Explicit(std, f.typ, row);
    EverythingAligned(std, f.typ, row, at + g.offset);
  }

  lemma ArrayUnit(std: Std, t: Type, rowMajor: bool)
    requires Sized(std, t) && t.Array?
    ensures PlaceUnit(std, t, rowMajor) == Align(std, t, rowMajor)
    ensures var r := Explicit(std, t, rowMajor);
            && r.elem == Explicit(std, t.elem, rowMajor)
            && r.stride == Stride(std, t.elem, rowMajor) && r.length == t.length
  {
  }

  lemma RecordAligned(r: Type, at: nat)
    requires IsRecord(r) && Measurable(r) && Block(Std140, r)
    requires forall k :: 0 <= k < |r.fields| ==> FieldInPlace(r, k, at)
    ensures LeavesAligned(r, at)
  {
    forall k | 0 <= k < |r.fields| ensures LeavesAligned(r.fields[k].typ, at + r.fields[k].offset) {
      assert FieldInPlace(r, k, at);
    }
  }

  ghost predicate FieldInPlace(r: Type, k: nat, at: nat)
    requires IsRecord(r) && k < |r.fields|
  {
    var f := r.fields[k];
    f.offset >= 0 && Measurable(f.typ) && Block(Std140, f.typ) && LeavesAligned(f.typ, at + f.offset)
  }

  lemma FieldUnit(std: Std, t: Type, k: nat, rowMajor: bool)
    requires IsRecord(t) && FieldsSized(std, t) && k < |t.fields|
    ensures var row := FieldRowMajor(t.fields[k], rowMajor);
            PlaceUnit(std, t.fields[k].typ, row) == Align(std, t.fields[k].typ, row)
  {
    hide Align, FieldRowMajor;
  }

  lemma ElementsAligned(std: Std, t: Type, rowMajor: bool, at: nat)
    requires Sized(std, t) && t.Array? && at % Align(std, t, rowMajor) == 0
    ensures forall k: nat :: Step(at, k, Stride(std, t.elem, rowMajor)) % PlaceUnit(std, t.elem, rowMajor) == 0
  {
    hide Size, Stride, Step;
    ArrayAlign(std, t, rowMajor);
    StrideOfWhole(std, t.elem, rowMajor);
    var a, b, stride := Align(std, t.elem, rowMajor), Align(std, t, rowMajor), Stride(std, t.elem, rowMajor);
    UnitDivides(at, a, b);
    UnitDivides(stride, a, b);
    forall k: nat ensures Step(at, k, stride) % a == 0 { StepAligned(at, k, stride, a); }
  }

  lemma MatrixAligned(std: Std, t: Type, rowMajor: bool, at: nat)
    requires Sized(std, t) && IsMatrix(t) && at % Align(std, t, rowMajor) == 0
    requires var r := Explicit(std, t, rowMajor); Measurable(r) && Block(Std140, r)
    ensures LeavesAligned(Explicit(std, t, rowMajor), at)
  {
    hide Stride, Size, Step;
    var r, v := Explicit(std, t, rowMajor), VectorOf(t, rowMajor);
    var a := VectorAlign(v);
    VectorStride(std, v, false);
    UnitDivides(at, a, Rounded(std, a));
    UnitDivides(Rounded(std, a), a, Rounded(std, a));
    forall k: nat | k < VectorCount(r, r.rowMajor) ensures VectorAligned(r, k, at) { StepAligned(at, k, r.stride, a); }
  }
}
