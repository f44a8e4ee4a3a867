/** Rounding up to a multiple of an alignment (`align` of src/util/u_math.h). */
module Alignment {
  import opened Words
  import opened Products

  function AlignUp(v: nat, a: nat): (r: nat)
    requires a > 0
  {
    var q: nat := DivNat(v + a - 1, a);
    MulPositive(q, a);
    q * a
  }

  function DivNat(v: nat, a: nat): (q: nat)
    requires a > 0
  {
    ShrLe(v, a);
    v / a
  }

  /** The result is the first multiple at or above the value. */
  lemma AlignUpIs(v: nat, a: nat)
    requires a > 0
    ensures AlignUp(v, a) % a == 0 && v <= AlignUp(v, a) < v + a
  {
    var q, r := DivRem(v + a - 1, a);
    assert AlignUp(v, a) == a * q;
    DivUnique(a * q, a, q, 0);
  }

  lemma AlignUpLeast(v: nat, a: nat, m: nat)
    requires a > 0 && m % a == 0 && v <= m
    ensures AlignUp(v, a) <= m
  {
    AlignUpIs(v, a);
    var q, r := DivRem(AlignUp(v, a), a);
    var p, z := DivRem(m, a);
    var d: int := (q as int) - p;
    MulAdd(a, d, p);
    MulAtLeast(a, d);
  }

  lemma AlignUpFixed(v: nat, a: nat)
    requires a > 0 && v % a == 0
    ensures AlignUp(v, a) == v
  {
    AlignUpIs(v, a);
    AlignUpLeast(v, a, v);
  }

  /** On 32-bit words and powers of two, adding and masking computes the same. */
  lemma MaskAligns(v: nat, k: nat)
    requires k < 32 && v + Pow2(k) - 1 < 0x1_0000_0000
    ensures And(v + Pow2(k) - 1, 0xFFFF_FFFF - (Pow2(k) - 1)) == AlignUp(v, Pow2(k))
  {
    hide *;
    var q := AlignUpAs(v, Pow2(k));
    MaskClears(v + Pow2(k) - 1, k);
  }

  /** Masking rounds down. */
  lemma MaskClears(x: u32, k: nat)
    requires k < 32
    ensures Pow2(k) <= 0x8000_0000 && And(x, 0xFFFF_FFFF - (Pow2(k) - 1)) == x / Pow2(k) * Pow2(k)
  {
    hide *;
    Pow2At32();
    Pow2Mono(k, 31);
    var q, r := DivRem(x, Pow2(k));
    MulPositive(q, Pow2(k));
    var low := And(x, 0xFFFF_FFFF - (Pow2(k) - 1));
    forall i | 0 <= i < 32 ensures Bit(low, i) == Bit(q * Pow2(k), i) { MaskedBit(x, k, q, i); }
    BitExtensional(low, q * Pow2(k), 32);
  }

  lemma AlignUpAs(v: nat, a: nat) returns (q: nat)
    requires a > 0
    ensures AlignUp(v, a) == q * a <= v + a - 1 && q == (v + a - 1) / a
  {
    var r;
    q, r := DivRem(v + a - 1, a);
  }

  lemma MaskedBit(x: u32, k: nat, q: nat, i: nat)
    requires k < 32 && i < 32 && q == x / Pow2(k) && Pow2(k) <= 0x8000_0000
    ensures Bit(And(x, 0xFFFF_FFFF - (Pow2(k) - 1)), i) == Bit(q * Pow2(k), i)
  {
    hide And, Pow2, Bit;
    var mask: u32 := Pow2(k) - 1;
    BitAnd(x, 0xFFFF_FFFF - mask, i);
    BitNot(mask, i);
    BitMask(k, i);
    BitShl(q, k, i);
    if i >= k { BitDiv(x, q, k, i - k); }
  }

  /** The alignments that occur: small powers of two. */
  predicate Unit(a: nat) {
    a in {1, 2, 4, 8, 16, 32, 64, 128}
  }

  lemma UnitDivides(v: nat, a: nat, b: nat)
    requires Unit(a) && Unit(b) && a <= b && v % b == 0
    ensures v % a == 0
  {
    UnitOrder(a, b);
    var q, r := DivRem(v, b);
    MultipleOf(q, b, a);
  }

  lemma UnitOrder(a: nat, b: nat)
    requires Unit(a) && Unit(b) && a <= b
    ensures b % a == 0
  {
  }

  lemma MultipleOf(k: nat, x: nat, a: nat)
    requires a > 0 && x % a == 0
    ensures (k * x) % a == 0
  {
    var q, r := DivRem(x, a);
    MulAssoc(k, a, q);
    MulAssoc(a, k, q);
    DivUnique(k * x, a, k * q, 0);
  }

  lemma SumOfMultiples(x: nat, y: nat, a: nat)
    requires a > 0 && x % a == 0 && y % a == 0
    ensures (x + y) % a == 0
  {
    var p, z := DivRem(x, a);
    var q, z' := DivRem(y, a);
    MulAdd(a, p, q);
    DivUnique(x + y, a, p + q, 0);
  }

  /** Rounding is monotone, also in the alignment. */
  lemma AlignUpMono(x: nat, y: nat, a: nat, b: nat)
    requires Unit(a) && Unit(b) && a <= b && x <= y
    ensures AlignUp(x, a) <= AlignUp(y, b)
  {
    AlignUpIs(y, b);
    UnitDivides(AlignUp(y, b), a, b);
    AlignUpLeast(x, a, AlignUp(y, b));
  }
}

/**
 The std140 and std430 layouts of src/compiler/glsl_types.c: rules 1 to 10 of section 7.6.2.2,
 "Standard Uniform Block Layout", of the OpenGL 4.30 specification.  The two layouts differ
 only in what is rounded up to the alignment of a vec4, so `Std` is a parameter.
 */
module StdLayouts {
  import opened Products
  import opened Alignment
  import opened GlslTypes
  import opened TypeTrees

  datatype Std = Std140 | Std430

  function Max(a: nat, b: nat): (r: nat) {
    if a < b then b else a
  }

  // ------------------------------------------------- kinds of types

  /** Scalars and vectors; samplers, textures and images count as 64-bit scalars. */
  predicate IsVector(t: Type) {
    (t.Basic? && t.cols == 1) || t.Handle?
  }

  predicate IsMatrix(t: Type) {
    t.Basic? && t.cols > 1
  }

  predicate IsRecord(t: Type) {
    t.Struct? || t.Interface?
  }

  /** Bytes that one component takes in these layouts. */
  function Component(base: Base): (n: nat) {
    if base in {Double, Uint64, Int64} then 8
    else if base in {Float16, BFloat16, Uint16, Int16} then 2
    else 4
  }

  function ComponentOf(t: Type): (n: nat)
    requires t.Basic? || t.Handle?
    ensures n in {2, 4, 8}
  {
    if t.Handle? then 8 else Component(t.base)
  }

  function Rows(t: Type): (n: nat)
    requires t.Basic? || t.Handle?
  {
    if t.Handle? then 1 else t.rows
  }

  /** The vectors a matrix is stored as: its columns, or its rows when row-major. */
  function VectorOf(m: Type, rowMajor: bool): (v: Type)
    requires IsMatrix(m)
    ensures IsVector(v)
  {
    Basic(m.base, if rowMajor then m.cols else m.rows, 1, 0, 0, false)
  }

  function VectorCount(m: Type, rowMajor: bool): (n: nat)
    requires IsMatrix(m)
  {
    if rowMajor then m.rows else m.cols
  }

  /** glsl_without_array */
  function Core(t: Type): (r: Type)
    ensures !r.Array? && (!t.Array? ==> r == t)
    ensures t.Array? ==> (t decreases to r)
  {
    if t.Array? then Core(t.elem) else t
  }

  /** glsl_get_aoa_size, and one for what is not an array. */
  function Count(t: Type): (n: nat) {
    if t.Array? then MulPositive(t.length, Count(t.elem)); t.length * Count(t.elem) else 1
  }

  /** The layout qualifier of a field overrides the inherited majorness. */
  function FieldRowMajor(m: Member, rowMajor: bool): (r: bool) {
    match Sub(m.rest.flags, 0x20, 4)
    case 1 => false
    case 2 => true
    case _ => rowMajor
  }

  /** Types that can be laid out, other than whole interface blocks. */
  predicate Sized(std: Std, t: Type): (r: bool)
    ensures r ==> !t.Interface?
    decreases t
  {
    match t
    case Basic(base, rows, cols, stride, _, _) =>
      && 1 <= rows <= 4 && 1 <= cols <= 4
      && if cols == 1 then stride == 0 else rows >= 2 && FloatingBase(base)
    case Handle(_, _, _, _, _) => true
    case Array(elem, length, _) => length > 0 && Sized(std, elem)
    case Struct(_, _, _, fields) =>
      (std.Std430? ==> |fields| > 0) && forall k :: 0 <= k < |fields| ==> Sized(std, fields[k].typ)
    case _ => false
  }

  predicate FieldsSized(std: Std, t: Type)
    requires IsRecord(t)
  {
    && (std.Std430? ==> |t.fields| > 0)
    && forall k :: 0 <= k < |t.fields| ==> Sized(std, t.fields[k].typ)
  }

  /** Types that can be laid out; interface blocks only at the top. */
  predicate Block(std: Std, t: Type) {
    if t.Interface? then FieldsSized(std, t) else Sized(std, t)
  }

  lemma RecordBlock(std: Std, t: Type)
    requires IsRecord(t) && FieldsSized(std, t)
    ensures Block(std, t)
  {
  }

  lemma {:induction false} CoreSized(std: Std, t: Type)
    requires Sized(std, t)
    ensures Sized(std, Core(t)) && Count(t) > 0
  {
    if t.Array? {
      CoreSized(std, t.elem);
      MulPositive(t.length, Count(t.elem));
    }
  }

  // ------------------------------------------------- base alignment

  /** std140 rounds up to the alignment of a vec4, std430 does not. */
  function Rounded(std: Std, a: nat): (r: nat) {
    if std.Std140? then Max(a, 16) else a
  }

  /** Rules 1 to 3. */
  function VectorAlign(t: Type): (a: nat)
    requires IsVector(t) && 1 <= Rows(t) <= 4
    ensures Unit(a) && a <= 32
  {
    match Rows(t)
    case 1 => ComponentOf(t)
    case 2 => 2 * ComponentOf(t)
    case _ => 4 * ComponentOf(t)
  }

  /** glsl_get_std140_base_alignment and glsl_get_std430_base_alignment. */
  function Align(std: Std, t: Type, rowMajor: bool): (a: nat)
    requires Sized(std, t)
    ensures Unit(a) && (std.Std140? && !IsVector(t) ==> a >= 16)
    decreases t, 1
  {
    if IsVector(t) then VectorAlign(t)
    else if t.Array? then
      if IsVector(t.elem) || IsMatrix(t.elem) then Rounded(std, Align(std, t.elem, rowMajor))
      else Align(std, t.elem, rowMajor)
    else if IsMatrix(t) then Rounded(std, VectorAlign(VectorOf(t, rowMajor)))
    else FieldsAlign(std, t, |t.fields|, rowMajor)
  }

  /** The largest alignment of the first `n` fields. */
  function FieldsAlign(std: Std, t: Type, n: nat, rowMajor: bool): (a: nat)
    requires IsRecord(t) && FieldsSized(std, t) && n <= |t.fields|
    ensures n > 0 || std.Std140? ==> Unit(a)
    ensures std.Std140? ==> a >= 16
    decreases t, 0, n
  {
    if n == 0 then if std.Std140? then 16 else 0
    else
      var f := t.fields[n - 1];
      Max(FieldsAlign(std, t, n - 1, rowMajor), Align(std, f.typ, FieldRowMajor(f, rowMajor)))
  }

  // ------------------------------------------------- size

  /** glsl_get_std140_size and glsl_get_std430_size. */
  function Size(std: Std, t: Type, rowMajor: bool): (s: nat)
    requires Block(std, t)
    decreases t, 1
  {
    if IsVector(t) then Rows(t) * ComponentOf(t)
    else if IsRecord(t) then AlignUp(End(std, t, |t.fields|, rowMajor), FieldsAlign(std, t, |t.fields|, rowMajor))
    else
      CoreSized(std, t);
      var core := Core(t);
      if IsMatrix(core) then
        MulPositive(Count(t), VectorCount(core, rowMajor));
        var vectors: nat := Count(t) * VectorCount(core, rowMajor);
        MulPositive(vectors, Rounded(std, VectorAlign(VectorOf(core, rowMajor))));
        vectors * Rounded(std, VectorAlign(VectorOf(core, rowMajor)))
      else
        var stride := if core.Struct? then Size(std, core, rowMajor) else Rounded(std, Align(std, core, rowMajor));
        MulPositive(Count(t), stride);
        Count(t) * stride
  }

  /** The running size after the first `n` fields. */
  function End(std: Std, t: Type, n: nat, rowMajor: bool): (e: nat)
    requires IsRecord(t) && FieldsSized(std, t) && n <= |t.fields|
    decreases t, 0, n
  {
    if n == 0 then 0
    else
      var f := t.fields[n - 1];
      var row := FieldRowMajor(f, rowMajor);
      var e := AlignUp(End(std, t, n - 1, rowMajor), Align(std, f.typ, row)) + Size(std, f.typ, row);
      if std.Std140? && f.typ.Struct? && n < |t.fields| then AlignUp(e, 16) else e
  }

  /** The stride the explicit types get: glsl_get_std430_array_stride, or rounding to 16 in std140. */
  function Stride(std: Std, elem: Type, rowMajor: bool): (s: nat)
    requires Sized(std, elem)
  {
    if std.Std140? then AlignUp(Size(std, elem, rowMajor), 16)
    else if IsVector(elem) && Rows(elem) == 3 then 4 * ComponentOf(elem)
    else Size(std, elem, rowMajor)
  }

  // ------------------------------------------------- sizes of arrays

  /** In std140 whatever is not a vector has a size that is a multiple of 16. */
  lemma {:induction false} SizeMultiple(t: Type, rowMajor: bool)
    requires Block(Std140, t) && !IsVector(t)
    ensures Size(Std140, t, rowMajor) % 16 == 0
  {
    hide AlignUp;
    if IsRecord(t) {
      var a := FieldsAlign(Std140, t, |t.fields|, rowMajor);
      AlignUpIs(End(Std140, t, |t.fields|, rowMajor), a);
      UnitDivides(Size(Std140, t, rowMajor), 16, a);
    } else {
      CoreSized(Std140, t);
      var core := Core(t);
      if IsMatrix(core) {
        MultipleOf(Count(t) * VectorCount(core, rowMajor), Rounded(Std140, VectorAlign(VectorOf(core, rowMajor))), 16);
      } else if core.Struct? {
        SizeMultiple(core, rowMajor);
        MultipleOf(Count(t), Size(Std140, core, rowMajor), 16);
      } else {
        MultipleOf(Count(t), Rounded(Std140, Align(Std140, core, rowMajor)), 16);
      }
    }
  }

  lemma VectorStride(std: Std, t: Type, rowMajor: bool)
    requires Sized(std, t) && IsVector(t)
    ensures Stride(std, t, rowMajor) == Rounded(std, VectorAlign(t))
  {
    hide AlignUp, Sized, Component, Align;
    VectorSize(std, t, rowMajor);
    if std.Std140? { FirstSixteens(Size(std, t, rowMajor)); }
  }

  lemma VectorSize(std: Std, t: Type, rowMajor: bool)
    requires Sized(std, t) && IsVector(t)
    ensures 1 <= Rows(t) <= 4 && Size(std, t, rowMajor) <= VectorAlign(t) <= 32
    ensures Rows(t) != 3 ==> Size(std, t, rowMajor) == VectorAlign(t)
    ensures Rows(t) == 3 ==> Size(std, t, rowMajor) == 3 * ComponentOf(t) && VectorAlign(t) == 4 * ComponentOf(t)
  {
    hide AlignUp, Component, Align;
    assert Size(std, t, rowMajor) == Rows(t) * ComponentOf(t);
  }

  lemma FirstSixteens(v: nat)
    requires 0 < v <= 32
    ensures AlignUp(v, 16) == if v <= 16 then 16 else 32
  {
    hide AlignUp;
    AlignUpIs(v, 16);
  }

  /** What is not a vector is repeated without padding. */
  lemma SizeOfRepeated(std: Std, elem: Type, n: nat, stride: nat, rowMajor: bool)
    requires Sized(std, elem) && !IsVector(elem) && n > 0
    ensures Size(std, Array(elem, n, stride), rowMajor) == n * Size(std, elem, rowMajor)
  {
    var t := Array(elem, n, stride);
    var core := Core(elem);
    CoreSized(std, elem);
    assert Core(t) == core && Count(t) == n * Count(elem);
    hide Sized, Align;
    if IsMatrix(core) {
      var c, v := VectorCount(core, rowMajor), Rounded(std, VectorAlign(VectorOf(core, rowMajor)));
      MulAssoc(n, Count(elem), c);
      MulAssoc(n, Count(elem) * c, v);
    } else if elem.Array? {
      var stride := if core.Struct? then Size(std, core, rowMajor) else Rounded(std, Align(std, core, rowMajor));
      MulAssoc(n, Count(elem), stride);
    }
  }

  /**
   The size of an array is its length times the stride that the explicit type gives it, at
   every depth of nesting and for both matrix orders.
   */
  lemma SizeOfArray(std: Std, elem: Type, n: nat, stride: nat, rowMajor: bool)
    requires Sized(std, elem) && n > 0
    ensures Size(std, Array(elem, n, stride), rowMajor) == n * Stride(std, elem, rowMajor)
  {
    if IsVector(elem) {
      VectorStride(std, elem, rowMajor);
      assert Count(Array(elem, n, stride)) == n * 1;
    } else {
      SizeOfRepeated(std, elem, n, stride, rowMajor);
      if std.Std140? {
        SizeMultiple(elem, rowMajor);
        AlignUpFixed(Size(std, elem, rowMajor), 16);
      }
    }
  }
}
