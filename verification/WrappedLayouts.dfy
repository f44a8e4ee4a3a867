/** Sizes in the 32-bit `unsigned` arithmetic of src/compiler/glsl_types.c. */
module Wrapping {
  import opened Words
  import opened Products
  import opened Alignment

  function Wrap(v: int): (w: u32) {
    v % 0x1_0000_0000
  }

  lemma WrapUnique(v: nat, q: nat, r: nat)
    requires r < 0x1_0000_0000 && v == 0x1_0000_0000 * q + r
    ensures Wrap(v) == r
  {
    DivUnique(v, 0x1_0000_0000, q, r);
  }

  lemma WrapAdd(x: nat, y: nat)
    ensures Wrap(Wrap(x) + y) == Wrap(x + y)
  {
    hide Wrap;
    var q, r := WrapRest(x);
    var p, s := WrapRest(r + y);
    WrapUnique(x + y, q + p, s);
  }

  lemma WrapRest(x: nat) returns (q: nat, r: nat)
    ensures r == Wrap(x) && x == 0x1_0000_0000 * q + r
  {
    q, r := DivRem(x, 0x1_0000_0000);
  }

  lemma WrapSmall(x: nat)
    requires x < 0x1_0000_0000
    ensures Wrap(x) == x
  {
  }

  lemma WrapSum(x: nat, y: nat)
    ensures Wrap(Wrap(x) + Wrap(y)) == Wrap(x + y)
  {
    hide Wrap;
    WrapAdd(x, Wrap(y));
    WrapAdd(y, x);
  }

  lemma WrapMul(x: nat, y: nat)
    ensures Wrap(x) * y >= 0 && x * y >= 0 && Wrap(Wrap(x) * y) == Wrap(x * y)
  {
    hide Wrap;
    var q, r := WrapRest(x);
    MulPositive(r, y);
    MulPositive(x, y);
    MulPositive(q, y);
    var p, s := WrapRest(r * y);
    MulAssoc(0x1_0000_0000, q, y);
    MulAdd(y, 0x1_0000_0000 * q, r);
    WrapUnique(x * y, q * y + p, s);
  }

  /** What `align` of src/util/u_math.h accepts: the powers of two below 2^32. */
  predicate WordUnit(a: nat) {
    0 < a < 0x1_0000_0000 && 0x1_0000_0000 % a == 0
  }

  lemma UnitIsWord(a: nat)
    requires Unit(a)
    ensures WordUnit(a)
  {
  }

  /** `align` on 32 bits. */
  function AlignWord(v: u32, a: nat): (r: u32)
    requires WordUnit(a)
  {
    Wrap(v + a - 1) - Wrap(v + a - 1) % a
  }

  lemma PowerIsWord(k: nat)
    requires k < 32
    ensures WordUnit(Pow2(k))
  {
    hide Pow2;
    Pow2At32();
    Pow2Mono(0, k);
    Pow2Mono(k, 31);
    Pow2Add(k, 32 - k);
    Pow2Add(1, 31);
    assert Pow2(0) == 1 by { PowerOfNone(); }
    DivUnique(0x1_0000_0000, Pow2(k), Pow2(32 - k), 0);
  }

  lemma PowerOfNone()
    ensures Pow2(0) == 1 && Pow2(1) == 2
  {
  }

  /** It is add and mask, overflow included. */
  lemma MaskAlignsWord(v: u32, k: nat)
    requires k < 32
    ensures WordUnit(Pow2(k)) && Pow2(k) - 1 <= 0xFFFF_FFFF
    ensures And(Wrap(v + Pow2(k) - 1), 0xFFFF_FFFF - (Pow2(k) - 1)) == AlignWord(v, Pow2(k))
  {
    hide And, Pow2, Wrap;
    PowerIsWord(k);
    var x := Wrap(v + Pow2(k) - 1);
    MaskClears(x, k);
    var q, r := DivRem(x, Pow2(k));
    MulComm(q, Pow2(k));
  }

  lemma MulComm(x: int, y: int)
    ensures x * y == y * x
  {
  }

  lemma WordUnitDivides(a: nat) returns (m: nat)
    requires WordUnit(a)
    ensures a * m == 0x1_0000_0000
  {
    var r;
    m, r := DivRem(0x1_0000_0000, a);
  }

  /** Alignments divide 2^32, so rounding commutes with wrapping. */
  lemma AlignWordIs(v: nat, a: nat)
    requires WordUnit(a)
    ensures AlignWord(Wrap(v), a) == Wrap(AlignUp(v, a))
  {
    hide Wrap, AlignUp;
    var m := WordUnitDivides(a);
    WrapAdd(v, a - 1);
    var q, x := WrapRest(v + a - 1);
    var k, r := DivRem(x, a);
    var n := AlignUpAs(v, a);
    Regroup(v + a - 1, a, m, q, k, r);
    MulPositive(a, k);
    WrapUnique(AlignUp(v, a), q, a * k);
  }

  lemma Regroup(x: nat, a: nat, m: nat, q: nat, k: nat, r: nat)
    requires a > 0 && r < a && x == a * m * q + (a * k + r)
    ensures x / a * a == a * m * q + a * k
  {
    MulAssoc(a, m, q);
    MulAdd(a, m * q, k);
    DivUnique(x, a, m * q + k, r);
  }
}

/** Explicit types with the strides and offsets that 32 bits hold. */
module WrappedLayouts {
  import opened Products
  import opened Alignment
  import opened Words
  import opened BitScan
  import opened TypeTrees
  import opened StdLayouts
  import opened Placement
  import opened ExplicitLayouts
  import opened Wrapping

  /** Strides are `unsigned`, offsets `int`. */
  function Wrapped(t: Type): (r: Type)
    ensures SameKind(t, r)
    decreases t
  {
    match t
    case Basic(base, rows, cols, stride, align, rowMajor) =>
      if cols > 1 then Basic(base, rows, cols, Wrap(stride), align, rowMajor) else t
    case Array(elem, length, stride) => Array(Wrapped(elem), length, Wrap(stride))
    case Struct(name, packed, align, fields) =>
      Struct(name, packed, align, seq(|fields|, k requires 0 <= k < |fields| =>
        Member(Wrapped(fields[k].typ), AsInt(Wrap(fields[k].offset)), fields[k].rest)))
    case Interface(name, packing, rowMajor, fields) =>
      Interface(name, packing, rowMajor, seq(|fields|, k requires 0 <= k < |fields| =>
        Member(Wrapped(fields[k].typ), AsInt(Wrap(fields[k].offset)), fields[k].rest)))
    case _ => t
  }

  function WrappedMember(m: Member): (r: Member) {
    Member(Wrapped(m.typ), AsInt(Wrap(m.offset)), m.rest)
  }

  function WrappedMembers(ms: seq<Member>): (r: seq<Member>)
    ensures |r| == |ms| && forall k :: 0 <= k < |ms| ==> r[k] == WrappedMember(ms[k])
  {
    seq(|ms|, k requires 0 <= k < |ms| => WrappedMember(ms[k]))
  }

  lemma WrappedRecord(t: Type)
    requires IsRecord(t)
    ensures Wrapped(t) == if t.Struct? then Struct(t.name, t.packed, t.align, WrappedMembers(t.fields))
                          else Interface(t.name, t.packing, t.rowMajor, WrappedMembers(t.fields))
  {
    assert Wrapped(t).fields == WrappedMembers(t.fields);
  }

  lemma WrappedAppend(ms: seq<Member>, m: Member)
    ensures WrappedMembers(ms + [m]) == WrappedMembers(ms) + [WrappedMember(m)]
  {
    hide WrappedMember;
  }

  /** Strides and offsets fit their types. */
  predicate InRange(t: Type)
    decreases t
  {
    match t
    case Basic(_, _, cols, stride, _, _) => cols > 1 ==> stride < 0x1_0000_0000
    case Array(elem, _, stride) => stride < 0x1_0000_0000 && InRange(elem)
    case Struct(_, _, _, fields) =>
      forall k :: 0 <= k < |fields| ==> -0x8000_0000 <= fields[k].offset < 0x8000_0000 && InRange(fields[k].typ)
    case Interface(_, _, _, fields) =>
      forall k :: 0 <= k < |fields| ==> -0x8000_0000 <= fields[k].offset < 0x8000_0000 && InRange(fields[k].typ)
    case _ => true
  }

  lemma WrapIsSame(v: int)
    ensures Wrap(v) == v <==> 0 <= v < 0x1_0000_0000
    ensures AsInt(Wrap(v)) == v <==> -0x8000_0000 <= v < 0x8000_0000
  {
  }

  /** Nothing is lost iff strides and offsets fit. */
  lemma {:induction false} WrappedIsSame(t: Type)
    ensures Wrapped(t) == t <==> InRange(t)
    decreases t
  {
    if t.Array? {
      WrappedIsSame(t.elem);
      WrapIsSame(t.stride);
    } else if IsRecord(t) {
      forall k | 0 <= k < |t.fields|
        ensures WrappedMember(t.fields[k]) == t.fields[k] <==>
                -0x8000_0000 <= t.fields[k].offset < 0x8000_0000 && InRange(t.fields[k].typ)
      {
        WrappedIsSame(t.fields[k].typ);
        WrapIsSame(t.fields[k].offset);
      }
      RecordIsSame(t);
    }
  }

  lemma RecordIsSame(t: Type)
    requires IsRecord(t)
    ensures Wrapped(t) == t <==> forall k :: 0 <= k < |t.fields| ==> WrappedMember(t.fields[k]) == t.fields[k]
  {
    hide Wrapped, WrappedMember, WrappedMembers;
    WrappedRecord(t);
    var r := WrappedMembers(t.fields);
    assert r == t.fields <==> forall k :: 0 <= k < |t.fields| ==> r[k] == t.fields[k];
  }

  // ------------------------------------------------- sizes do not depend on strides and offsets

  lemma {:induction false} WrappedBlock(std: Std, t: Type)
    requires Block(std, t)
    ensures Block(std, Wrapped(t))
    decreases t
  {
    if t.Array? {
      WrappedBlock(std, t.elem);
    } else if IsRecord(t) {
      forall k | 0 <= k < |t.fields| ensures Sized(std, Wrapped(t.fields[k].typ)) {
        WrappedBlock(std, t.fields[k].typ);
      }
    }
  }

  lemma {:induction false} WrappedKeeps(std: Std, t: Type, rowMajor: bool)
    requires Block(std, t)
    ensures Block(std, Wrapped(t)) && Size(std, Wrapped(t), rowMajor) == Size(std, t, rowMajor)
    ensures Sized(std, t) ==> Sized(std, Wrapped(t)) && Align(std, Wrapped(t), rowMajor) == Align(std, t, rowMajor)
    decreases t, 1
  {
    WrappedBlock(std, t);
    var r := Wrapped(t);
    if t.Array? {
      WrappedKeeps(std, t.elem, rowMajor);
      SizeOfArray(std, t.elem, t.length, t.stride, rowMajor);
      SizeOfArray(std, r.elem, r.length, r.stride, rowMajor);
    } else if IsRecord(t) {
      WrappedFieldsKeep(std, t, |t.fields|, rowMajor);
    }
  }

  lemma {:induction false} WrappedFieldsKeep(std: Std, t: Type, n: nat, rowMajor: bool)
    requires IsRecord(t) && FieldsSized(std, t) && FieldsSized(std, Wrapped(t)) && n <= |t.fields|
    ensures FieldsAlign(std, Wrapped(t), n, rowMajor) == FieldsAlign(std, t, n, rowMajor)
    ensures End(std, Wrapped(t), n, rowMajor) == End(std, t, n, rowMajor)
    decreases t, 0, n
  {
    hide Size, Align, Sized, FieldsAlign, End, Wrapped;
    var r := Wrapped(t);
    WrappedRecord(t);
    if n == 0 {
      NoFieldsSame(std, t, r, rowMajor);
    } else {
      WrappedFieldsKeep(std, t, n - 1, rowMajor);
      var f, g := t.fields[n - 1], r.fields[n - 1];
      WrappedKeeps(std, f.typ, FieldRowMajor(f, rowMajor));
      SameStep(std, t, r, n, rowMajor);
    }
  }

  // ------------------------------------------------- nothing wraps below 2^31 bytes

  /** Without declared offsets, a type of less than 2^31 bytes is made explicit without loss. */
  lemma {:induction false} SmallIsExact(std: Std, t: Type, rowMajor: bool)
    requires Block(std, t) && Undeclared(t) && Size(std, t, rowMajor) < 0x8000_0000
    ensures InRange(Explicit(std, t, rowMajor)) && Wrapped(Explicit(std, t, rowMajor)) == Explicit(std, t, rowMajor)
    decreases t
  {
    hide Size, Stride, Explicit, InRange, SameKind, Wrapped;
    if t.Array? {
      SizeOfArray(std, t.elem, t.length, t.stride, rowMajor);
      MulPositive(t.length, Stride(std, t.elem, rowMajor));
      SizeFitsStride(std, t.elem, rowMajor);
      SmallIsExact(std, t.elem, rowMajor);
      ArrayInRange(std, t, rowMajor);
    } else if IsRecord(t) {
      ExplicitRecord(std, t, rowMajor);
      forall k | 0 <= k < |t.fields|
        ensures var f := Explicit(std, t, rowMajor).fields[k]; 0 <= f.offset < 0x8000_0000 && InRange(f.typ)
      {
        FieldWithin(std, t, k, rowMajor);
        SmallIsExact(std, t.fields[k].typ, FieldRowMajor(t.fields[k], rowMajor));
      }
      RecordInRange(std, t, rowMajor);
    } else {
      LeafInRange(std, t, rowMajor);
    }
    WrappedIsSame(Explicit(std, t, rowMajor));
  }

  lemma LeafInRange(std: Std, t: Type, rowMajor: bool)
    requires Sized(std, t) && (t.Basic? || t.Handle?)
    ensures InRange(Explicit(std, t, rowMajor))
  {
  }

  lemma ArrayInRange(std: Std, t: Type, rowMajor: bool)
    requires Sized(std, t) && t.Array? && Stride(std, t.elem, rowMajor) < 0x1_0000_0000
    requires InRange(Explicit(std, t.elem, rowMajor))
    ensures InRange(Explicit(std, t, rowMajor))
  {
    hide Stride;
  }

  lemma RecordInRange(std: Std, t: Type, rowMajor: bool)
    requires IsRecord(t) && FieldsSized(std, t) && |Explicit(std, t, rowMajor).fields| == |t.fields|
    requires forall k :: 0 <= k < |t.fields| ==>
               var f := Explicit(std, t, rowMajor).fields[k]; 0 <= f.offset < 0x8000_0000 && InRange(f.typ)
    ensures InRange(Explicit(std, t, rowMajor))
  {
    hide Explicit;
  }

  /** Without declared offsets a field ends within the size of the record. */
  lemma FieldWithin(std: Std, t: Type, k: nat, rowMajor: bool)
    requires IsRecord(t) && FieldsSized(std, t) && NoOffsets(t) && k < |t.fields|
    ensures var r, row := Explicit(std, t, rowMajor), FieldRowMajor(t.fields[k], rowMajor);
            && IsRecord(r) && |r.fields| == |t.fields| && r.fields[k].typ == Explicit(std, t.fields[k].typ, row)
            && 0 <= r.fields[k].offset <= r.fields[k].offset + Size(std, t.fields[k].typ, row) <= Size(std, t, rowMajor)
  {
    hide Size, Align, AlignUp, Explicit, ExplicitFields, FieldRowMajor, Sized, End, FieldsAlign;
    RecordBlock(std, t);
    ExplicitRecord(std, t, rowMajor);
    NextField(std, t, k, rowMajor);
    NextGrows(std, t, k + 1, |t.fields|, rowMajor);
    NextIsEnd(std, t, |t.fields|, rowMajor);
    EndWithin(std, t, rowMajor);
  }

  lemma {:induction false} NextGrows(std: Std, t: Type, k: nat, n: nat, rowMajor: bool)
    requires IsRecord(t) && FieldsSized(std, t) && NoOffsets(t) && k <= n <= |t.fields|
    ensures ExplicitFields(std, t, k, rowMajor).1 <= ExplicitFields(std, t, n, rowMajor).1
    decreases n
  {
    hide Size, Explicit, ExplicitFields, FieldRowMajor, Sized;
    if k < n {
      NextGrows(std, t, k, n - 1, rowMajor);
      NextField(std, t, n - 1, rowMajor);
    }
  }

  lemma EndWithin(std: Std, t: Type, rowMajor: bool)
    requires IsRecord(t) && FieldsSized(std, t)
    ensures End(std, t, |t.fields|, rowMajor) <= Size(std, t, rowMajor)
  {
    hide AlignUp, End, FieldsAlign;
    AlignUpIs(End(std, t, |t.fields|, rowMajor), FieldsAlign(std, t, |t.fields|, rowMajor));
  }

  // ------------------------------------------------- measuring on words

  /** glsl_get_explicit_size on words. */
  function MeasuredWord(t: Type, toStride: bool): (s: u32)
    requires Measurable(t)
    decreases t, 1
  {
    if IsRecord(t) then LastWord(t, |t.fields|)
    else if t.Array? then
      if t.length == 0 then Wrap(t.stride)
      else Wrap(Spaced(t.length, t.stride, if toStride then t.stride else MeasuredWord(t.elem, false)))
    else Wrap(ExplicitSize(t, toStride))
  }

  function LastWord(t: Type, n: nat): (s: u32)
    requires IsRecord(t) && Measurable(t) && n <= |t.fields|
    decreases t, 0, n
  {
    if n == 0 then 0
    else
      var last := Wrap(t.fields[n - 1].offset + MeasuredWord(t.fields[n - 1].typ, false));
      if LastWord(t, n - 1) < last then last else LastWord(t, n - 1)
  }

  /** The size measured is right iff it fits 32 bits: then nothing wraps on the way either. */
  lemma {:induction false} MeasuredIff(t: Type, toStride: bool)
    requires Measurable(t)
    ensures MeasuredWord(t, toStride) == ExplicitSize(t, toStride) <==> ExplicitSize(t, toStride) < 0x1_0000_0000
    decreases t, 1
  {
    hide Wrap, Spaced, LastWord, LastByte;
    if IsRecord(t) {
      if ExplicitSize(t, toStride) < 0x1_0000_0000 { LastWordIs(t, |t.fields|); }
    } else if t.Array? {
      MeasuredIff(t.elem, false);
      ArrayMeasured(t, toStride);
    } else {
      WrapIsSame(ExplicitSize(t, toStride));
    }
  }

  lemma ArrayMeasured(t: Type, toStride: bool)
    requires t.Array? && Measurable(t)
    requires MeasuredWord(t.elem, false) == ExplicitSize(t.elem, false) <==> ExplicitSize(t.elem, false) < 0x1_0000_0000
    ensures MeasuredWord(t, toStride) == ExplicitSize(t, toStride) <==> ExplicitSize(t, toStride) < 0x1_0000_0000
  {
    hide Wrap, Spaced;
    WrapIsSame(t.stride);
    if t.length > 0 {
      if toStride {
        WrapIsSame(Spaced(t.length, t.stride, t.stride));
      } else {
        SpacedWord(t.length, t.stride, ExplicitSize(t.elem, false), MeasuredWord(t.elem, false));
      }
    }
  }

  lemma SpacedWord(n: nat, stride: nat, last: nat, word: u32)
    requires n > 0 && (word == last <==> last < 0x1_0000_0000)
    ensures Wrap(Spaced(n, stride, word)) == Spaced(n, stride, last) <==> Spaced(n, stride, last) < 0x1_0000_0000
  {
    hide Wrap;
    MulPositive(stride, n - 1);
    WrapIsSame(Spaced(n, stride, last));
  }

  lemma {:induction false} LastWordIs(t: Type, n: nat)
    requires IsRecord(t) && Measurable(t) && n <= |t.fields| && LastByte(t, n) < 0x1_0000_0000
    ensures LastWord(t, n) == LastByte(t, n)
    decreases t, 0, n
  {
    hide ExplicitSize, MeasuredWord, Wrap, LastByte, LastWord, Measurable;
    if n == 0 {
      NoWords(t);
    } else {
      NextByte(t, n);
      NextWord(t, n);
      LastWordIs(t, n - 1);
      var f := t.fields[n - 1];
      FieldMeasurable(t, n - 1);
      MeasuredIff(f.typ, false);
      WrapSmall(f.offset + ExplicitSize(f.typ, false));
    }
  }

  lemma FieldMeasurable(t: Type, k: nat)
    requires IsRecord(t) && Measurable(t) && k < |t.fields|
    ensures t.fields[k].offset >= 0 && Measurable(t.fields[k].typ)
  {
  }

  lemma NoWords(t: Type)
    requires IsRecord(t) && Measurable(t)
    ensures LastWord(t, 0) == 0 && LastByte(t, 0) == 0
  {
  }

  lemma NextWord(t: Type, n: nat)
    requires IsRecord(t) && Measurable(t) && 0 < n <= |t.fields|
    ensures LastWord(t, n)
            == Max(LastWord(t, n - 1), Wrap(t.fields[n - 1].offset + MeasuredWord(t.fields[n - 1].typ, false)))
  {
    hide Wrap, MeasuredWord;
  }
}
