/**
 Explicit types: what their strides and offsets place in memory, and how large
 glsl_get_explicit_size says they are.
 */
module Placement {
  import opened Products
  import opened GlslTypes
  import opened TypeTrees
  import opened StdLayouts

  /** glsl_base_type_bit_size in bytes. */
  function Bytes(base: Base): (n: nat)
    ensures n <= Component(base)
  {
    if base in {Double, Uint64, Int64} then 8
    else if base in {Float16, BFloat16, Uint16, Int16} then 2
    else if base in {Uint8, Int8, E4M3FN, E5M2} then 1
    else 4
  }

  function VectorBytes(t: Type): (n: nat)
    requires IsVector(t)
  {
    if t.Handle? then 8 else t.rows * Bytes(t.base)
  }

  /** Types with a measurable size: every offset is set, every matrix has vectors. */
  predicate Measurable(t: Type)
    decreases t
  {
    match t
    case Basic(_, rows, cols, _, _, _) => cols >= 1 && (cols > 1 ==> rows >= 1)
    case Handle(_, _, _, _, _) => true
    case Array(elem, _, _) => Measurable(elem)
    case Struct(_, _, _, fields) => forall k :: 0 <= k < |fields| ==> fields[k].offset >= 0 && Measurable(fields[k].typ)
    case Interface(_, _, _, fields) =>
      forall k :: 0 <= k < |fields| ==> fields[k].offset >= 0 && Measurable(fields[k].typ)
    case _ => false
  }

  /** Bytes of `n` copies that are `stride` apart, the last of which takes `last`. */
  function Spaced(n: nat, stride: nat, last: nat): (s: nat)
    requires n > 0
  {
    MulPositive(stride, n - 1);
    stride * (n - 1) + last
  }

  /** glsl_get_explicit_size */
  function ExplicitSize(t: Type, toStride: bool): (s: nat)
    requires Measurable(t)
    decreases t, 1
  {
    if IsRecord(t) then LastByte(t, |t.fields|)
    else if t.Array? then
      if t.length == 0 then t.stride
      else Spaced(t.length, t.stride, if toStride then t.stride else ExplicitSize(t.elem, false))
    else if IsMatrix(t) then
      Spaced(VectorCount(t, t.rowMajor), t.stride, if toStride then t.stride else VectorBytes(VectorOf(t, t.rowMajor)))
    else VectorBytes(t)
  }

  /** The end of the field that reaches furthest among the first `n`. */
  function LastByte(t: Type, n: nat): (s: nat)
    requires IsRecord(t) && Measurable(t) && n <= |t.fields|
    ensures forall k :: 0 <= k < n ==> t.fields[k].offset + ExplicitSize(t.fields[k].typ, false) <= s
    decreases t, 0, n
  {
    if n == 0 then 0
    else Max(LastByte(t, n - 1), t.fields[n - 1].offset + ExplicitSize(t.fields[n - 1].typ, false))
  }

  /** Strides leave room for what they separate and fields follow each other. */
  predicate WellLaid(t: Type)
    requires Measurable(t)
    decreases t
  {
    if IsRecord(t) then
      && (forall k :: 0 <= k < |t.fields| ==> WellLaid(t.fields[k].typ))
      && (forall k :: 0 < k < |t.fields| ==>
            t.fields[k - 1].offset + ExplicitSize(t.fields[k - 1].typ, false) <= t.fields[k].offset)
    else if t.Array? then t.length > 0 && WellLaid(t.elem) && ExplicitSize(t.elem, false) <= t.stride
    else IsMatrix(t) ==> VectorBytes(VectorOf(t, t.rowMajor)) <= t.stride
  }

  // ------------------------------------------------- what lies where

  /** The bytes of one scalar or vector. */
  datatype Extent = Extent(start: int, size: nat)

  /** All scalars and vectors of a type placed at `at`, in declaration order. */
  function Extents(t: Type, at: int): (s: seq<Extent>)
    requires Measurable(t)
    decreases t, 1
  {
    if IsRecord(t) then FieldExtents(t, |t.fields|, at)
    else if t.Array? then ElementExtents(t, t.length, at)
    else if IsMatrix(t) then VectorExtents(t, VectorCount(t, t.rowMajor), at)
    else [Extent(at, VectorBytes(t))]
  }

  function FieldExtents(t: Type, n: nat, at: int): (s: seq<Extent>)
    requires IsRecord(t) && Measurable(t) && n <= |t.fields|
    decreases t, 0, n
  {
    if n == 0 then [] else FieldExtents(t, n - 1, at) + Extents(t.fields[n - 1].typ, at + t.fields[n - 1].offset)
  }

  function ElementExtents(t: Type, n: nat, at: int): (s: seq<Extent>)
    requires t.Array? && Measurable(t)
    decreases t, 0, n
  {
    if n == 0 then [] else ElementExtents(t, n - 1, at) + Extents(t.elem, at + t.stride * (n - 1))
  }

  function VectorExtents(t: Type, n: nat, at: int): (s: seq<Extent>)
    requires IsMatrix(t)
  {
    if n == 0 then []
    else VectorExtents(t, n - 1, at) + [Extent(at + t.stride * (n - 1), VectorBytes(VectorOf(t, t.rowMajor)))]
  }

  /** In order, without overlap, and within the bounds. */
  predicate Ordered(s: seq<Extent>, lo: int, hi: int) {
    && lo <= hi
    && (forall k :: 0 <= k < |s| ==> lo <= s[k].start && s[k].start + s[k].size <= hi)
    && (forall j, k :: 0 <= j < k < |s| ==> s[j].start + s[j].size <= s[k].start)
  }

  lemma OrderedAppend(a: seq<Extent>, b: seq<Extent>, lo: int, mid: int, next: int, hi: int)
    requires Ordered(a, lo, mid) && mid <= next && Ordered(b, next, hi)
    ensures Ordered(a + b, lo, hi)
  {
    var s := a + b;
    forall k | 0 <= k < |s| ensures lo <= s[k].start && s[k].start + s[k].size <= hi {
    }
    forall j, k | 0 <= j < k < |s| ensures s[j].start + s[j].size <= s[k].start {
    }
  }

  /**
   No byte of a well laid type belongs to two scalars or vectors, at any depth, and all of them
   lie within the explicit size.
   */
  lemma {:induction false} NoOverlap(t: Type, at: int)
    requires Measurable(t) && WellLaid(t)
    ensures Ordered(Extents(t, at), at, at + ExplicitSize(t, false))
    decreases t, 1
  {
    hide Ordered;
    if IsRecord(t) {
      FieldsApart(t, |t.fields|, at);
    } else if t.Array? {
      ElementsApart(t, t.length, at);
    } else if IsMatrix(t) {
      VectorsApart(t, VectorCount(t, t.rowMajor), at);
    } else {
      OrderedOne(at, VectorBytes(t));
    }
  }

  lemma OrderedOne(at: int, n: nat)
    ensures Ordered([Extent(at, n)], at, at + n)
  {
  }

  lemma OrderedNone(at: int)
    ensures Ordered([], at, at)
  {
  }

  lemma NoFields(t: Type, at: int)
    requires IsRecord(t) && Measurable(t)
    ensures LastByte(t, 0) == 0 && FieldExtents(t, 0, at) == []
  {
  }

  lemma NextByte(t: Type, n: nat)
    requires IsRecord(t) && Measurable(t) && 0 < n <= |t.fields|
    ensures LastByte(t, n) == Max(LastByte(t, n - 1), t.fields[n - 1].offset + ExplicitSize(t.fields[n - 1].typ, false))
  {
    hide ExplicitSize;
  }

  lemma NextExtents(t: Type, n: nat, at: int)
    requires IsRecord(t) && Measurable(t) && 0 < n <= |t.fields|
    ensures FieldExtents(t, n, at) ==
            FieldExtents(t, n - 1, at) + Extents(t.fields[n - 1].typ, at + t.fields[n - 1].offset)
  {
    hide Extents;
  }

  lemma {:induction false} FieldsApart(t: Type, n: nat, at: int)
    requires IsRecord(t) && Measurable(t) && WellLaid(t) && n <= |t.fields|
    ensures Ordered(FieldExtents(t, n, at), at, at + LastByte(t, n))
    ensures n > 0 ==> LastByte(t, n) == t.fields[n - 1].offset + ExplicitSize(t.fields[n - 1].typ, false)
    decreases t, 0, n
  {
    hide Ordered, ExplicitSize, Extents, LastByte, FieldExtents;
    if n == 0 {
      OrderedNone(at);
      NoFields(t, at);
    } else {
      FieldsApart(t, n - 1, at);
      NextByte(t, n);
      NextExtents(t, n, at);
      if n == 1 { NoFields(t, at); }
      var f := t.fields[n - 1];
      NoOverlap(f.typ, at + f.offset);
      OrderedAppend(FieldExtents(t, n - 1, at), Extents(f.typ, at + f.offset),
                    at, at + LastByte(t, n - 1), at + f.offset, at + f.offset + ExplicitSize(f.typ, false));
    }
  }

  lemma {:induction false} ElementsApart(t: Type, n: nat, at: int)
    requires t.Array? && Measurable(t) && WellLaid(t)
    ensures n == 0 ==> ElementExtents(t, n, at) == []
    ensures n > 0 ==> Ordered(ElementExtents(t, n, at), at, at + Spaced(n, t.stride, ExplicitSize(t.elem, false)))
    decreases t, 0, n
  {
    hide Ordered, Extents;
    if n > 0 {
      ElementsApart(t, n - 1, at);
      var size, here := ExplicitSize(t.elem, false), at + t.stride * (n - 1);
      NoOverlap(t.elem, here);
      if n > 1 {
        MulAdd(t.stride, n - 2, 1);
        OrderedAppend(ElementExtents(t, n - 1, at), Extents(t.elem, here), at, at + Spaced(n - 1, t.stride, size),
                      here, here + size);
      } else {
        assert ElementExtents(t, n, at) == Extents(t.elem, here);
      }
    }
  }

  lemma {:induction false} VectorsApart(t: Type, n: nat, at: int)
    requires IsMatrix(t) && VectorBytes(VectorOf(t, t.rowMajor)) <= t.stride
    ensures n == 0 ==> VectorExtents(t, n, at) == []
    ensures n > 0 ==> Ordered(VectorExtents(t, n, at), at,
                              at + Spaced(n, t.stride, VectorBytes(VectorOf(t, t.rowMajor))))
    decreases n
  {
    hide Ordered;
    if n > 0 {
      VectorsApart(t, n - 1, at);
      var size, here := VectorBytes(VectorOf(t, t.rowMajor)), at + t.stride * (n - 1);
      OrderedOne(here, size);
      if n > 1 {
        MulAdd(t.stride, n - 2, 1);
        OrderedAppend(VectorExtents(t, n - 1, at), [Extent(here, size)], at, at + Spaced(n - 1, t.stride, size), here,
                      here + size);
      } else {
        assert VectorExtents(t, n, at) == [Extent(here, size)];
      }
    }
  }
}
