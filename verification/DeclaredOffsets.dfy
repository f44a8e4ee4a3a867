/**
 Layouts with declared offsets, at any depth: when the scalars and vectors of the explicit type
 follow each other without sharing a byte, decided on the type that was declared.
 */
module DeclaredOffsets {
  import opened Products
  import opened Alignment
  import opened TypeTrees
  import opened StdLayouts
  import opened Placement
  import opened ExplicitLayouts
  import opened LeafAlignment

  // ------------------------------------------------- places, from the declared type alone

  /** Where field `k` goes. */
  function Place(std: Std, t: Type, k: nat, rowMajor: bool): (p: nat)
    requires IsRecord(t) && FieldsSized(std, t) && k < |t.fields|
    decreases k, 1
  {
    var f := t.fields[k];
    AlignUp(if f.offset >= 0 then f.offset else Next(std, t, k, rowMajor),
            Align(std, f.typ, FieldRowMajor(f, rowMajor)))
  }

  /** The first byte after the size of the first `k` fields. */
  function Next(std: Std, t: Type, k: nat, rowMajor: bool): (p: nat)
    requires IsRecord(t) && FieldsSized(std, t) && k <= |t.fields|
    decreases k, 0
  {
    if k == 0 then 0
    else Place(std, t, k - 1, rowMajor) + Size(std, t.fields[k - 1].typ, FieldRowMajor(t.fields[k - 1], rowMajor))
  }

  /** The explicit type puts the fields there. */
  lemma {:induction false} PlaceIsOffset(std: Std, t: Type, k: nat, rowMajor: bool)
    requires IsRecord(t) && FieldsSized(std, t) && k < |t.fields|
    ensures Explicit(std, t, rowMajor).fields[k].offset == Place(std, t, k, rowMajor)
    ensures ExplicitFields(std, t, k, rowMajor).1 == Next(std, t, k, rowMajor)
    decreases k
  {
    hide Explicit, ExplicitFields, AlignUp, Size, Align, FieldRowMajor, Sized, Place, Next;
    RecordBlock(std, t);
    if k == 0 {
      NoFieldsYet(std, t, rowMajor);
    } else {
      PlaceIsOffset(std, t, k - 1, rowMajor);
      FieldPlace(std, t, k - 1, rowMajor);
    }
    NextIs(std, t, k, rowMajor);
    FieldPlace(std, t, k, rowMajor);
    PlaceIs(std, t, k, rowMajor);
  }

  lemma PlaceIs(std: Std, t: Type, k: nat, rowMajor: bool)
    requires IsRecord(t) && FieldsSized(std, t) && k < |t.fields|
    ensures var f := t.fields[k];
            Place(std, t, k, rowMajor) ==
            AlignUp(if f.offset >= 0 then f.offset else Next(std, t, k, rowMajor),
                    Align(std, f.typ, FieldRowMajor(f, rowMajor)))
  {
    hide AlignUp, Align, FieldRowMajor, Next;
  }

  lemma NextIs(std: Std, t: Type, k: nat, rowMajor: bool)
    requires IsRecord(t) && FieldsSized(std, t) && k <= |t.fields|
    ensures Next(std, t, 0, rowMajor) == 0
    ensures k > 0 ==>
              Next(std, t, k, rowMajor) == Place(std, t, k - 1, rowMajor)
                                           + Size(std, t.fields[k - 1].typ, FieldRowMajor(t.fields[k - 1], rowMajor))
  {
    hide Size, Place, FieldRowMajor;
  }

  // ------------------------------------------------- how far a type reaches

  /** There is no scalar or vector in it. */
  predicate Hollow(t: Type)
    decreases t
  {
    match t
    case Array(elem, _, _) => Hollow(elem)
    case Struct(_, _, _, fields) => forall k :: 0 <= k < |fields| ==> Hollow(fields[k].typ)
    case Interface(_, _, _, fields) => forall k :: 0 <= k < |fields| ==> Hollow(fields[k].typ)
    case _ => false
  }

  predicate HollowUpTo(t: Type, n: nat)
    requires IsRecord(t) && n <= |t.fields|
  {
    forall k :: 0 <= k < n ==> Hollow(t.fields[k].typ)
  }

  /** Where its first scalar or vector starts. */
  function First(std: Std, t: Type, rowMajor: bool): (p: nat)
    requires Block(std, t)
    decreases t, 1
  {
    if IsRecord(t) then FirstIn(std, t, |t.fields|, rowMajor)
    else if t.Array? then First(std, t.elem, rowMajor)
    else 0
  }

  function FirstIn(std: Std, t: Type, n: nat, rowMajor: bool): (p: nat)
    requires IsRecord(t) && FieldsSized(std, t) && n <= |t.fields|
    decreases t, 0, n
  {
    if n == 0 then 0
    else if !HollowUpTo(t, n - 1) then FirstIn(std, t, n - 1, rowMajor)
    else Place(std, t, n - 1, rowMajor) + First(std, t.fields[n - 1].typ, FieldRowMajor(t.fields[n - 1], rowMajor))
  }

  /** Where its last scalar or vector ends. */
  function Reach(std: Std, t: Type, rowMajor: bool): (p: nat)
    requires Block(std, t)
    decreases t, 1
  {
    if IsRecord(t) then ReachIn(std, t, |t.fields|, rowMajor)
    else if t.Array? then Spaced(t.length, Stride(std, t.elem, rowMajor), Reach(std, t.elem, rowMajor))
    else if IsMatrix(t) then
      var v := VectorOf(t, rowMajor);
      Spaced(VectorCount(t, rowMajor), Stride(std, v, false), VectorBytes(v))
    else VectorBytes(t)
  }

  function ReachIn(std: Std, t: Type, n: nat, rowMajor: bool): (p: nat)
    requires IsRecord(t) && FieldsSized(std, t) && n <= |t.fields|
    decreases t, 0, n
  {
    if n == 0 then 0
    else if Hollow(t.fields[n - 1].typ) then ReachIn(std, t, n - 1, rowMajor)
    else Place(std, t, n - 1, rowMajor) + Reach(std, t.fields[n - 1].typ, FieldRowMajor(t.fields[n - 1], rowMajor))
  }

  /** Nothing reaches past the start of what comes next, in records and in arrays. */
  predicate Clear(std: Std, t: Type, rowMajor: bool)
    requires Block(std, t)
    decreases t, 1
  {
    if IsRecord(t) then forall k :: 0 <= k < |t.fields| ==> FieldClear(std, t, k, rowMajor)
    else t.Array? ==> ElementsClear(std, t, t.length, rowMajor)
  }

  predicate FieldClear(std: Std, t: Type, k: nat, rowMajor: bool)
    requires IsRecord(t) && FieldsSized(std, t) && k < |t.fields|
    decreases t, 0
  {
    var f, row := t.fields[k].typ, FieldRowMajor(t.fields[k], rowMajor);
    && Clear(std, f, row)
    && (!Hollow(f) ==> ReachIn(std, t, k, rowMajor) <= Place(std, t, k, rowMajor) + First(std, f, row))
  }

  predicate ElementsClear(std: Std, t: Type, n: nat, rowMajor: bool)
    requires Sized(std, t) && t.Array?
    decreases t, 0
  {
    && Clear(std, t.elem, rowMajor)
    && (Hollow(t.elem) || n <= 1
        || Reach(std, t.elem, rowMajor) <= Stride(std, t.elem, rowMajor) + First(std, t.elem, rowMajor))
  }

  // ------------------------------------------------- sequences of extents

  predicate Sorted(s: seq<Extent>) {
    forall j, k :: 0 <= j < k < |s| ==> s[j].start + s[j].size <= s[k].start
  }

  /** Where the last one ends. */
  function EndOf(s: seq<Extent>): (e: int)
    requires s != []
  {
    s[|s| - 1].start + s[|s| - 1].size
  }

  lemma SortedAppend(a: seq<Extent>, b: seq<Extent>)
    ensures Sorted(a + b) <==> Sorted(a) && Sorted(b) && (a == [] || b == [] || EndOf(a) <= b[0].start)
  {
    var s := a + b;
    assert forall i :: 0 <= i < |a| ==> s[i] == a[i];
    assert forall i :: 0 <= i < |b| ==> s[|a| + i] == b[i];
    if Sorted(s) { SortedParts(a, b); }
    if Sorted(a) && Sorted(b) && (a == [] || b == [] || EndOf(a) <= b[0].start) { PartsSorted(a, b); }
  }

  lemma SortedParts(a: seq<Extent>, b: seq<Extent>)
    requires Sorted(a + b)
    ensures Sorted(a) && Sorted(b) && (a == [] || b == [] || EndOf(a) <= b[0].start)
  {
    var s := a + b;
    forall j, k | 0 <= j < k < |a| ensures a[j].start + a[j].size <= a[k].start { assert s[j] == a[j] && s[k] == a[k]; }
    forall j, k | 0 <= j < k < |b| ensures b[j].start + b[j].size <= b[k].start {
      assert s[|a| + j] == b[j] && s[|a| + k] == b[k];
    }
    if a != [] && b != [] { assert s[|a| - 1] == a[|a| - 1] && s[|a|] == b[0]; }
  }

  lemma PartsSorted(a: seq<Extent>, b: seq<Extent>)
    requires Sorted(a) && Sorted(b) && (a == [] || b == [] || EndOf(a) <= b[0].start)
    ensures Sorted(a + b)
  {
    var s := a + b;
    forall j, k | 0 <= j < k < |s| ensures s[j].start + s[j].size <= s[k].start {
      if j < |a| <= k {
        assert j == |a| - 1 || a[j].start + a[j].size <= a[|a| - 1].start;
        assert k == |a| || b[0].start + b[0].size <= b[k - |a|].start;
      }
    }
  }

  /** The extents are those of a type with this first start and this reach. */
  predicate Spans(s: seq<Extent>, hollow: bool, first: int, reach: int) {
    (s == [] <==> hollow) && (s != [] ==> s[0].start == first && EndOf(s) == reach)
  }

  lemma SpansAppend(a: seq<Extent>, b: seq<Extent>, hollow: bool, first: int, reach: int,
                    hollow': bool, first': int, reach': int)
    requires Spans(a, hollow, first, reach) && Spans(b, hollow', first', reach')
    ensures Spans(a + b, hollow && hollow', if hollow then first' else first, if hollow' then reach else reach')
  {
  }

  lemma SortedIsOrdered(s: seq<Extent>, hollow: bool, first: int, lo: int, hi: int)
    requires Spans(s, hollow, first, hi) && lo <= hi && lo <= first
    ensures Ordered(s, lo, hi) <==> Sorted(s)
  {
    if Sorted(s) {
      forall k | 0 <= k < |s| ensures lo <= s[k].start && s[k].start + s[k].size <= hi {
        assert k == 0 || s[0].start + s[0].size <= s[k].start;
        assert k == |s| - 1 || s[k].start + s[k].size <= s[|s| - 1].start;
      }
    }
  }

  // ------------------------------------------------- the extents of an explicit type

  ghost predicate Agrees(std: Std, t: Type, rowMajor: bool, s: seq<Extent>, at: int)
    requires Block(std, t)
  {
    && Spans(s, Hollow(t), at + First(std, t, rowMajor), at + Reach(std, t, rowMajor))
    && (Sorted(s) <==> Clear(std, t, rowMajor))
  }

  /** First start, reach and order of the extents, all read off the declared type. */
  lemma {:induction false} ExtentsAgree(std: Std, t: Type, rowMajor: bool, at: int)
    requires Block(std, t)
    ensures var r := Explicit(std, t, rowMajor); Measurable(r) && Agrees(std, t, rowMajor, Extents(r, at), at)
    decreases t, 2
  {
    ExplicitMeasurable(std, t, rowMajor);
    if IsRecord(t) {
      RecordAgrees(std, t, rowMajor, at);
    } else if t.Array? {
      ArrayAgrees(std, t, rowMajor, at);
    } else if IsMatrix(t) {
      MatrixAgrees(std, t, rowMajor, at);
    } else {
      VectorAgrees(std, t, rowMajor, at);
    }
  }

  lemma VectorAgrees(std: Std, t: Type, rowMajor: bool, at: int)
    requires Sized(std, t) && IsVector(t)
    ensures Measurable(t) && Explicit(std, t, rowMajor) == t && Agrees(std, t, rowMajor, Extents(t, at), at)
  {
    assert Extents(t, at) == [Extent(at, VectorBytes(t))];
  }

  lemma {:induction false} VectorsSpan(r: Type, n: nat, at: int)
    requires IsMatrix(r) && n > 0
    ensures VectorExtents(r, n, at) != []
    ensures Spans(VectorExtents(r, n, at), false, at, at + Spaced(n, r.stride, VectorBytes(VectorOf(r, r.rowMajor))))
  {
    if n == 1 {
      assert VectorExtents(r, 0, at) == [];
    } else {
      VectorsSpan(r, n - 1, at);
    }
  }

  lemma MatrixAgrees(std: Std, t: Type, rowMajor: bool, at: int)
    requires Sized(std, t) && IsMatrix(t) && Measurable(Explicit(std, t, rowMajor))
    ensures Agrees(std, t, rowMajor, Extents(Explicit(std, t, rowMajor), at), at)
  {
    hide Size, Align, Stride, VectorBytes, VectorExtents, Spans, Sorted;
    var r, v, n := Explicit(std, t, rowMajor), VectorOf(t, rowMajor), VectorCount(t, rowMajor);
    assert r.stride == Stride(std, v, false) && VectorOf(r, r.rowMajor) == v && VectorCount(r, r.rowMajor) == n;
    VectorFits(std, v);
    VectorsSpan(r, n, at);
    VectorsApart(r, n, at);
    OrderedIsSorted(VectorExtents(r, n, at), at, at + Spaced(n, r.stride, VectorBytes(v)));
  }

  lemma OrderedIsSorted(s: seq<Extent>, lo: int, hi: int)
    requires Ordered(s, lo, hi)
    ensures Sorted(s)
  {
  }

  lemma {:induction false} ArrayAgrees(std: Std, t: Type, rowMajor: bool, at: int)
    requires Sized(std, t) && t.Array? && Measurable(Explicit(std, t, rowMajor))
    ensures Agrees(std, t, rowMajor, Extents(Explicit(std, t, rowMajor), at), at)
    decreases t, 1
  {
    hide Extents, Explicit, Stride, Reach, First, Spans, Sorted, Clear, Hollow, Measurable, ElementExtents;
    var r := Explicit(std, t, rowMajor);
    ArrayUnit(std, t, rowMajor);
    ElementsAgree(std, t, t.length, rowMajor, at);
    ArrayParts(std, t, rowMajor, at);
  }

  lemma ArrayParts(std: Std, t: Type, rowMajor: bool, at: int)
    requires Sized(std, t) && t.Array? && Measurable(Explicit(std, t, rowMajor))
    ensures Explicit(std, t, rowMajor).Array?
    ensures Extents(Explicit(std, t, rowMajor), at) == ElementExtents(Explicit(std, t, rowMajor), t.length, at)
    ensures Hollow(t) == Hollow(t.elem) && First(std, t, rowMajor) == First(std, t.elem, rowMajor)
    ensures Reach(std, t, rowMajor) == Spaced(t.length, Stride(std, t.elem, rowMajor), Reach(std, t.elem, rowMajor))
    ensures Clear(std, t, rowMajor) == ElementsClear(std, t, t.length, rowMajor)
  {
    hide Stride, ElementExtents, ElementsClear, Measurable;
  }

  lemma {:induction false} ElementsAgree(std: Std, t: Type, n: nat, rowMajor: bool, at: int)
    requires Sized(std, t) && t.Array? && Measurable(Explicit(std, t, rowMajor)) && n > 0
    ensures var s := ElementExtents(Explicit(std, t, rowMajor), n, at);
            && Spans(s, Hollow(t.elem), at + First(std, t.elem, rowMajor),
                     at + Spaced(n, Stride(std, t.elem, rowMajor), Reach(std, t.elem, rowMajor)))
            && (Sorted(s) <==> ElementsClear(std, t, n, rowMajor))
    decreases t, 0, n
  {
    hide Extents, Explicit, Stride, Reach, First, Spans, Sorted, Clear, Hollow, Measurable, ElementExtents, Spaced;
    var r, stride := Explicit(std, t, rowMajor), Stride(std, t.elem, rowMajor);
    ArrayUnit(std, t, rowMajor);
    NextElement(r, n, at);
    var here := at + stride * (n - 1);
    ExtentsAgree(std, t.elem, rowMajor, here);
    var a, b := ElementExtents(r, n - 1, at), Extents(r.elem, here);
    var hollow, first, reach := Hollow(t.elem), First(std, t.elem, rowMajor), Reach(std, t.elem, rowMajor);
    SortedAppend(a, b);
    SpacedIs(n, stride, reach);
    if n == 1 {
      assert a == [] && a + b == b;
      SortedNone();
    } else {
      ElementsAgree(std, t, n - 1, rowMajor, at);
      SpacedIs(n - 1, stride, reach);
      MulAdd(stride, n - 2, 1);
      SpansAppend(a, b, hollow, at + first, at + Spaced(n - 1, stride, reach), hollow, here + first, here + reach);
      if hollow {
        SpansNone(a + b, here + first, at + Spaced(n - 1, stride, reach), at + first, at + Spaced(n, stride, reach));
      }
      SpansEnds(a, hollow, at + first, at + Spaced(n - 1, stride, reach));
      SpansEnds(b, hollow, here + first, here + reach);
    }
  }

  lemma SpacedIs(n: nat, stride: nat, last: nat)
    requires n > 0
    ensures Spaced(n, stride, last) == stride * (n - 1) + last
  {
  }

  lemma SpansEnds(s: seq<Extent>, hollow: bool, first: int, reach: int)
    requires Spans(s, hollow, first, reach)
    ensures (s == [] <==> hollow) && (s != [] ==> s[0].start == first && EndOf(s) == reach)
  {
  }

  lemma SpansNone(s: seq<Extent>, first: int, reach: int, first': int, reach': int)
    requires Spans(s, true, first, reach)
    ensures Spans(s, true, first', reach')
  {
  }

  lemma SortedNone()
    ensures Sorted([])
  {
  }

  lemma NextElement(r: Type, n: nat, at: int)
    requires r.Array? && Measurable(r) && n > 0
    ensures ElementExtents(r, n, at) == ElementExtents(r, n - 1, at) + Extents(r.elem, at + r.stride * (n - 1))
    ensures ElementExtents(r, 0, at) == []
  {
    hide Extents;
  }

  lemma {:induction false} RecordAgrees(std: Std, t: Type, rowMajor: bool, at: int)
    requires IsRecord(t) && FieldsSized(std, t) && Measurable(Explicit(std, t, rowMajor))
    ensures Agrees(std, t, rowMajor, Extents(Explicit(std, t, rowMajor), at), at)
    decreases t, 1
  {
    hide Extents, Explicit, Reach, First, Spans, Sorted, Clear, Hollow, Measurable, FieldExtents, ReachIn, FirstIn,
         FieldClear, Sized, HollowUpTo, ClearUpTo, Agrees, FieldsSized;
    RecordBlock(std, t);
    RecordParts(std, t, rowMajor, at);
    FieldsAgree(std, t, |t.fields|, rowMajor, at);
    AgreesFrom(std, t, rowMajor, Extents(Explicit(std, t, rowMajor), at), at);
  }

  lemma AgreesFrom(std: Std, t: Type, rowMajor: bool, s: seq<Extent>, at: int)
    requires Block(std, t)
    requires Spans(s, Hollow(t), at + First(std, t, rowMajor), at + Reach(std, t, rowMajor))
    requires Sorted(s) <==> Clear(std, t, rowMajor)
    ensures Agrees(std, t, rowMajor, s, at)
  {
  }

  /** The first `n` fields are clear. */
  predicate ClearUpTo(std: Std, t: Type, n: nat, rowMajor: bool)
    requires IsRecord(t) && FieldsSized(std, t) && n <= |t.fields|
  {
    forall k :: 0 <= k < n ==> FieldClear(std, t, k, rowMajor)
  }

  lemma RecordParts(std: Std, t: Type, rowMajor: bool, at: int)
    requires IsRecord(t) && FieldsSized(std, t) && Block(std, t) && Measurable(Explicit(std, t, rowMajor))
    ensures IsRecord(Explicit(std, t, rowMajor)) && |Explicit(std, t, rowMajor).fields| == |t.fields|
    ensures Extents(Explicit(std, t, rowMajor), at) == FieldExtents(Explicit(std, t, rowMajor), |t.fields|, at)
    ensures Hollow(t) == HollowUpTo(t, |t.fields|)
    ensures First(std, t, rowMajor) == FirstIn(std, t, |t.fields|, rowMajor)
    ensures Reach(std, t, rowMajor) == ReachIn(std, t, |t.fields|, rowMajor)
    ensures Clear(std, t, rowMajor) == ClearUpTo(std, t, |t.fields|, rowMajor)
  {
    hide Explicit, FieldExtents, ReachIn, FirstIn, FieldClear, Measurable, Sized;
    ExplicitRecord(std, t, rowMajor);
  }

  lemma {:induction false} FieldsAgree(std: Std, t: Type, n: nat, rowMajor: bool, at: int)
    requires IsRecord(t) && FieldsSized(std, t) && Measurable(Explicit(std, t, rowMajor)) && n <= |t.fields|
    requires IsRecord(Explicit(std, t, rowMajor)) && |Explicit(std, t, rowMajor).fields| == |t.fields|
    ensures var s := FieldExtents(Explicit(std, t, rowMajor), n, at);
            && Spans(s, HollowUpTo(t, n), at + FirstIn(std, t, n, rowMajor), at + ReachIn(std, t, n, rowMajor))
            && (Sorted(s) <==> ClearUpTo(std, t, n, rowMajor))
    decreases t, 0, n
  {
    hide Extents, Explicit, Reach, First, Spans, Sorted, Clear, Hollow, Measurable, FieldExtents, ReachIn, FirstIn,
         Place, FieldRowMajor, Sized, HollowUpTo, ClearUpTo, FieldClear;
    RecordBlock(std, t);
    var r := Explicit(std, t, rowMajor);
    if n == 0 {
      NoFields(r, at);
      SortedNone();
      NoneSpan(std, t, rowMajor, at);
    } else {
      FieldsAgree(std, t, n - 1, rowMajor, at);
      FieldAgrees(std, t, n - 1, rowMajor, at);
      NextExtents(r, n, at);
      OneMore(std, t, n, rowMajor);
      var f, row := t.fields[n - 1].typ, FieldRowMajor(t.fields[n - 1], rowMajor);
      var here := at + Place(std, t, n - 1, rowMajor);
      var a, b := FieldExtents(r, n - 1, at), Extents(r.fields[n - 1].typ, at + r.fields[n - 1].offset);
      var first, reach := at + FirstIn(std, t, n - 1, rowMajor), at + ReachIn(std, t, n - 1, rowMajor);
      SortedAppend(a, b);
      SpansAppend(a, b, HollowUpTo(t, n - 1), first, reach, Hollow(f), here + First(std, f, row),
                  here + Reach(std, f, row));
      SpansEnds(a, HollowUpTo(t, n - 1), first, reach);
      SpansEnds(b, Hollow(f), here + First(std, f, row), here + Reach(std, f, row));
    }
  }

  lemma NoneSpan(std: Std, t: Type, rowMajor: bool, at: int)
    requires IsRecord(t) && FieldsSized(std, t)
    ensures HollowUpTo(t, 0) && ClearUpTo(std, t, 0, rowMajor)
    ensures Spans([], true, at + FirstIn(std, t, 0, rowMajor), at + ReachIn(std, t, 0, rowMajor))
  {
  }

  /** The next field, by itself. */
  lemma {:induction false} FieldAgrees(std: Std, t: Type, k: nat, rowMajor: bool, at: int)
    requires IsRecord(t) && FieldsSized(std, t) && k < |t.fields|
    ensures var r := Explicit(std, t, rowMajor);
            && IsRecord(r) && |r.fields| == |t.fields| && Measurable(r.fields[k].typ)
            && r.fields[k].offset == Place(std, t, k, rowMajor)
            && Agrees(std, t.fields[k].typ, FieldRowMajor(t.fields[k], rowMajor),
                      Extents(r.fields[k].typ, at + r.fields[k].offset), at + r.fields[k].offset)
    decreases t, 0, 0
  {
    hide Extents, Explicit, ExplicitFields, Agrees, Measurable, Place, FieldRowMajor, Sized;
    RecordBlock(std, t);
    ExplicitRecord(std, t, rowMajor);
    PlaceIsOffset(std, t, k, rowMajor);
    var row, g := FieldRowMajor(t.fields[k], rowMajor), Explicit(std, t, rowMajor).fields[k];
    assert g.typ == Explicit(std, t.fields[k].typ, row);
    ExtentsAgree(std, t.fields[k].typ, row, at + g.offset);
  }

  /** What one more field adds. */
  lemma OneMore(std: Std, t: Type, n: nat, rowMajor: bool)
    requires IsRecord(t) && FieldsSized(std, t) && 0 < n <= |t.fields|
    ensures var f, row := t.fields[n - 1].typ, FieldRowMajor(t.fields[n - 1], rowMajor);
            var here := Place(std, t, n - 1, rowMajor);
            && (HollowUpTo(t, n) <==> HollowUpTo(t, n - 1) && Hollow(f))
            && FirstIn(std, t, n, rowMajor)
               == (if HollowUpTo(t, n - 1) then here + First(std, f, row) else FirstIn(std, t, n - 1, rowMajor))
            && ReachIn(std, t, n, rowMajor)
               == (if Hollow(f) then ReachIn(std, t, n - 1, rowMajor) else here + Reach(std, f, row))
            && (HollowUpTo(t, n - 1) ==> ReachIn(std, t, n - 1, rowMajor) == 0)
            && (ClearUpTo(std, t, n, rowMajor) <==>
                  && ClearUpTo(std, t, n - 1, rowMajor) && Clear(std, f, row)
                  && (!Hollow(f) ==> ReachIn(std, t, n - 1, rowMajor) <= here + First(std, f, row)))
  {
    hide Reach, First, Clear, Hollow, Place, FieldRowMajor, Sized, FieldClear;
    HollowReach(std, t, n - 1, rowMajor);
    FieldClearIs(std, t, n - 1, rowMajor);
  }

  lemma FieldClearIs(std: Std, t: Type, k: nat, rowMajor: bool)
    requires IsRecord(t) && FieldsSized(std, t) && k < |t.fields|
    ensures var f, row := t.fields[k].typ, FieldRowMajor(t.fields[k], rowMajor);
            FieldClear(std, t, k, rowMajor) <==>
              && Clear(std, f, row)
              && (!Hollow(f) ==> ReachIn(std, t, k, rowMajor) <= Place(std, t, k, rowMajor) + First(std, f, row))
  {
    hide Clear, Hollow, ReachIn, Place, First, FieldRowMajor;
  }

  lemma {:induction false} HollowReach(std: Std, t: Type, n: nat, rowMajor: bool)
    requires IsRecord(t) && FieldsSized(std, t) && n <= |t.fields|
    ensures HollowUpTo(t, n) ==> ReachIn(std, t, n, rowMajor) == 0
    decreases n
  {
    hide Hollow, Sized, Place, Reach;
    if n > 0 { HollowReach(std, t, n - 1, rowMajor); }
  }

  // ------------------------------------------------- the result

  /**
   Whatever offsets are declared, at whatever depth: the scalars and vectors of the explicit type
   follow each other without sharing a byte iff nothing in the declared type reaches past the
   start of what comes next.
   */
  lemma NoOverlapIff(std: Std, t: Type, rowMajor: bool, at: int)
    requires Block(std, t)
    ensures var r := Explicit(std, t, rowMajor);
            && Measurable(r)
            && (Ordered(Extents(r, at), at, at + Reach(std, t, rowMajor)) <==> Clear(std, t, rowMajor))
  {
    hide Explicit, Extents, Reach, First, Clear, Hollow, Sorted, Spans, Ordered, Measurable;
    ExtentsAgree(std, t, rowMajor, at);
    SortedIsOrdered(Extents(Explicit(std, t, rowMajor), at), Hollow(t), at + First(std, t, rowMajor),
                    at, at + Reach(std, t, rowMajor));
  }

  /** Without declared offsets below the top, meeting the assert at the top is enough. */
  lemma MeetingOffsetsAreClear(std: Std, t: Type, rowMajor: bool)
    requires IsRecord(t) && FieldsSized(std, t) && OffsetsMeet(std, t, rowMajor)
    requires forall k :: 0 <= k < |t.fields| ==> Undeclared(t.fields[k].typ)
    ensures Block(std, t) && Clear(std, t, rowMajor)
  {
    hide Explicit, Extents, Clear, Sorted, Ordered, Measurable, Undeclared, Fits, Agrees, Sized, FieldRowMajor,
         ExplicitSize;
    RecordBlock(std, t);
    forall k | 0 <= k < |t.fields| ensures Fits(std, t.fields[k].typ, FieldRowMajor(t.fields[k], rowMajor)) {
      ExplicitFits(std, t.fields[k].typ, FieldRowMajor(t.fields[k], rowMajor));
    }
    BlockNoOverlap(std, t, rowMajor, 0);
    var r := Explicit(std, t, rowMajor);
    OrderedIsSorted(Extents(r, 0), 0, ExplicitSize(r, false));
    ExtentsAgree(std, t, rowMajor, 0);
    AgreesClear(std, t, rowMajor, Extents(r, 0));
  }

  lemma AgreesClear(std: Std, t: Type, rowMajor: bool, s: seq<Extent>)
    requires Block(std, t) && Agrees(std, t, rowMajor, s, 0)
    ensures Sorted(s) <==> Clear(std, t, rowMajor)
  {
  }
}
