/**
 Layouts with declared offsets, in any order: when no byte of the explicit type belongs to two
 scalars or vectors, decided on the type that was declared.
 */
module SharedBytes {
  import opened Products
  import opened TypeTrees
  import opened StdLayouts
  import opened Placement
  import opened ExplicitLayouts
  import opened LeafAlignment
  import opened DeclaredOffsets

  // ------------------------------------------------- sets of bytes

  function Span(n: nat): (s: set<int>)
    ensures forall x :: x in s <==> 0 <= x < n
  {
    if n == 0 then {} else Span(n - 1) + {n - 1}
  }

  function Shifted(s: set<int>, d: int): (r: set<int>)
    ensures forall x :: x in r <==> x - d in s
  {
    var r := set y | y in s :: y + d;
    ShiftedHas(s, d, r);
    r
  }

  lemma ShiftedHas(s: set<int>, d: int, r: set<int>)
    requires r == set y | y in s :: y + d
    ensures forall x :: x in r <==> x - d in s
  {
    forall x ensures x in r <==> x - d in s {
      var y := x - d;
      assert y in s ==> y + d in r;
    }
  }

  /** The bytes of `n` copies that are `stride` apart. */
  function Repeated(s: set<int>, stride: nat, n: nat): (r: set<int>) {
    if n == 0 then {} else Repeated(s, stride, n - 1) + Shifted(s, stride * (n - 1))
  }

  /** No copy has a byte of an earlier one: it is enough to compare with the first. */
  predicate CopiesApart(s: set<int>, stride: nat, n: nat) {
    forall d :: 0 < d < n ==> s !! Shifted(s, stride * d)
  }

  /** Byte `x` is in copy `k`. */
  predicate InCopy(s: set<int>, stride: nat, k: nat, x: int) {
    x - stride * k in s
  }

  lemma {:induction false} RepeatedHas(s: set<int>, stride: nat, n: nat, x: int)
    ensures x in Repeated(s, stride, n) <==> exists k: nat :: k < n && InCopy(s, stride, k, x)
  {
    hide InCopy, Shifted;
    if n > 0 {
      RepeatedHas(s, stride, n - 1, x);
      InCopyIs(s, stride, n - 1, x);
    }
  }

  lemma InCopyIs(s: set<int>, stride: nat, k: nat, x: int)
    ensures InCopy(s, stride, k, x) <==> x in Shifted(s, stride * k)
  {
  }

  /** One more copy. */
  lemma NextCopy(s: set<int>, stride: nat, n: nat)
    requires n > 0
    ensures CopiesApart(s, stride, n) <==>
            CopiesApart(s, stride, n - 1) && Repeated(s, stride, n - 1) !! Shifted(s, stride * (n - 1))
  {
    if CopiesApart(s, stride, n) {
      var before, last := Repeated(s, stride, n - 1), Shifted(s, stride * (n - 1));
      forall x | x in before ensures x !in last { LastApart(s, stride, n, x); }
    } else if CopiesApart(s, stride, n - 1) {
      assert !(s !! Shifted(s, stride * (n - 1)));
      var x :| x in s && x in Shifted(s, stride * (n - 1));
      FirstCopy(s, stride, n - 1, x);
    }
  }

  /** The last copy has no byte of an earlier one. */
  lemma LastApart(s: set<int>, stride: nat, n: nat, x: int)
    requires n > 0 && CopiesApart(s, stride, n) && x in Repeated(s, stride, n - 1)
    ensures x !in Shifted(s, stride * (n - 1))
  {
    hide Repeated;
    RepeatedHas(s, stride, n - 1, x);
    var k: nat :| k < n - 1 && InCopy(s, stride, k, x);
    MulAdd(stride, k, n - 1 - k);
    assert s !! Shifted(s, stride * (n - 1 - k));
    assert x - stride * k !in Shifted(s, stride * (n - 1 - k));
  }

  lemma FirstCopy(s: set<int>, stride: nat, n: nat, x: int)
    requires x in s && n > 0
    ensures x in Repeated(s, stride, n)
  {
    RepeatedHas(s, stride, n, x);
    var first: nat := 0;
    assert InCopy(s, stride, first, x);
  }

  // ------------------------------------------------- the bytes of a declared type

  /** The bytes that its scalars and vectors take, counted from its start. */
  function BytesOf(std: Std, t: Type, rowMajor: bool): (s: set<int>)
    requires Block(std, t)
    decreases t, 1
  {
    if IsRecord(t) then BytesIn(std, t, |t.fields|, rowMajor)
    else if t.Array? then Repeated(BytesOf(std, t.elem, rowMajor), Stride(std, t.elem, rowMajor), t.length)
    else if IsMatrix(t) then
      var v := VectorOf(t, rowMajor);
      Repeated(Span(VectorBytes(v)), Stride(std, v, false), VectorCount(t, rowMajor))
    else Span(VectorBytes(t))
  }

  /** The bytes of the first `n` fields. */
  function BytesIn(std: Std, t: Type, n: nat, rowMajor: bool): (s: set<int>)
    requires IsRecord(t) && FieldsSized(std, t) && n <= |t.fields|
    decreases t, 0, n
  {
    if n == 0 then {}
    else BytesIn(std, t, n - 1, rowMajor) + FieldBytes(std, t, n - 1, rowMajor)
  }

  function FieldBytes(std: Std, t: Type, k: nat, rowMajor: bool): (s: set<int>)
    requires IsRecord(t) && FieldsSized(std, t) && k < |t.fields|
    decreases t, 0, k
  {
    Shifted(BytesOf(std, t.fields[k].typ, FieldRowMajor(t.fields[k], rowMajor)), Place(std, t, k, rowMajor))
  }

  /** No field takes a byte of an earlier one, and no array element a byte of another. */
  predicate Separate(std: Std, t: Type, rowMajor: bool)
    requires Block(std, t)
    decreases t, 1
  {
    if IsRecord(t) then forall k :: 0 <= k < |t.fields| ==> FieldSeparate(std, t, k, rowMajor)
    else t.Array? ==> ElementsSeparate(std, t, t.length, rowMajor)
  }

  predicate FieldSeparate(std: Std, t: Type, k: nat, rowMajor: bool)
    requires IsRecord(t) && FieldsSized(std, t) && k < |t.fields|
    decreases t, 0
  {
    && Separate(std, t.fields[k].typ, FieldRowMajor(t.fields[k], rowMajor))
    && BytesIn(std, t, k, rowMajor) !! FieldBytes(std, t, k, rowMajor)
  }

  predicate ElementsSeparate(std: Std, t: Type, n: nat, rowMajor: bool)
    requires Sized(std, t) && t.Array?
    decreases t, 0
  {
    && Separate(std, t.elem, rowMajor)
    && CopiesApart(BytesOf(std, t.elem, rowMajor), Stride(std, t.elem, rowMajor), n)
  }

  // ------------------------------------------------- sequences of extents

  predicate Holds(e: Extent, x: int) {
    e.start <= x < e.start + e.size
  }

  predicate Covered(s: seq<Extent>, x: int) {
    exists k :: 0 <= k < |s| && Holds(s[k], x)
  }

  /** No byte belongs to two of them. */
  ghost predicate Unshared(s: seq<Extent>) {
    forall j, k, x :: 0 <= j < k < |s| && Holds(s[j], x) ==> !Holds(s[k], x)
  }

  lemma CoveredAppend(a: seq<Extent>, b: seq<Extent>, x: int)
    ensures Covered(a + b, x) <==> Covered(a, x) || Covered(b, x)
  {
    var s := a + b;
    if Covered(a, x) {
      var k :| 0 <= k < |a| && Holds(a[k], x);
      assert s[k] == a[k];
    }
    if Covered(b, x) {
      var k :| 0 <= k < |b| && Holds(b[k], x);
      assert s[|a| + k] == b[k];
    }
  }

  lemma UnsharedAppend(a: seq<Extent>, b: seq<Extent>)
    ensures Unshared(a + b) <==>
            Unshared(a) && Unshared(b) && forall x :: Covered(a, x) ==> !Covered(b, x)
  {
    if Unshared(a + b) { UnsharedParts(a, b); }
    if Unshared(a) && Unshared(b) && forall x :: Covered(a, x) ==> !Covered(b, x) { PartsUnshared(a, b); }
  }

  lemma UnsharedParts(a: seq<Extent>, b: seq<Extent>)
    requires Unshared(a + b)
    ensures Unshared(a) && Unshared(b) && forall x :: Covered(a, x) ==> !Covered(b, x)
  {
    hide Holds;
    var s := a + b;
    forall j, k, x | 0 <= j < k < |a| && Holds(a[j], x) ensures !Holds(a[k], x) { assert s[j] == a[j] && s[k] == a[k]; }
    forall j, k, x | 0 <= j < k < |b| && Holds(b[j], x) ensures !Holds(b[k], x) {
      assert s[|a| + j] == b[j] && s[|a| + k] == b[k];
    }
    forall x | Covered(a, x) ensures !Covered(b, x) {
      var j :| 0 <= j < |a| && Holds(a[j], x);
      forall k | 0 <= k < |b| ensures !Holds(b[k], x) { assert s[j] == a[j] && s[|a| + k] == b[k]; }
    }
  }

  lemma PartsUnshared(a: seq<Extent>, b: seq<Extent>)
    requires Unshared(a) && Unshared(b) && forall x :: Covered(a, x) ==> !Covered(b, x)
    ensures Unshared(a + b)
  {
    hide Holds;
    var s := a + b;
    forall j, k, x | 0 <= j < k < |s| && Holds(s[j], x) ensures !Holds(s[k], x) {
      if j < |a| <= k {
        assert Holds(a[j], x) && Covered(a, x);
        assert s[k] == b[k - |a|];
      }
    }
  }

  lemma SortedIsUnshared(s: seq<Extent>)
    requires Sorted(s)
    ensures Unshared(s)
  {
  }

  /** The extents take these bytes, and share none iff `apart`. */
  ghost predicate Takes(s: seq<Extent>, at: int, bytes: set<int>, apart: bool) {
    (forall x :: Covered(s, x) <==> x - at in bytes) && (Unshared(s) <==> apart)
  }

  lemma TakesNone(at: int)
    ensures Takes([], at, {}, true)
  {
  }

  /** Two parts, the second of which is `d` bytes further on. */
  lemma TakesAppend(a: seq<Extent>, b: seq<Extent>, at: int, d: int, first: set<int>, apart: bool,
                    second: set<int>, apart': bool)
    requires Takes(a, at, first, apart) && Takes(b, at + d, second, apart')
    ensures Takes(a + b, at, first + Shifted(second, d), apart && apart' && first !! Shifted(second, d))
  {
    hide Covered, Unshared;
    forall x ensures Covered(a + b, x) <==> x - at in first + Shifted(second, d) { CoveredAppend(a, b, x); }
    UnsharedAppend(a, b);
    if first !! Shifted(second, d) {
      forall x | Covered(a, x) ensures !Covered(b, x) { assert x - at in first; }
    } else {
      var y :| y in first && y in Shifted(second, d);
      assert Covered(a, y + at) && Covered(b, y + at);
    }
  }

  // ------------------------------------------------- the extents of an explicit type

  ghost predicate Matches(std: Std, t: Type, rowMajor: bool, s: seq<Extent>, at: int)
    requires Block(std, t)
  {
    Takes(s, at, BytesOf(std, t, rowMajor), Separate(std, t, rowMajor))
  }

  /** The bytes that are taken, and whether one is shared, all read off the declared type. */
  lemma {:induction false} ExtentsMatch(std: Std, t: Type, rowMajor: bool, at: int)
    requires Block(std, t)
    ensures var r := Explicit(std, t, rowMajor); Measurable(r) && Matches(std, t, rowMajor, Extents(r, at), at)
    decreases t, 2
  {
    hide Explicit, Extents, Matches, Measurable;
    ExplicitMeasurable(std, t, rowMajor);
    if IsRecord(t) {
      RecordMatches(std, t, rowMajor, at);
    } else if t.Array? {
      ArrayMatches(std, t, rowMajor, at);
    } else if IsMatrix(t) {
      MatrixMatches(std, t, rowMajor, at);
    } else {
      VectorMatches(std, t, rowMajor, at);
    }
  }

  lemma OneTakes(at: int, n: nat)
    ensures Takes([Extent(at, n)], at, Span(n), true)
  {
    var s := [Extent(at, n)];
    forall x ensures Covered(s, x) <==> x - at in Span(n) {
      if x - at in Span(n) { assert Holds(s[0], x); }
    }
  }

  lemma VectorMatches(std: Std, t: Type, rowMajor: bool, at: int)
    requires Sized(std, t) && IsVector(t) && Measurable(Explicit(std, t, rowMajor))
    ensures Matches(std, t, rowMajor, Extents(Explicit(std, t, rowMajor), at), at)
  {
    hide Takes, VectorBytes;
    OneTakes(at, VectorBytes(t));
  }

  lemma {:induction false} VectorsTake(r: Type, n: nat, at: int)
    requires IsMatrix(r) && VectorBytes(VectorOf(r, r.rowMajor)) <= r.stride
    ensures Takes(VectorExtents(r, n, at), at, Repeated(Span(VectorBytes(VectorOf(r, r.rowMajor))), r.stride, n), true)
  {
    hide Takes, VectorBytes, VectorOf, Repeated, Span, Shifted, VectorExtents;
    var size := VectorBytes(VectorOf(r, r.rowMajor));
    NextRepeated(Span(size), r.stride, n);
    NextVector(r, n, at);
    if n == 0 {
      TakesNone(at);
    } else {
      VectorsTake(r, n - 1, at);
      var d := r.stride * (n - 1);
      OneTakes(at + d, size);
      VectorsCopied(size, r.stride, n);
      TakesAppend(VectorExtents(r, n - 1, at), [Extent(at + d, size)], at, d,
                  Repeated(Span(size), r.stride, n - 1), true, Span(size), true);
    }
  }

  lemma NextRepeated(s: set<int>, stride: nat, n: nat)
    ensures Repeated(s, stride, 0) == {}
    ensures n > 0 ==> Repeated(s, stride, n) == Repeated(s, stride, n - 1) + Shifted(s, stride * (n - 1))
  {
  }

  lemma NextVector(r: Type, n: nat, at: int)
    requires IsMatrix(r)
    ensures VectorExtents(r, 0, at) == []
    ensures n > 0 ==> VectorExtents(r, n, at) == VectorExtents(r, n - 1, at)
                        + [Extent(at + r.stride * (n - 1), VectorBytes(VectorOf(r, r.rowMajor)))]
  {
    hide VectorBytes;
  }

  /** Vectors that fit their stride do not meet. */
  lemma VectorsCopied(size: nat, stride: nat, n: nat)
    requires size <= stride && n > 0
    ensures Repeated(Span(size), stride, n - 1) !! Shifted(Span(size), stride * (n - 1))
  {
    forall d | 0 < d < n ensures Span(size) !! Shifted(Span(size), stride * d) { MulMono(stride, 1, d); }
    NextCopy(Span(size), stride, n);
  }

  lemma MatrixMatches(std: Std, t: Type, rowMajor: bool, at: int)
    requires Sized(std, t) && IsMatrix(t) && Measurable(Explicit(std, t, rowMajor))
    ensures Matches(std, t, rowMajor, Extents(Explicit(std, t, rowMajor), at), at)
  {
    hide Size, Align, Stride, VectorBytes, VectorExtents, Takes, Repeated;
    var r, v, n := Explicit(std, t, rowMajor), VectorOf(t, rowMajor), VectorCount(t, rowMajor);
    assert r.stride == Stride(std, v, false) && VectorOf(r, r.rowMajor) == v && VectorCount(r, r.rowMajor) == n;
    VectorFits(std, v);
    VectorsTake(r, n, at);
  }

  lemma {:induction false} ArrayMatches(std: Std, t: Type, rowMajor: bool, at: int)
    requires Sized(std, t) && t.Array? && Measurable(Explicit(std, t, rowMajor))
    ensures Matches(std, t, rowMajor, Extents(Explicit(std, t, rowMajor), at), at)
    decreases t, 1
  {
    hide Extents, Explicit, Stride, BytesOf, Separate, Measurable, ElementExtents, Takes, Repeated, Sized;
    ArrayUnit(std, t, rowMajor);
    ArrayBytes(std, t, rowMajor, at);
    ElementsMatch(std, t, t.length, rowMajor, at);
  }

  lemma ArrayBytes(std: Std, t: Type, rowMajor: bool, at: int)
    requires Sized(std, t) && t.Array? && Measurable(Explicit(std, t, rowMajor))
    ensures Explicit(std, t, rowMajor).Array? && t.length > 0
    ensures Extents(Explicit(std, t, rowMajor), at) == ElementExtents(Explicit(std, t, rowMajor), t.length, at)
    ensures BytesOf(std, t, rowMajor)
            == Repeated(BytesOf(std, t.elem, rowMajor), Stride(std, t.elem, rowMajor), t.length)
    ensures Separate(std, t, rowMajor) == ElementsSeparate(std, t, t.length, rowMajor)
  {
    hide Stride, ElementExtents, ElementsSeparate, Measurable, Repeated;
  }

  lemma {:induction false} ElementsMatch(std: Std, t: Type, n: nat, rowMajor: bool, at: int)
    requires Sized(std, t) && t.Array? && Measurable(Explicit(std, t, rowMajor)) && n > 0
    ensures Takes(ElementExtents(Explicit(std, t, rowMajor), n, at), at,
                  Repeated(BytesOf(std, t.elem, rowMajor), Stride(std, t.elem, rowMajor), n),
                  ElementsSeparate(std, t, n, rowMajor))
    decreases t, 0, n
  {
    hide Extents, Explicit, Stride, BytesOf, Separate, Measurable, ElementExtents, Takes, CopiesApart;
    var r, stride := Explicit(std, t, rowMajor), Stride(std, t.elem, rowMajor);
    ArrayUnit(std, t, rowMajor);
    NextElement(r, n, at);
    var d := stride * (n - 1);
    ExtentsMatch(std, t.elem, rowMajor, at + d);
    var a, b := ElementExtents(r, n - 1, at), Extents(r.elem, at + d);
    var bytes, apart := BytesOf(std, t.elem, rowMajor), Separate(std, t.elem, rowMajor);
    if n == 1 {
      TakesNone(at);
      NoCopies(bytes, stride);
      TakesAppend(a, b, at, d, {}, true, bytes, apart);
    } else {
      ElementsMatch(std, t, n - 1, rowMajor, at);
      NextCopy(bytes, stride, n);
      TakesAppend(a, b, at, d, Repeated(bytes, stride, n - 1), ElementsSeparate(std, t, n - 1, rowMajor), bytes, apart);
    }
  }

  lemma NoCopies(s: set<int>, stride: nat)
    ensures Repeated(s, stride, 0) == {} && CopiesApart(s, stride, 1)
  {
  }

  // ------------------------------------------------- records

  /** The first `n` fields are separate. */
  predicate SeparateUpTo(std: Std, t: Type, n: nat, rowMajor: bool)
    requires IsRecord(t) && FieldsSized(std, t) && n <= |t.fields|
  {
    forall k :: 0 <= k < n ==> FieldSeparate(std, t, k, rowMajor)
  }

  lemma {:induction false} RecordMatches(std: Std, t: Type, rowMajor: bool, at: int)
    requires IsRecord(t) && FieldsSized(std, t) && Block(std, t) && Measurable(Explicit(std, t, rowMajor))
    ensures Matches(std, t, rowMajor, Extents(Explicit(std, t, rowMajor), at), at)
    decreases t, 1
  {
    hide Extents, Explicit, BytesOf, Separate, Measurable, FieldExtents, BytesIn, SeparateUpTo, Takes, Sized;
    RecordBytes(std, t, rowMajor, at);
    FieldsMatch(std, t, |t.fields|, rowMajor, at);
  }

  lemma RecordBytes(std: Std, t: Type, rowMajor: bool, at: int)
    requires IsRecord(t) && FieldsSized(std, t) && Block(std, t) && Measurable(Explicit(std, t, rowMajor))
    ensures IsRecord(Explicit(std, t, rowMajor)) && |Explicit(std, t, rowMajor).fields| == |t.fields|
    ensures Extents(Explicit(std, t, rowMajor), at) == FieldExtents(Explicit(std, t, rowMajor), |t.fields|, at)
    ensures BytesOf(std, t, rowMajor) == BytesIn(std, t, |t.fields|, rowMajor)
    ensures Separate(std, t, rowMajor) == SeparateUpTo(std, t, |t.fields|, rowMajor)
  {
    hide Explicit, FieldExtents, BytesIn, FieldSeparate, Measurable, Sized;
    ExplicitRecord(std, t, rowMajor);
  }

  lemma {:induction false} FieldsMatch(std: Std, t: Type, n: nat, rowMajor: bool, at: int)
    requires IsRecord(t) && FieldsSized(std, t) && Block(std, t) && n <= |t.fields|
    requires Measurable(Explicit(std, t, rowMajor))
    requires IsRecord(Explicit(std, t, rowMajor)) && |Explicit(std, t, rowMajor).fields| == |t.fields|
    ensures Takes(FieldExtents(Explicit(std, t, rowMajor), n, at), at, BytesIn(std, t, n, rowMajor),
                  SeparateUpTo(std, t, n, rowMajor))
    decreases t, 0, n
  {
    hide Extents, Explicit, BytesOf, Separate, Measurable, FieldExtents, BytesIn, SeparateUpTo, Takes, Sized, Place,
         FieldRowMajor, Matches;
    var r := Explicit(std, t, rowMajor);
    if n == 0 {
      NoFields(r, at);
      TakesNone(at);
      NoBytes(std, t, rowMajor);
    } else {
      FieldsMatch(std, t, n - 1, rowMajor, at);
      FieldMatches(std, t, n - 1, rowMajor, at);
      NextExtents(r, n, at);
      MoreBytes(std, t, n, rowMajor);
      var f, row := t.fields[n - 1].typ, FieldRowMajor(t.fields[n - 1], rowMajor);
      TakesAppend(FieldExtents(r, n - 1, at), Extents(r.fields[n - 1].typ, at + r.fields[n - 1].offset), at,
                  Place(std, t, n - 1, rowMajor), BytesIn(std, t, n - 1, rowMajor),
                  SeparateUpTo(std, t, n - 1, rowMajor), BytesOf(std, f, row), Separate(std, f, row));
    }
  }

  lemma NoBytes(std: Std, t: Type, rowMajor: bool)
    requires IsRecord(t) && FieldsSized(std, t)
    ensures BytesIn(std, t, 0, rowMajor) == {} && SeparateUpTo(std, t, 0, rowMajor)
  {
  }

  /** What one more field adds. */
  lemma MoreBytes(std: Std, t: Type, n: nat, rowMajor: bool)
    requires IsRecord(t) && FieldsSized(std, t) && 0 < n <= |t.fields|
    ensures var f, row := t.fields[n - 1].typ, FieldRowMajor(t.fields[n - 1], rowMajor);
            var more := Shifted(BytesOf(std, f, row), Place(std, t, n - 1, rowMajor));
            && BytesIn(std, t, n, rowMajor) == BytesIn(std, t, n - 1, rowMajor) + more
            && (SeparateUpTo(std, t, n, rowMajor) <==>
                  && SeparateUpTo(std, t, n - 1, rowMajor) && Separate(std, f, row)
                  && BytesIn(std, t, n - 1, rowMajor) !! more)
  {
    hide Separate, BytesOf, Place, FieldRowMajor, Sized, Shifted, FieldSeparate;
    FieldSeparateIs(std, t, n - 1, rowMajor);
  }

  lemma FieldSeparateIs(std: Std, t: Type, k: nat, rowMajor: bool)
    requires IsRecord(t) && FieldsSized(std, t) && k < |t.fields|
    ensures var f, row := t.fields[k].typ, FieldRowMajor(t.fields[k], rowMajor);
            FieldSeparate(std, t, k, rowMajor) <==>
              && Separate(std, f, row)
              && BytesIn(std, t, k, rowMajor) !! Shifted(BytesOf(std, f, row), Place(std, t, k, rowMajor))
  {
    hide Separate, BytesOf, BytesIn, Place, FieldRowMajor, Shifted;
  }

  /** The next field, by itself. */
  lemma {:induction false} FieldMatches(std: Std, t: Type, k: nat, rowMajor: bool, at: int)
    requires IsRecord(t) && FieldsSized(std, t) && Block(std, t) && k < |t.fields|
    ensures var r := Explicit(std, t, rowMajor);
            && IsRecord(r) && |r.fields| == |t.fields| && Measurable(r.fields[k].typ)
            && r.fields[k].offset == Place(std, t, k, rowMajor)
            && var f, row := t.fields[k].typ, FieldRowMajor(t.fields[k], rowMajor);
               Takes(Extents(r.fields[k].typ, at + r.fields[k].offset), at + r.fields[k].offset,
                     BytesOf(std, f, row), Separate(std, f, row))
    decreases t, 0, 0
  {
    hide Extents, Explicit, ExplicitFields, Takes, Measurable, Place, FieldRowMajor, Sized, BytesOf, Separate;
    ExplicitRecord(std, t, rowMajor);
    PlaceIsOffset(std, t, k, rowMajor);
    var row, g := FieldRowMajor(t.fields[k], rowMajor), Explicit(std, t, rowMajor).fields[k];
    assert g.typ == Explicit(std, t.fields[k].typ, row);
    ExtentsMatch(std, t.fields[k].typ, row, at + g.offset);
  }

  // ------------------------------------------------- the results

  /**
   Whatever offsets are declared, at whatever depth and in whatever order: no byte of the explicit
   type belongs to two scalars or vectors iff in the declared type no field takes a byte of an
   earlier one and no array element a byte of another.
   */
  lemma NoSharedByteIff(std: Std, t: Type, rowMajor: bool, at: int)
    requires Block(std, t)
    ensures var r := Explicit(std, t, rowMajor);
            Measurable(r) && (Unshared(Extents(r, at)) <==> Separate(std, t, rowMajor))
  {
    hide Explicit, Extents, Separate, BytesOf, Measurable, Unshared, Covered;
    ExtentsMatch(std, t, rowMajor, at);
  }

  /** What is in declaration order shares no byte. */
  lemma ClearIsSeparate(std: Std, t: Type, rowMajor: bool)
    requires Block(std, t) && Clear(std, t, rowMajor)
    ensures Separate(std, t, rowMajor)
  {
    hide Explicit, Extents, Separate, Clear, Measurable, Unshared, Sorted, Hollow, First, Reach, Spans;
    ExtentsAgree(std, t, rowMajor, 0);
    NoSharedByteIff(std, t, rowMajor, 0);
    SortedIsUnshared(Extents(Explicit(std, t, rowMajor), 0));
  }

  /**
   A float nested at a declared offset and a float after it, with every assert on offsets met.
   Nested at 16 they share their bytes; further on they share none but are out of order.
   */
  lemma NestedDecided(at: nat)
    requires at % 4 == 0
    ensures var t := Nesting(at);
            && Block(Std140, t) && OffsetsMeet(Std140, Nested(at), false) && OffsetsMeet(Std140, t, false)
            && (Separate(Std140, t, false) <==> at != 16) && (Clear(Std140, t, false) <==> at < 16)
  {
    hide Explicit, Extents, Separate, Clear, Measurable, OffsetsMeet, Block, Hollow, First, Reach, Spans;
    var t := Nesting(at);
    NestedExtents(at);
    var s := Extents(Explicit(Std140, t, false), 0);
    NoSharedByteIff(Std140, t, false, 0);
    ExtentsAgree(Std140, t, false, 0);
    TwoFloats(at, s);
  }

  lemma TwoFloats(at: nat, s: seq<Extent>)
    requires at % 4 == 0 && s == [Extent(at, 4), Extent(16, 4)]
    ensures (Unshared(s) <==> at != 16) && (Sorted(s) <==> at < 16)
  {
    if at == 16 { assert Holds(s[0], 16) && Holds(s[1], 16); }
    if at < 16 { assert at <= 12; }
    if Sorted(s) { assert s[0].start + s[0].size <= s[1].start; }
  }
}
