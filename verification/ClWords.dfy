/** The OpenCL and callback layouts in 32-bit arithmetic: alignments are what `align` accepts. */
module ClWords {
  import opened Words
  import opened Products
  import opened Alignment
  import opened TypeTrees
  import opened StdLayouts
  import opened Placement
  import opened ClLayouts
  import opened Wrapping
  import opened WrappedLayouts

  /** The number of components is a byte. */
  predicate Stored(t: Type)
    decreases t
  {
    match t
    case Basic(_, rows, _, _, _, _) => rows < 256
    case Array(elem, _, _) => Stored(elem)
    case Struct(_, _, _, fields) => forall k :: 0 <= k < |fields| ==> Stored(fields[k].typ)
    case Interface(_, _, _, fields) => forall k :: 0 <= k < |fields| ==> Stored(fields[k].typ)
    case _ => true
  }

  // ------------------------------------------------- the direct computation

  lemma {:induction false} NextIsPower(n: nat, k: nat) returns (j: nat)
    requires n <= Pow2(k)
    ensures j <= k && NextPowerOfTwo(n) == Pow2(j)
  {
    if n <= 1 {
      j := 0;
    } else {
      j := NextIsPower((n + 1) / 2, k - 1);
      j := j + 1;
    }
  }

  lemma LeafIsWord(t: Type)
    requires Stored(t) && ClLeaf(t)
    ensures WordUnit(LeafClSize(t))
  {
    if t.Basic? {
      assert Pow2(4) == 16;
      Pow2Add(4, 4);
      hide NextPowerOfTwo, Pow2, WordUnit;
      var j := NextIsPower(t.rows, 8);
      BytesIsPower(t, j);
    }
  }

  lemma BytesIsPower(t: Type, j: nat)
    requires t.Basic? && ClLeaf(t) && j <= 8 && NextPowerOfTwo(t.rows) == Pow2(j)
    ensures WordUnit(LeafClSize(t))
  {
    assert Pow2(0) == 1 && Pow2(1) == 2 && Pow2(2) == 4 && Pow2(3) == 8;
    hide Pow2, NextPowerOfTwo, WordUnit;
    var k := if Bytes(t.base) == 1 then 0 else if Bytes(t.base) == 2 then 1 else if Bytes(t.base) == 4 then 2 else 3;
    Pow2Add(j, k);
    PowerIsWord(j + k);
  }

  /** Every OpenCL alignment is one that `align` accepts. */
  lemma {:induction false} ClAlignIsWord(t: Type)
    requires Stored(t)
    ensures WordUnit(ClAlign(t))
    decreases t, 1
  {
    hide LeafClSize;
    if ClLeaf(t) {
      LeafIsWord(t);
    } else if t.Array? {
      ClAlignIsWord(t.elem);
    } else if t.Struct? {
      ClFieldsAlignIsWord(t, |t.fields|);
    }
  }

  lemma {:induction false} ClFieldsAlignIsWord(t: Type, n: nat)
    requires Stored(t) && t.Struct? && n <= |t.fields|
    ensures WordUnit(ClFieldsAlign(t, n))
    decreases t, 0, n
  {
    if n > 0 {
      ClFieldsAlignIsWord(t, n - 1);
      ClAlignIsWord(t.fields[n - 1].typ);
    }
  }

  // ------------------------------------------------- by callback

  /** The callback returns words, and alignments that `align` accepts. */
  ghost predicate Fitting(info: Type -> (nat, nat)) {
    && Describes(info)
    && forall v: Type :: IsVector(v) && Stored(v) ==> info(v).0 < 0x1_0000_0000 && WordUnit(info(v).1)
  }

  lemma ClFits()
    ensures Fitting(ClInfo)
  {
    hide LeafClSize, WordUnit;
    ClDescribes();
    forall v: Type | IsVector(v) && Stored(v) ensures ClInfo(v).0 < 0x1_0000_0000 && WordUnit(ClInfo(v).1) {
      ClAlignIsWord(v);
      LeafIsSmall(v);
    }
  }

  lemma LeafIsSmall(v: Type)
    requires IsVector(v) && Stored(v)
    ensures ClSize(v) < 0x1_0000_0000
  {
    if ClLeaf(v) { LeafIsWord(v); }
  }

  lemma {:induction false} LaidAlignIsWord(t: Type, info: Type -> (nat, nat))
    requires Described(t) && Stored(t) && Fitting(info)
    ensures WordUnit(SizeAlign(t, info).align)
    decreases t, 1
  {
    hide AlignUp;
    if t.Array? {
      LaidAlignIsWord(t.elem, info);
    } else if IsRecord(t) {
      LaidFieldsAlignIsWord(t, |t.fields|, info);
    } else if IsMatrix(t) {
      assert Stored(VectorOf(t, false));
    }
  }

  lemma {:induction false} LaidFieldsAlignIsWord(t: Type, n: nat, info: Type -> (nat, nat))
    requires IsRecord(t) && Described(t) && Stored(t) && Fitting(info) && n <= |t.fields|
    ensures WordUnit(LaidFields(t, n, info).2)
    decreases t, 0, n
  {
    hide AlignUp, SizeAlign;
    if n > 0 {
      LaidFieldsAlignIsWord(t, n - 1, info);
      LaidAlignIsWord(t.fields[n - 1].typ, info);
    }
  }

  /** What the callback layout stores and returns. */
  function LaidWord(l: Laid): (r: Laid) {
    Laid(Wrapped(l.typ), Wrap(l.size), l.align)
  }

  /** `stride * (length - 1) + elem_size` on words, for any length. */
  lemma RunWord(n: nat, stride: nat, last: nat)
    ensures Wrap(stride) * Wrap(n - 1) >= 0
    ensures Wrap(Wrap(stride) * Wrap(n - 1) + Wrap(last)) == Wrap(Run(n, stride, last))
  {
    MulPositive(Wrap(stride), Wrap(n - 1));
    if n == 0 { RunOfNone(stride, last); } else { RunOfSome(n, stride, last); }
  }

  lemma RunOfSome(n: nat, stride: nat, last: nat)
    requires n > 0
    ensures Wrap(Wrap(stride) * Wrap(n - 1) + Wrap(last)) == Wrap(Run(n, stride, last))
  {
    hide Wrap;
    WrapMulBoth(stride, n - 1);
    var product := stride * (n - 1);
    assert Run(n, stride, last) == product + last;
    WrapSum(product, last);
    WrapAdd(Wrap(stride) * Wrap(n - 1), Wrap(last));
  }

  lemma WrapMulBoth(x: nat, y: nat)
    ensures x * y >= 0 && Wrap(x) * Wrap(y) >= 0 && Wrap(Wrap(x) * Wrap(y)) == Wrap(x * y)
  {
    hide Wrap;
    WrapMul(x, Wrap(y));
    MulComm(x, Wrap(y));
    WrapMul(y, x);
    MulComm(x, y);
  }

  lemma RunOfNone(stride: nat, last: nat)
    ensures Wrap(Wrap(stride) * Wrap(-1) + Wrap(last)) == Wrap(Run(0, stride, last))
  {
    var p, s := WrapRest(stride);
    var q, l := WrapRest(last);
    var d: int, k: int := (l as int) - s, (q as int) - p;
    assert s * 0xFFFF_FFFF + l == 0x1_0000_0000 * s + d && last - stride == 0x1_0000_0000 * k + d;
    WrapShift(d, s);
    WrapShift(d, k);
    WrapTwice(last - stride);
  }

  lemma WrapShift(v: int, k: int)
    ensures Wrap(0x1_0000_0000 * k + v) == Wrap(v)
  {
  }

  lemma WrapTwice(v: int)
    ensures Wrap(v % 0x1_0000_0000) == Wrap(v)
  {
  }
}
