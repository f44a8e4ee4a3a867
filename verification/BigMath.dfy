/**
 Multiword arithmetic of src/util/bigmath.h: schoolbook addition and multiplication of
 little-endian arrays of 32-bit limbs into a destination of any length.
 */
module BigMath {
  import opened Words
  import opened Products
  import opened Limbs

  function LimbOrZero(s: seq<u32>, i: nat): (r: u32) {
    if i < |s| then s[i] else 0
  }

  /** The low `n` limbs of `s`, whatever its length. */
  function Low(s: seq<u32>, n: nat): (r: nat) {
    if n <= |s| then Value(s[..n]) else Value(s)
  }

  lemma LowStep(s: seq<u32>, i: nat)
    ensures Low(s, i + 1) == Low(s, i) + Weight(i) * LimbOrZero(s, i)
  {
    if i < |s| {
      assert s[..i + 1] == s[..i] + [s[i]];
      ValueAppend(s[..i], s[i]);
    } else if i == |s| {
      assert s[..i] == s;
    }
  }

  /** What lies above limb `n` is a multiple of Weight(n), and is zero iff every limb there is. */
  lemma LowRest(s: seq<u32>, n: nat) returns (high: nat)
    ensures Value(s) == Low(s, n) + Weight(n) * high
    ensures high == 0 <==> forall i :: n <= i < |s| ==> s[i] == 0
  {
    if n <= |s| {
      high := Value(s[n..]);
      ValueSplit(s, n);
      if forall i :: n <= i < |s| ==> s[i] == 0 {
        ValueZeros(s[n..]);
      } else {
        var i :| n <= i < |s| && s[i] != 0;
        NonZeroLimb(s[n..], i - n);
      }
    } else {
      high := 0;
    }
  }

  lemma {:induction false} NonZeroLimb(s: seq<u32>, k: nat)
    requires k < |s| && s[k] != 0
    ensures Value(s) >= Weight(k)
  {
    if k > 0 { NonZeroLimb(s[1..], k - 1); }
  }

  /** A number written as low + w * high, with low < w, determines both parts. */
  lemma SplitFits(total: nat, low: nat, w: nat, high: nat)
    requires low < w && total == low + w * high
    ensures total % w == low
    ensures total >= w <==> high > 0
  {
    DivUnique(total, w, high, low);
    MulPositive(w, high);
  }

  /** The loop over the limbs of the destination, which may be one of the operands. */
  method AddLimbs(dst: array<u32>, a: array<u32>, b: array<u32>) returns (carry: u32)
    modifies dst
    ensures Value(dst[..]) + Weight(dst.Length) * carry == Low(old(a[..]), dst.Length) + Low(old(b[..]), dst.Length)
    ensures forall k :: dst.Length <= k < a.Length ==> a[k] == old(a[k])
    ensures forall k :: dst.Length <= k < b.Length ==> b[k] == old(b[k])
  {
    var n := dst.Length;
    ghost var av, bv := a[..], b[..];
    LowNone(av);
    LowNone(bv);
    carry := 0;
    hide Value, Weight, Low;
    for i := 0 to n
      invariant carry <= 1
      invariant forall k :: i <= k < a.Length ==> a[k] == av[k]
      invariant forall k :: i <= k < b.Length ==> b[k] == bv[k]
      invariant Value(dst[..i]) + Weight(i) * carry == Low(av, i) + Low(bv, i)
    {
      ghost var before := dst[..i];
      var sum: nat := carry;
      if i < a.Length { sum := sum + a[i]; }
      if i < b.Length { sum := sum + b[i]; }
      AddStep(before, carry, av, bv, sum % 0x1_0000_0000, sum / 0x1_0000_0000);
      dst[i] := sum % 0x1_0000_0000;
      assert dst[..i + 1] == before + [dst[i]];
      carry := sum / 0x1_0000_0000;
    }
    assert dst[..n] == dst[..];
  }

  lemma LowNone(s: seq<u32>)
    ensures Low(s, 0) == 0 && Value([]) == 0
  {
    assert s[..0] == [];
  }

  method Add(dst: array<u32>, a: array<u32>, b: array<u32>) returns (overflow: bool)
    modifies dst
    ensures Value(dst[..]) == (Value(old(a[..])) + Value(old(b[..]))) % Weight(dst.Length)
    ensures overflow <==> Value(old(a[..])) + Value(old(b[..])) >= Weight(dst.Length)
  {
    hide *;
    var n := dst.Length;
    ghost var av, bv := a[..], b[..];
    var carry := AddLimbs(dst, a, b);
    AddFits(dst[..], carry, av, bv);
    var i := n;
    while i < a.Length
      invariant forall k :: n <= k < i && k < a.Length ==> av[k] == 0
    {
      assert a[i] == av[i];
      if a[i] != 0 { return true; }
      i := i + 1;
    }
    i := n;
    while i < b.Length
      invariant forall k :: n <= k < i && k < b.Length ==> bv[k] == 0
    {
      assert b[i] == bv[i];
      if b[i] != 0 { return true; }
      i := i + 1;
    }
    return carry != 0;
  }

  lemma AddStep(before: seq<u32>, carry: u32, a: seq<u32>, b: seq<u32>, digit: u32, up: u32)
    requires digit + 0x1_0000_0000 * up == carry + LimbOrZero(a, |before|) + LimbOrZero(b, |before|)
    requires Value(before) + Weight(|before|) * carry == Low(a, |before|) + Low(b, |before|)
    ensures Value(before + [digit]) + Weight(|before| + 1) * up == Low(a, |before| + 1) + Low(b, |before| + 1)
  {
    var w, x, y := Weight(|before|), LimbOrZero(a, |before|), LimbOrZero(b, |before|);
    LowStep(a, |before|);
    LowStep(b, |before|);
    ValueAppend(before, digit);
    AddAlgebra(w, Weight(|before| + 1), 0x1_0000_0000, digit, up, carry, x, y);
  }

  lemma AddAlgebra(w: int, w1: int, base: int, digit: int, up: int, carry: int, x: int, y: int)
    requires digit + base * up == carry + x + y
    requires w1 == base * w
    ensures w * digit + w1 * up == w * carry + w * x + w * y
  {
    assert w * (digit + base * up) == w * (carry + x + y);
    assert w * (base * up) == (base * w) * up;
  }

  lemma AddFits(dst: seq<u32>, carry: u32, a: seq<u32>, b: seq<u32>)
    requires Value(dst) + Weight(|dst|) * carry == Low(a, |dst|) + Low(b, |dst|)
    ensures Value(dst) == (Value(a) + Value(b)) % Weight(|dst|)
    ensures Value(a) + Value(b) >= Weight(|dst|) <==>
            carry != 0 || (exists i :: |dst| <= i < |a| && a[i] != 0) || (exists i :: |dst| <= i < |b| && b[i] != 0)
  {
    hide *;
    var ha := LowRest(a, |dst|);
    var hb := LowRest(b, |dst|);
    ValueBound(dst);
    var high := AddTotal(Value(a), Value(b), Low(a, |dst|), Low(b, |dst|), Value(dst), Weight(|dst|), carry, ha, hb);
    SplitFits(Value(a) + Value(b), Value(dst), Weight(|dst|), high);
  }

  lemma AddTotal(a: int, b: int, la: int, lb: int, dst: int, w: int, carry: nat, ha: nat, hb: nat)
    returns (high: nat)
    requires a == la + w * ha && b == lb + w * hb && dst + w * carry == la + lb
    ensures high == carry + ha + hb && a + b == dst + w * high
  {
    high := carry + ha + hb;
  }

  /** Number of limbs of `b` that row `i` looks at: it stops after its first limb past `dst`. */
  function Cut(bLen: nat, dLen: nat, i: nat): (r: nat)
    ensures r <= bLen
  {
    var stop := if i < dLen then dLen - i + 1 else 1;
    if stop < bLen then stop else bLen
  }

  /** The first `j` partial products of row `i`. */
  function RowSum(ai: u32, i: nat, b: seq<u32>, j: nat): (r: nat)
    requires j <= |b|
  {
    if j == 0 then 0 else RowSum(ai, i, b, j - 1) + Weight(i + j - 1) * (ai * b[j - 1])
  }

  /** The sum of the partial products that the loop nest looks at. */
  function Reached(a: seq<u32>, b: seq<u32>, dLen: nat, rows: nat): (r: nat)
    requires rows <= |a|
  {
    if rows == 0 then 0
    else Reached(a, b, dLen, rows - 1) + RowSum(a[rows - 1], rows - 1, b, Cut(|b|, dLen, rows - 1))
  }

  /** Some partial product past the cut is not zero. */
  ghost predicate SkipsNonZero(a: seq<u32>, b: seq<u32>, dLen: nat, rows: nat)
    requires rows <= |a|
  {
    exists i, j :: 0 <= i < rows && Cut(|b|, dLen, i) <= j < |b| && a[i] != 0 && b[j] != 0
  }

  method Mul(dst: array<u32>, a: array<u32>, b: array<u32>) returns (overflow: bool)
    requires dst != a && dst != b
    modifies dst
    ensures Value(dst[..]) == (Value(a[..]) * Value(b[..])) % Weight(dst.Length)
    ensures overflow <==> Reached(a[..], b[..], dst.Length, a.Length) >= Weight(dst.Length)
    ensures overflow ==> Value(a[..]) * Value(b[..]) >= Weight(dst.Length)
  {
    var n := dst.Length;
    ghost var av, bv := a[..], b[..];
    for k := 0 to n
      invariant a[..] == av && b[..] == bv
      invariant forall m :: 0 <= m < k ==> dst[m] == 0
    {
      dst[k] := 0;
    }
    overflow := false;
    ghost var lost: nat := 0;
    ValueZeros(dst[..]);
    for i := 0 to a.Length
      invariant a[..] == av && b[..] == bv
      invariant forall k :: i + b.Length <= k < n ==> dst[k] == 0
      invariant Value(dst[..]) + Weight(n) * lost == Reached(av, bv, n, i)
      invariant overflow <==> lost > 0
    {
      var over, l := MulRow(dst, a[i], b, i);
      overflow := overflow || over;
      lost := MulTotal(Reached(av, bv, n, i + 1), Value(dst[..]) + Weight(n) * lost,
                       Value(dst[..]), Weight(n), lost, l);
    }
    MulFits(dst[..], lost, av, bv);
  }

  /** One row of the product: the inner loop for a fixed limb of `a`. */
  method MulRow(dst: array<u32>, ai: u32, b: array<u32>, i: nat)
    returns (overflow: bool, ghost lost: nat)
    requires dst != b
    requires forall k :: i + b.Length <= k < dst.Length ==> dst[k] == 0
    modifies dst
    ensures Value(dst[..]) + Weight(dst.Length) * lost ==
            Value(old(dst[..])) + RowSum(ai, i, b[..], Cut(b.Length, dst.Length, i))
    ensures overflow <==> lost > 0
    ensures forall k :: i + b.Length < k < dst.Length ==> dst[k] == 0
  {
    hide Value, Weight, RowSum;
    var n, m := dst.Length, b.Length;
    ghost var v0, bv := Value(dst[..]), b[..];
    RowSumNone(ai, i, bv);
    var carry: u32 := 0;
    var j := 0;
    while j < m
      invariant 0 <= j <= m && (j == 0 || i + j <= n) && (j == 0 ==> carry == 0)
      invariant b[..] == bv
      invariant forall k :: i + m <= k < n ==> dst[k] == 0
      invariant Value(dst[..]) + Weight(i + j) * carry == v0 + RowSum(ai, i, bv, j)
    {
      RowSumNext(ai, i, bv, j);
      var tmp := WideProduct(ai, b[j]) + carry;
      assert tmp <= 0xFFFF_FFFF_FFFF_FFFF;
      if i + j < n {
        tmp := tmp + dst[i + j];
        assert tmp <= 0xFFFF_FFFF_FFFF_FFFF;
        ghost var before := dst[..];
        RowStep(before, i + j, ai * b[j], carry, tmp % 0x1_0000_0000, tmp / 0x1_0000_0000);
        dst[i + j] := tmp % 0x1_0000_0000;
        assert dst[..] == before[i + j := dst[i + j]];
        carry := tmp / 0x1_0000_0000;
      } else {
        overflow := tmp > 0;
        lost := DropTerm(n, i + j, ai * b[j], carry);
        return overflow || carry > 0, lost;
      }
      j := j + 1;
    }
    if i + m < n {
      ghost var before := dst[..];
      ValueUpdate(before, i + m, carry);
      dst[i + m] := carry;
      assert dst[..] == before[i + m := carry];
      overflow, lost := false, 0;
    } else {
      overflow, lost := carry > 0, carry;
    }
  }

  lemma RowSumNone(ai: u32, i: nat, b: seq<u32>)
    ensures RowSum(ai, i, b, 0) == 0
  {
  }

  lemma RowSumNext(ai: u32, i: nat, b: seq<u32>, j: nat)
    requires j < |b|
    ensures RowSum(ai, i, b, j + 1) == RowSum(ai, i, b, j) + Weight(i + j) * (ai * b[j])
  {
  }

  /** A 32 by 32 bit product leaves room for two more 32-bit terms in 64 bits. */
  function WideProduct(x: u32, y: u32): (r: nat)
    ensures r == x * y
    ensures r + 0xFFFF_FFFF + 0xFFFF_FFFF <= 0xFFFF_FFFF_FFFF_FFFF
  {
    MulBothMono(0xFFFF_FFFF, 0xFFFF_FFFF, x, y);
    x * y
  }

  lemma RowStep(before: seq<u32>, k: nat, prod: nat, carry: u32, digit: u32, up: u32)
    requires k < |before|
    requires digit + 0x1_0000_0000 * up == prod + carry + before[k]
    ensures Value(before[k := digit]) + Weight(k + 1) * up ==
            Value(before) + Weight(k) * carry + Weight(k) * prod
  {
    ValueUpdate(before, k, digit);
    AddAlgebra(Weight(k), Weight(k + 1), 0x1_0000_0000, digit, up, prod, carry, before[k]);
  }

  /** A term at position k >= n counts as a multiple of Weight(n). */
  lemma DropTerm(n: nat, k: nat, prod: nat, carry: nat) returns (lost: nat)
    requires n <= k
    ensures Weight(n) * lost == Weight(k) * carry + Weight(k) * prod
    ensures lost > 0 <==> prod + carry > 0
  {
    var sum := carry + prod;
    MulAdd(Weight(k), carry, prod);
    lost := ShiftDown(n, k, sum);
  }

  lemma ShiftDown(n: nat, k: nat, x: nat) returns (y: nat)
    requires n <= k
    ensures Weight(k) * x == Weight(n) * y
    ensures y > 0 <==> x > 0
  {
    WeightAdd(n, k - n);
    y := Weight(k - n) * x;
    MulAssoc(Weight(n), Weight(k - n), x);
    MulPositive(Weight(k - n), x);
  }

  lemma MulFits(dst: seq<u32>, lost: nat, a: seq<u32>, b: seq<u32>)
    requires Value(dst) + Weight(|dst|) * lost == Reached(a, b, |dst|, |a|)
    ensures Value(dst) == (Value(a) * Value(b)) % Weight(|dst|)
    ensures Reached(a, b, |dst|, |a|) >= Weight(|dst|) <==> lost > 0
    ensures lost > 0 ==> Value(a) * Value(b) >= Weight(|dst|)
  {
    hide *;
    ValueBound(dst);
    MulPositive(Weight(|dst|), lost);
    var skipped := ReachedRest(a, b, |dst|, |a|);
    assert a[..|a|] == a;
    var total := Value(a) * Value(b);
    var high := MulTotal(total, Reached(a, b, |dst|, |a|), Value(dst), Weight(|dst|), lost, skipped);
    SplitFits(total, Value(dst), Weight(|dst|), high);
  }

  lemma MulTotal(total: int, reached: int, dst: int, w: int, lost: nat, skipped: nat) returns (high: nat)
    requires dst + w * lost == reached && total == reached + w * skipped
    ensures high == lost + skipped && total == dst + w * high
  {
    high := lost + skipped;
  }

  /** Row `i` of the product, cut or not, is a_i * b shifted by i limbs. */
  lemma {:induction false} RowSumIs(ai: u32, i: nat, b: seq<u32>, j: nat)
    requires j <= |b|
    ensures RowSum(ai, i, b, j) == Weight(i) * (ai * Value(b[..j]))
    decreases j
  {
    if j > 0 {
      RowSumIs(ai, i, b, j - 1);
      assert b[..j] == b[..j - 1] + [b[j - 1]];
      ValueAppend(b[..j - 1], b[j - 1]);
      WeightAdd(i, j - 1);
      RowAlgebra(Weight(i), Weight(i + j - 1), ai, Value(b[..j - 1]), Weight(j - 1), b[j - 1], Value(b[..j]));
    }
  }

  /** u * (x * v), for v = low + w * y, regrouped into its two terms. */
  lemma RowAlgebra(u: int, uw: int, x: int, low: int, w: int, y: int, v: int)
    requires uw == u * w && v == low + w * y
    ensures u * (x * v) == u * (x * low) + uw * (x * y)
  {
    MulAdd(x, low, w * y);
    assert x * (w * y) == w * (x * y);
    MulAdd(u, x * low, w * (x * y));
    MulAssoc(u, w, x * y);
  }

  /** The partial products past the cut add up to a multiple of Weight(dLen). */
  lemma {:induction false} ReachedRest(a: seq<u32>, b: seq<u32>, dLen: nat, rows: nat) returns (skipped: nat)
    requires rows <= |a|
    ensures Value(a[..rows]) * Value(b) == Reached(a, b, dLen, rows) + Weight(dLen) * skipped
    ensures skipped > 0 <==> SkipsNonZero(a, b, dLen, rows)
    decreases rows
  {
    if rows == 0 {
      skipped := 0;
    } else {
      hide Value, Weight, RowSum, Reached, SkipsNonZero, Cut;
      var r := rows - 1;
      var before := ReachedRest(a, b, dLen, r);
      var row := RowRest(a[r], r, b, dLen);
      assert a[..rows] == a[..r] + [a[r]];
      ValueAppend(a[..r], a[r]);
      ProductAppend(Value(a[..rows]), Value(a[..r]), Weight(r), a[r], Value(b));
      MulAdd(Weight(dLen), before, row);
      skipped := before + row;
      OneMoreRow(a, b, dLen, rows);
    }
  }

  lemma OneMoreRow(a: seq<u32>, b: seq<u32>, dLen: nat, rows: nat)
    requires 0 < rows <= |a|
    ensures var r := rows - 1;
            && Reached(a, b, dLen, rows) == Reached(a, b, dLen, r) + RowSum(a[r], r, b, Cut(|b|, dLen, r))
            && (SkipsNonZero(a, b, dLen, rows) <==>
                  SkipsNonZero(a, b, dLen, r) || (a[r] > 0 && exists j :: Cut(|b|, dLen, r) <= j < |b| && b[j] != 0))
  {
    hide RowSum, Cut;
  }

  lemma ProductAppend(v: int, x: int, w: int, y: int, b: int)
    requires v == x + w * y
    ensures v * b == x * b + w * (y * b)
  {
    assert (x + w * y) * b == x * b + (w * y) * b;
    MulAssoc(w, y, b);
  }

  lemma RowRest(ar: u32, r: nat, b: seq<u32>, dLen: nat) returns (row: nat)
    ensures Weight(r) * (ar * Value(b)) ==
            RowSum(ar, r, b, Cut(|b|, dLen, r)) + Weight(dLen) * row
    ensures row > 0 <==> ar > 0 && exists j :: Cut(|b|, dLen, r) <= j < |b| && b[j] != 0
  {
    var c := Cut(|b|, dLen, r);
    RowSumIs(ar, r, b, c);
    var high := LowRest(b, c);
    WeightAdd(r, c);
    RowAlgebra(Weight(r), Weight(r + c), ar, Value(b[..c]), Weight(c), high, Value(b));
    MulPositive(ar, high);
    if ar * high == 0 {
      row := 0;
    } else {
      row := ShiftDown(dLen, r + c, ar * high);
    }
  }

  /**
   The overflow flag is right for a pair of operands exactly when no nonzero partial product
   lies past the cut, or what lies before the cut overflows by itself.
   */
  lemma FlagExact(a: seq<u32>, b: seq<u32>, dLen: nat)
    ensures (Reached(a, b, dLen, |a|) >= Weight(dLen) <==> Value(a) * Value(b) >= Weight(dLen))
            <==> (SkipsNonZero(a, b, dLen, |a|) ==> Reached(a, b, dLen, |a|) >= Weight(dLen))
  {
    var skipped := ReachedRest(a, b, dLen, |a|);
    assert a[..|a|] == a;
    MulPositive(Weight(dLen), skipped);
  }

  /**
   Over all operands of given lengths, the flag says exactly "the product does not fit" iff
   no row can have a limb past its cut.
   */
  lemma FlagCompleteForLengths(aLen: nat, bLen: nat, dLen: nat)
    ensures (forall a: seq<u32>, b: seq<u32> | |a| == aLen && |b| == bLen ::
               Reached(a, b, dLen, |a|) >= Weight(dLen) <==> Value(a) * Value(b) >= Weight(dLen))
            <==> (aLen == 0 || bLen <= 1 || aLen + bLen <= dLen + 2)
  {
    if aLen == 0 || bLen <= 1 || aLen + bLen <= dLen + 2 {
      forall a: seq<u32>, b: seq<u32> | |a| == aLen && |b| == bLen
        ensures Reached(a, b, dLen, |a|) >= Weight(dLen) <==> Value(a) * Value(b) >= Weight(dLen)
      {
        FlagExact(a, b, dLen);
      }
    } else {
      var a, b := MissedPair(aLen, bLen, dLen);
    }
  }

  /** Two powers of the base whose product overflows while every limb the loops look at is zero. */
  lemma MissedPair(aLen: nat, bLen: nat, dLen: nat) returns (a: seq<u32>, b: seq<u32>)
    requires aLen > 0 && bLen > 1 && aLen + bLen > dLen + 2
    ensures |a| == aLen && |b| == bLen
    ensures Reached(a, b, dLen, |a|) == 0
    ensures Value(a) * Value(b) >= Weight(dLen) > 0
  {
    a := seq(aLen, i => if i == aLen - 1 then 1 else 0);
    b := seq(bLen, i => if i == bLen - 1 then 1 else 0);
    ReachedZero(a, b, dLen, aLen);
    assert a[aLen - 1] != 0 && b[bLen - 1] != 0;
    assert Cut(|b|, dLen, aLen - 1) <= bLen - 1;
    var skipped := ReachedRest(a, b, dLen, aLen);
    assert a[..aLen] == a;
    MulPositive(Weight(dLen), skipped);
  }

  lemma {:induction false} ReachedZero(a: seq<u32>, b: seq<u32>, dLen: nat, rows: nat)
    requires rows <= |a|
    requires forall i, j :: 0 <= i < rows && 0 <= j < Cut(|b|, dLen, i) ==> a[i] == 0 || b[j] == 0
    ensures Reached(a, b, dLen, rows) == 0
  {
    if rows > 0 {
      var r := rows - 1;
      var c := Cut(|b|, dLen, r);
      ReachedZero(a, b, dLen, r);
      RowSumIs(a[r], r, b, c);
      if a[r] != 0 { ValueZeros(b[..c]); }
      MulPositive(a[r], Value(b[..c]));
    }
  }
}
