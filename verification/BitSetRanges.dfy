/**
 Range, extraction and counting operations of src/util/bitset.h, each proved to be the
 corresponding operation on the set of members.
 */
module BitSetRanges {
  import opened Words
  import opened BitScan
  import opened BitSet

  /** BITSET_MASK: the bits below b % 32, or all of them when that is zero. */
  function MaskTo(b: nat): (r: u32) {
    if b % 32 == 0 then 0xFFFF_FFFF else Pow2Mask(b % 32)
  }

  lemma MaskToBit(b: nat, k: nat)
    requires k < 32
    ensures Bit(MaskTo(b), k) <==> b % 32 == 0 || k < b % 32
  {
    Pow2At32();
    BitMask(if b % 32 == 0 then 32 else b % 32, k);
  }

  /** BITSET_RANGE */
  function RangeMask(b: nat, e: nat): (r: u32) {
    And(MaskTo(e + 1), Not(Pow2Mask(b % 32)))
  }

  lemma RangeMaskBit(b: nat, e: nat, k: nat)
    requires b <= e && b / 32 == e / 32 && k < 32
    ensures Bit(RangeMask(b, e), k) <==> b % 32 <= k <= e % 32
  {
    hide And, MaskTo, Pow2, Bit;
    assert (e + 1) % 32 == if e % 32 == 31 then 0 else e % 32 + 1;
    BitAnd(MaskTo(e + 1), Not(Pow2Mask(b % 32)), k);
    MaskToBit(e + 1, k);
    BitNot(Pow2Mask(b % 32), k);
    BitMask(b % 32, k);
  }

  /** How far the range loops advance: to the end of the word or of the range. */
  function Chunk(start: nat, end: nat): (r: nat)
    requires start <= end
    ensures 0 < r && start + r - 1 <= end
    ensures start / 32 == (start + r - 1) / 32
  {
    if 32 - start % 32 <= end - start + 1 then 32 - start % 32 else end - start + 1
  }

  method SetRange(r: array<u32>, start: nat, end: int)
    requires end < 32 * r.Length
    modifies r
    ensures forall i: nat :: i < 32 * r.Length ==> (Has(r[..], i) <==> Has(old(r[..]), i) || start <= i <= end)
  {
    var s := start;
    ghost var was := r[..];
    while s <= end
      invariant start <= s && (if start <= end then s <= end + 1 else s == start)
      invariant forall i: nat :: i < 32 * r.Length ==> (Has(r[..], i) <==> Has(was, i) || start <= i < s)
    {
      var size := Chunk(s, end);
      ghost var before := r[..];
      r[s / 32] := Or32(r[s / 32], RangeMask(s, s + size - 1));
      SetInsideWord(before, r[..], s, s + size - 1);
      s := s + size;
    }
  }

  lemma SetInsideWord(before: seq<u32>, now: seq<u32>, b: nat, e: nat)
    requires b <= e && b / 32 == e / 32 < |before|
    requires now == before[b / 32 := Or32(before[b / 32], RangeMask(b, e))]
    ensures forall i: nat :: i < 32 * |before| ==> (Has(now, i) <==> Has(before, i) || b <= i <= e)
  {
    forall i: nat | i < 32 * |before| ensures Has(now, i) <==> Has(before, i) || b <= i <= e {
      BitOr(before[b / 32], RangeMask(b, e), i % 32);
      RangeMaskBit(b, e, i % 32);
    }
  }

  method ClearRange(r: array<u32>, start: nat, end: int)
    requires end < 32 * r.Length
    modifies r
    ensures forall i: nat :: i < 32 * r.Length ==> (Has(r[..], i) <==> Has(old(r[..]), i) && !(start <= i <= end))
  {
    var s := start;
    ghost var was := r[..];
    while s <= end
      invariant start <= s && (if start <= end then s <= end + 1 else s == start)
      invariant forall i: nat :: i < 32 * r.Length ==> (Has(r[..], i) <==> Has(was, i) && !(start <= i < s))
    {
      var size := Chunk(s, end);
      ghost var before := r[..];
      r[s / 32] := And(r[s / 32], Not(RangeMask(s, s + size - 1)));
      ClearInsideWord(before, r[..], s, s + size - 1);
      s := s + size;
    }
  }

  lemma ClearInsideWord(before: seq<u32>, now: seq<u32>, b: nat, e: nat)
    requires b <= e && b / 32 == e / 32 < |before|
    requires now == before[b / 32 := And(before[b / 32], Not(RangeMask(b, e)))]
    ensures forall i: nat :: i < 32 * |before| ==> (Has(now, i) <==> Has(before, i) && !(b <= i <= e))
  {
    hide And, Bit, RangeMask, Not;
    forall i: nat | i < 32 * |before| ensures Has(now, i) <==> Has(before, i) && !(b <= i <= e) {
      BitAnd(before[b / 32], Not(RangeMask(b, e)), i % 32);
      BitNot(RangeMask(b, e), i % 32);
      RangeMaskBit(b, e, i % 32);
    }
  }

  /** BITSET_GET_RANGE_INSIDE_WORD */
  function RangeInsideWord(r: seq<u32>, b: nat, e: nat): (v: u32)
    requires b <= e && b / 32 == e / 32 < |r|
  {
    And(Words.Shr(r[b / 32], b % 32), MaskTo(e - b + 1))
  }

  lemma RangeInsideWordBit(r: seq<u32>, b: nat, e: nat, k: nat)
    requires b <= e && b / 32 == e / 32 < |r| && k < 32
    ensures Bit(RangeInsideWord(r, b, e), k) <==> b + k <= e && Has(r, b + k)
  {
    hide And, MaskTo, Pow2, Bit, Words.Shr;
    assert e - b == e % 32 - b % 32;
    assert (e - b + 1) % 32 == if e - b == 31 then 0 else e - b + 1;
    BitAnd(Words.Shr(r[b / 32], b % 32), MaskTo(e - b + 1), k);
    MaskToBit(e - b + 1, k);
    BitShr(r[b / 32], b % 32, k);
    if b + k <= e { assert (b + k) / 32 == b / 32 && (b + k) % 32 == b % 32 + k; }
  }

  method TestRange(r: seq<u32>, start: nat, end: int) returns (any: bool)
    requires end < 32 * |r|
    ensures any <==> exists i: nat :: start <= i <= end && Has(r, i)
  {
    var s := start;
    Pow2At32();
    while s <= end
      invariant start <= s && forall i: nat :: start <= i < s && i <= end ==> !Has(r, i)
    {
      var size := Chunk(s, end);
      var e := s + size - 1;
      var bits := RangeInsideWord(r, s, e);
      if bits != 0 {
        ghost var k := SomeBit(bits);
        if k >= 32 { BitAbove(bits, 32, k); }
        RangeInsideWordBit(r, s, e, k);
        assert Has(r, s + k);
        return true;
      }
      forall i: nat | s <= i <= e ensures !Has(r, i) {
        RangeInsideWordBit(r, s, e, i - s);
        BitOfZero(i - s);
      }
      s := s + size;
    }
    return false;
  }

  /** `__bitset_extract`: `count` bits from `start`, possibly across a word boundary. */
  function Extract(r: seq<u32>, start: nat, count: nat): (v: u32)
    requires count <= 32 && start < 32 * |r| && start + count <= 32 * |r|
  {
    var shift := start % 32;
    var lower := Words.Shr(r[start / 32], shift);
    var upper := if shift != 0 then Words.Shl(r[(start + count - 1) / 32], 32 - shift) else 0;
    var total := Or32(lower, upper);
    if count != 32 then And(total, Pow2Mask(count)) else total
  }

  lemma ExtractBits(r: seq<u32>, start: nat, count: nat, k: nat)
    requires count <= 32 && start < 32 * |r| && start + count <= 32 * |r| && k < 32
    ensures Bit(Extract(r, start, count), k) <==> k < count && Has(r, start + k)
  {
    hide Bit, Has, And, Words.Shr, Words.Shl, Pow2Mask;
    var shift := start % 32;
    var lower := Words.Shr(r[start / 32], shift);
    var upper := if shift != 0 then Words.Shl(r[(start + count - 1) / 32], 32 - shift) else 0;
    BitOr(lower, upper, k);
    if count != 32 {
      BitAnd(Or32(lower, upper), Pow2Mask(count), k);
      BitMask(count, k);
    }
    if k < count { ExtractParts(r, start, count, k, lower, upper); }
  }

  /** Bits of the lower word, then of the upper one. */
  lemma ExtractParts(r: seq<u32>, start: nat, count: nat, k: nat, lower: u32, upper: u32)
    requires k < count <= 32 && start < 32 * |r| && start + count <= 32 * |r|
    requires lower == Words.Shr(r[start / 32], start % 32)
    requires upper == if start % 32 != 0 then Words.Shl(r[(start + count - 1) / 32], 32 - start % 32) else 0
    ensures Bit(lower, k) || Bit(upper, k) <==> Has(r, start + k)
  {
    hide Bit, Words.Shr, Words.Shl;
    var shift := start % 32;
    BitShr(r[start / 32], shift, k);
    BitOfZero(k);
    if shift != 0 { BitShl32(r[(start + count - 1) / 32], 32 - shift, k); }
    if shift + k < 32 {
      assert (start + k) / 32 == start / 32 && (start + k) % 32 == shift + k;
    } else {
      assert (start + k) / 32 == start / 32 + 1 == (start + count - 1) / 32 && (start + k) % 32 == shift + k - 32;
      Pow2At32();
      BitAbove(r[start / 32], 32, k + shift);
    }
  }

  /** The number of members below `b`. */
  function MembersBelow(x: seq<u32>, b: nat): (r: nat) {
    if b == 0 then 0 else MembersBelow(x, b - 1) + if Has(x, b - 1) then 1 else 0
  }

  /** The members below `b`. */
  ghost function Below(x: seq<u32>, b: nat): (r: set<int>)
    ensures forall i :: i in r <==> 0 <= i < b && Has(x, i)
  {
    if b == 0 then {} else if Has(x, b - 1) then Below(x, b - 1) + {b - 1} else Below(x, b - 1)
  }

  lemma {:induction false} MembersIsCardinality(x: seq<u32>, b: nat)
    ensures MembersBelow(x, b) == |Below(x, b)|
  {
    hide Has;
    if b > 0 {
      MembersIsCardinality(x, b - 1);
      assert Below(x, b) == if Has(x, b - 1) then Below(x, b - 1) + {b - 1} else Below(x, b - 1);
    }
  }

  lemma {:induction false} MembersInWord(x: seq<u32>, k: nat, m: nat)
    requires k < |x| && m <= 32
    ensures MembersBelow(x, 32 * k + m) == MembersBelow(x, 32 * k) + CountBelow(x[k], m)
    decreases m
  {
    if m > 0 {
      MembersInWord(x, k, m - 1);
      assert (32 * k + m - 1) / 32 == k && (32 * k + m - 1) % 32 == m - 1;
    }
  }

  lemma {:induction false} MembersPastEnd(x: seq<u32>, b: nat)
    requires b >= 32 * |x|
    ensures MembersBelow(x, b) == MembersBelow(x, 32 * |x|)
  {
    if b > 32 * |x| { MembersPastEnd(x, b - 1); }
  }

  lemma {:induction false} CountMasked(w: u32, m: nat, n: nat)
    requires m < 32
    ensures CountBelow(And(w, Pow2Mask(m)), n) == CountBelow(w, if n <= m then n else m)
    decreases n
  {
    if n > 0 {
      CountMasked(w, m, n - 1);
      BitAnd(w, Pow2Mask(m), n - 1);
      BitMask(m, n - 1);
    }
  }

  lemma NoneBelow(x: seq<u32>)
    ensures MembersBelow(x, 0) == 0
  {
  }

  /** `__bitset_prefix_sum` over the first n words. */
  method PrefixSum(x: seq<u32>, b: nat) returns (prefix: nat)
    ensures prefix == MembersBelow(x, b)
    ensures prefix == |Below(x, b)|
  {
    hide MembersBelow, Below, Ones, CountBelow, And, Has;
    MembersIsCardinality(x, b);
    NoneBelow(x);
    Pow2At32();
    prefix := 0;
    for i := 0 to |x|
      invariant 32 * i <= b
      invariant prefix == MembersBelow(x, 32 * i)
    {
      if (i + 1) * 32 <= b {
        var c := BitCount(x[i]);
        OnesIsCount(x[i], 32);
        MembersInWord(x, i, 32);
        prefix := prefix + c;
      } else {
        var masked := And(x[i], Pow2Mask(b - i * 32));
        var c := BitCount(masked);
        OnesIsCount(masked, 32);
        CountMasked(x[i], b - i * 32, 32);
        MembersInWord(x, i, b - i * 32);
        return prefix + c;
      }
    }
    MembersPastEnd(x, b);
  }

  /** The highest member below `bound`, plus one; zero if there is none. */
  ghost predicate IsLastBefore(x: seq<u32>, bound: nat, r: nat) {
    && r <= bound
    && (r > 0 ==> Has(x, r - 1))
    && forall i: nat :: r <= i < bound ==> !Has(x, i)
  }

  /** `__bitset_last_bit` on the first n words. */
  method LastBitOfSet(x: seq<u32>, n: nat) returns (r: nat)
    requires n <= |x|
    ensures IsLastBefore(x, 32 * n, r)
  {
    for i := n downto 0
      invariant forall j: nat :: 32 * i <= j < 32 * n ==> !Has(x, j)
    {
      if x[i] != 0 {
        var last := LastBit(x[i]);
        r := last + 32 * i;
        assert (r - 1) / 32 == i && (r - 1) % 32 == last - 1;
        forall j: nat | r <= j < 32 * (i + 1) ensures !Has(x, j) { assert j / 32 == i && j % 32 > last - 1; }
        return;
      }
      forall j: nat | 32 * i <= j < 32 * (i + 1) ensures !Has(x, j) { BitOfZero(j % 32); }
    }
    return 0;
  }

  /** The highest member in the first `rest` bits of word `n`. */
  method LastBitInPart(x: seq<u32>, n: nat, rest: nat) returns (r: nat)
    requires n < |x| && 0 < rest < 32
    ensures r == 0 ==> forall j: nat :: 32 * n <= j < 32 * n + rest ==> !Has(x, j)
    ensures r > 0 ==> 32 * n < r && IsLastBefore(x, 32 * n + rest, r)
  {
    var last := And(x[n], Pow2Mask(rest));
    Pow2At32();
    forall k: nat | k < 32 ensures Bit(last, k) <==> Bit(x[n], k) && k < rest {
      BitAnd(x[n], Pow2Mask(rest), k);
      BitMask(rest, k);
    }
    forall j: nat | 32 * n <= j < 32 * n + rest ensures Has(x, j) <==> Bit(last, j - 32 * n) {
      assert j / 32 == n && j % 32 == j - 32 * n;
    }
    hide Has, And, Bit, Pow2Mask;
    if last != 0 {
      var l := LastBit(last);
      r := l + n * 32;
    } else {
      forall k: nat ensures !Bit(last, k) { BitOfZero(k); }
      r := 0;
    }
  }

  method LastBitBefore(x: seq<u32>, bound: nat) returns (r: nat)
    requires bound <= 32 * |x|
    ensures IsLastBefore(x, bound, r)
  {
    hide Has;
    var n, rest := bound / 32, bound % 32;
    if rest != 0 {
      r := LastBitInPart(x, n, rest);
      if r != 0 { return; }
    }
    r := LastBitOfSet(x, n);
  }
}
