/**
 The find-bit and count-bit fallbacks of src/util/bitscan.c and src/util/bitscan.h.
 */
module BitScan {
  import opened Words
  import opened Products

  /** Bit `k` is the least significant one set in `w`. */
  ghost predicate IsLowest(w: nat, k: nat) {
    Bit(w, k) && forall j :: 0 <= j < k ==> !Bit(w, j)
  }

  /** Bit `k` is the most significant one set in `w`. */
  ghost predicate IsHighest(w: nat, k: nat) {
    Bit(w, k) && forall j :: k < j ==> !Bit(w, j)
  }

  /** The number of ones among the bits of `w`. */
  function Ones(w: nat): (r: nat) {
    if w == 0 then 0 else Ones(w / 2) + w % 2
  }

  /** Reinterpretation of an `unsigned` as an `int`. */
  function AsInt(w: u32): (r: int)
    ensures -0x8000_0000 <= r < 0x8000_0000
    ensures r == w || r == w - 0x1_0000_0000
  {
    if w < 0x8000_0000 then w else w - 0x1_0000_0000
  }

  /** An odd multiple of 2^k, taken modulo 2^32, has k as its lowest bit. */
  lemma OddMultiple(w: u32, i: int, k: nat, odd: int)
    requires i == w || i == w - 0x1_0000_0000
    requires k < 32 && i == Pow2(k) * odd && odd % 2 == 1
    ensures IsLowest(w, k)
  {
    hide *;
    var up := Complement(k);
    if i == w {
      OddQuotient(w, i, Pow2(k), odd, 0, odd);
      LowestOfOdd(odd, w, k);
    } else {
      OddQuotient(w, i, Pow2(k), odd, up, odd + up);
      LowestOfOdd(odd + up, w, k);
    }
  }

  lemma Complement(k: nat) returns (up: nat)
    requires k < 32
    ensures Pow2(k) * up == 0x1_0000_0000 && up % 2 == 0
  {
    up := Pow2(32 - k);
    assert up == 2 * Pow2(31 - k);
    hide Pow2;
    Pow2At32();
    Pow2Add(k, 32 - k);
  }

  lemma LowestOfOdd(o: nat, w: nat, k: nat)
    requires o % 2 == 1 && w == o * Pow2(k)
    ensures IsLowest(w, k)
  {
    forall j | 0 <= j <= k ensures Bit(w, j) <==> j == k {
      BitShl(o, k, j);
    }
  }

  lemma OddQuotient(w: nat, i: int, p: nat, odd: int, up: int, o: int)
    requires p > 0 && i == p * odd
    requires w == i + p * up && o == odd + up
    ensures w == o * p && o >= 0
  {
    MulAdd(p, odd, up);
    if o < 0 { MulAtLeast(p, o); }
  }

  /** `i` is 2^bit times the value left after dropping `bit` zero bits. */
  lemma DropZeros(i: int, q: int, whole: int, bit: nat, n: nat, p: nat)
    requires whole == Pow2(bit) * i && p == Pow2(n) && i == p * q
    ensures whole == Pow2(bit + n) * q
    ensures i % (p * p) != 0 ==> q % p != 0
  {
    hide Pow2;
    Pow2Add(bit, n);
    MulAssoc(Pow2(bit), p, q);
    if q % p == 0 { SquareDivides(i, q, q / p, p); }
  }

  lemma SquareDivides(i: int, q: int, m: int, p: nat)
    requires p > 0 && i == p * q && q == p * m
    ensures p * p > 0 && i % (p * p) == 0
  {
    MulPositive(p, p);
    MulAssoc(p, p, m);
    DivUnique(i, p * p, m, 0);
  }

  /** ffs as a function of the bits. */
  function FfsOf(w: nat): (r: nat)
    ensures w == 0 <==> r == 0
  {
    if w == 0 then 0 else if w % 2 == 1 then 1 else 1 + FfsOf(w / 2)
  }

  lemma {:induction false} FfsOfIsLowest(w: nat, k: nat)
    requires IsLowest(w, k)
    ensures FfsOf(w) == k + 1
  {
    if w == 0 { BitOfZero(k); }
    assert k > 0 ==> !Bit(w, 0);
    if k > 0 {
      forall j | 0 <= j < k - 1 ensures !Bit(w / 2, j) { assert !Bit(w, j + 1); }
      FfsOfIsLowest(w / 2, k - 1);
    }
  }

  lemma Pow2Values()
    ensures Pow2(0) == 1 && Pow2(1) == 2 && Pow2(2) == 4 && Pow2(4) == 16 && Pow2(8) == 256 && Pow2(16) == 65536
  {
  }

  /** One halving step of ffs: drop `n` bits if they are all zero. */
  method Narrow(i: int, bit: nat, n: nat, p: nat, ghost whole: int) returns (j: int, b: nat)
    requires p == Pow2(n) && p * p > 0 && whole == Pow2(bit) * i && i % (p * p) != 0
    ensures whole == Pow2(b) * j && j % p != 0 && bit <= b <= bit + n
  {
    if i % p == 0 {
      DropZeros(i, i / p, whole, bit, n, p);
      return i / p, bit + n;
    }
    return i, bit;
  }

  method Ffs(w: u32) returns (r: nat)
    ensures w == 0 <==> r == 0
    ensures r <= 32
    ensures r > 0 ==> IsLowest(w, r - 1)
    ensures r == FfsOf(w)
  {
    var i := AsInt(w);
    var bit := 0;
    if i == 0 { return 0; }
    hide *;
    Pow2Values();
    ghost var whole := i;
    i, bit := Narrow(i, bit, 16, 65536, whole);
    i, bit := Narrow(i, bit, 8, 256, whole);
    i, bit := Narrow(i, bit, 4, 16, whole);
    i, bit := Narrow(i, bit, 2, 4, whole);
    i, bit := Narrow(i, bit, 1, 2, whole);
    OddMultiple(w, whole, bit, i);
    FfsOfIsLowest(w, bit);
    return bit + 1;
  }

  /** ffsll on the two halves of a 64-bit word. */
  method Ffsll(low: u32, high: u32) returns (r: nat)
    ensures low == 0 && high == 0 <==> r == 0
    ensures r <= 64
    ensures r > 0 ==> IsLowest(low + 0x1_0000_0000 * high, r - 1)
  {
    var bit := Ffs(low);
    ghost var w := low + 0x1_0000_0000 * high;
    if bit != 0 {
      forall j | 0 <= j < 32 ensures Bit(w, j) == Bit(low, j) { BitOfPair(low, high, j); }
      return bit;
    }
    bit := Ffs(high);
    if bit != 0 {
      forall j | 0 <= j < 64 ensures Bit(w, j) == if j < 32 then Bit(low, j) else Bit(high, j - 32) {
        BitOfPair(low, high, j);
      }
      forall j | 0 <= j < 32 ensures !Bit(low, j) { BitOfZero(j); }
      return 32 + bit;
    }
    return 0;
  }

  lemma BitOfPair(low: u32, high: nat, j: nat)
    ensures Bit(low + 0x1_0000_0000 * high, j) == if j < 32 then Bit(low, j) else Bit(high, j - 32)
  {
    Pow2At32();
    var w := low + 0x1_0000_0000 * high;
    DivUnique(w, Pow2(32), high, low);
    if j < 32 { BitMod(w, 32, j); } else { BitDiv(w, high, 32, j - 32); }
  }

  function LastBitOf(w: nat): (r: nat) {
    if w == 0 then 0 else 1 + LastBitOf(w / 2)
  }

  lemma {:induction false} LastBitIsHighest(w: nat)
    requires w > 0
    ensures IsHighest(w, LastBitOf(w) - 1)
  {
    if w == 1 {
      forall j | 0 < j ensures !Bit(1, j) { BitOfZero(j - 1); }
    } else {
      LastBitIsHighest(w / 2);
      forall j | LastBitOf(w) - 1 < j ensures !Bit(w, j) { assert !Bit(w / 2, j - 1); }
    }
  }

  lemma {:induction false} LastBitBound(w: nat, n: nat)
    requires w < Pow2(n)
    ensures LastBitOf(w) <= n
  {
    if w > 0 { LastBitBound(w / 2, n - 1); }
  }

  method LastBit(u: u32) returns (r: nat)
    ensures u == 0 <==> r == 0
    ensures r <= 32
    ensures r > 0 ==> IsHighest(u, r - 1)
  {
    var v: nat := u;
    r := 0;
    while v != 0
      invariant r + LastBitOf(v) == LastBitOf(u)
    {
      r, v := r + 1, v / 2;
    }
    Pow2At32();
    LastBitBound(u, 32);
    if u > 0 { LastBitIsHighest(u); }
  }

  /** Clearing the lowest one with `n & (n - 1)` removes exactly one. */
  lemma {:induction false} ClearLowest(n: nat)
    requires n > 0
    ensures Ones(And(n, n - 1)) + 1 == Ones(n)
  {
    if n % 2 == 1 {
      if n > 1 { AndSelf(n / 2); }
    } else {
      ClearLowest(n / 2);
      assert (n - 1) / 2 == n / 2 - 1;
    }
  }

  lemma {:induction false} AndSelf(x: nat)
    ensures And(x, x) == x
  {
    if x > 0 { AndSelf(x / 2); }
  }

  method BitCount(w: u32) returns (bits: nat)
    ensures bits == Ones(w)
    ensures bits == |BitsBelow(w, 32)|
  {
    var n: nat := w;
    bits := 0;
    while n != 0
      invariant bits + Ones(n) == Ones(w)
    {
      ClearLowest(n);
      n := And(n, n - 1);
      bits := bits + 1;
    }
    Pow2At32();
    OnesIsCount(w, 32);
    CountIsCardinality(w, 32);
  }

  ghost function BitsBelow(w: nat, n: nat): (r: set<int>) {
    hide Bit;
    set k | 0 <= k < n && Bit(w, k)
  }

  /** The number of ones among the bits of `w` below `n`. */
  function CountBelow(w: nat, n: nat): (r: nat) {
    if n == 0 then 0 else CountBelow(w, n - 1) + if Bit(w, n - 1) then 1 else 0
  }

  lemma {:induction false} CountIsCardinality(w: nat, n: nat)
    ensures CountBelow(w, n) == |BitsBelow(w, n)|
  {
    hide Bit;
    if n > 0 {
      CountIsCardinality(w, n - 1);
      assert BitsBelow(w, n) == if Bit(w, n - 1) then BitsBelow(w, n - 1) + {n - 1} else BitsBelow(w, n - 1);
    }
  }

  lemma {:induction false} CountStep(w: nat, n: nat)
    ensures CountBelow(w, n + 1) == w % 2 + CountBelow(w / 2, n)
    decreases n
  {
    if n > 0 { CountStep(w, n - 1); }
  }

  lemma {:induction false} OnesIsCount(w: nat, n: nat)
    requires w < Pow2(n)
    ensures Ones(w) == CountBelow(w, n)
  {
    if n > 0 {
      OnesIsCount(w / 2, n - 1);
      CountStep(w, n - 1);
      assert Ones(w) == Ones(w / 2) + w % 2;
    }
  }

  /** The lowest maximal run of ones in `mask`, cleared from it. */
  method ScanConsecutiveRange(mask: u32) returns (start: nat, count: nat, rest: u32)
    requires mask != 0
    ensures count > 0 && start + count <= 32
    ensures forall k :: 0 <= k < start ==> !Bit(mask, k)
    ensures forall k :: start <= k < start + count ==> Bit(mask, k)
    ensures !Bit(mask, start + count)
    ensures forall k :: 0 <= k < 32 ==> (Bit(rest, k) <==> Bit(mask, k) && start + count <= k)
  {
    hide And, Bit, Pow2, Shl, FfsOf;
    Pow2At32();
    if mask == 0xFFFF_FFFF {
      forall k | 0 <= k < 32 ensures Bit(mask, k) && !Bit(0, k) { BitMask(32, k); BitOfZero(k); }
      BitAbove(mask, 32, 32);
      return 0, 32, 0;
    }
    var first := Ffs(mask);
    start := first - 1;
    var shifted := Shr(mask, start);
    var zero := Ffs(Not(shifted));
    count := zero - 1;
    forall k | 0 <= k < 32 ensures Bit(Not(shifted), k) <==> !Bit(mask, k + start) {
      BitNot(shifted, k);
      BitShr(mask, start, k);
    }
    assert Bit(Not(shifted), 0) <==> !Bit(mask, 0 + start);
    BitAbove(mask, 32, 32);
    if start > 0 { assert Bit(Not(shifted), 32 - start) <==> !Bit(mask, 32 - start + start); }
    assert !Bit(mask, count + start);
    forall k | start <= k < start + count ensures Bit(mask, k) {
      assert Bit(Not(shifted), k - start) <==> !Bit(mask, k - start + start);
    }
    var clear := Not(Shl(Pow2Mask(count), start));
    rest := And(mask, clear);
    forall k | 0 <= k < 32 ensures Bit(rest, k) <==> Bit(mask, k) && start + count <= k {
      BitAnd(mask, clear, k);
      BitNot(Shl(Pow2Mask(count), start), k);
      BitShl32(Pow2Mask(count), start, k);
      if start <= k { BitMask(count, k - start); }
    }
  }

  /** `(1u << count) - 1` */
  function Pow2Mask(count: nat): (r: u32)
    requires count < 32
    ensures r == Pow2(count) - 1
  {
    Pow2At32();
    Pow2Mono(count, 31);
    Pow2(count) - 1
  }
}
