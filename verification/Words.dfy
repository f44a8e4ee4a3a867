/**
 Machine words as natural numbers.  A word is a number below 2^32; shifts, masks and
 complements are the arithmetic that C performs on `unsigned`, and `Bit` reads one binary
 digit.  Every bitwise operation is related to its bits by one lemma, so that later proofs
 can move freely between the arithmetic and the set-of-bits view of a word.
 */
module Words {

  datatype Option<+T> = None | Some(value: T)

  type u32 = x: int | 0 <= x < 0x1_0000_0000

  function Pow2(n: nat): (r: nat)
    ensures r > 0
  {
    if n == 0 then 1 else 2 * Pow2(n - 1)
  }

  predicate Bit(w: nat, i: nat)
  {
    if i == 0 then w % 2 == 1 else Bit(w / 2, i - 1)
  }

  /** `x & y` */
  function And(x: nat, y: nat): (r: nat)
    ensures r <= x && r <= y
  {
    if x == 0 || y == 0 then 0
    else 2 * And(x / 2, y / 2) + (if x % 2 == 1 && y % 2 == 1 then 1 else 0)
  }

  /** `x | y` */
  function Or(x: nat, y: nat): (r: nat)
    ensures r >= x && r >= y
    decreases x + y
  {
    if x == 0 then y else if y == 0 then x
    else 2 * Or(x / 2, y / 2) + (if x % 2 == 1 || y % 2 == 1 then 1 else 0)
  }

  /** `x ^ y` */
  function Xor(x: nat, y: nat): (r: nat)
    decreases x + y
  {
    if x == 0 then y else if y == 0 then x else 2 * Xor(x / 2, y / 2) + (x % 2 + y % 2) % 2
  }

  /** `~w` on 32 bits */
  function Not(w: u32): (r: u32) {
    0xFFFF_FFFF - w
  }

  /** `w << k` on 32 bits */
  function Shl(w: u32, k: nat): (r: u32)
  {
    (w * Pow2(k)) % 0x1_0000_0000
  }

  /** `w >> k` */
  function Shr(w: u32, k: nat): (r: u32)
    ensures r <= w
  {
    ShrLe(w, Pow2(k));
    w / Pow2(k)
  }

  lemma ShrLe(w: nat, d: nat)
    requires d > 0
    ensures 0 <= w / d <= w
  {
    var q, r := DivRem(w, d);
  }

  /** Quotient and remainder, with the facts that later proofs need and no division in sight. */
  lemma DivRem(w: nat, d: nat) returns (q: nat, r: nat)
    requires d > 0
    ensures q == w / d && r == w % d
    ensures w == d * q + r && r < d && q <= w
  {
    r := w % d;
    var k := w / d;
    assert w == d * k + r;
    MulAtLeast(d, k);
    q := k;
    MulAtLeast(q, d);
  }

  lemma MulAtLeast(d: nat, k: int)
    ensures k >= 1 ==> d * k >= d
    ensures k <= -1 ==> d * k + d <= 0
  {
  }

  lemma {:induction false} Pow2Add(a: nat, b: nat)
    ensures Pow2(a + b) == Pow2(a) * Pow2(b)
  {
    if a > 0 {
      Pow2Add(a - 1, b);
      assert Pow2(a + b) == 2 * Pow2(a - 1 + b);
      assert 2 * (Pow2(a - 1) * Pow2(b)) == Pow2(a) * Pow2(b);
    }
  }

  lemma {:induction false} Pow2Mono(a: nat, b: nat)
    requires a <= b
    ensures Pow2(a) <= Pow2(b)
    decreases b
  {
    if a < b { Pow2Mono(a, b - 1); }
  }

  lemma Pow2At32()
    ensures Pow2(32) == 0x1_0000_0000
    ensures Pow2(5) == 32 && Pow2(31) * 2 == 0x1_0000_0000
  {
    assert Pow2(4) == 16;
    assert Pow2(8) == 256 by { Pow2Add(4, 4); }
    assert Pow2(16) == 65536 by { Pow2Add(8, 8); }
    assert Pow2(32) == 0x1_0000_0000 by { Pow2Add(16, 16); }
  }

  lemma {:induction false} BitOfZero(i: nat)
    ensures !Bit(0, i)
  {
    if i > 0 { BitOfZero(i - 1); }
  }

  lemma {:induction false} BitAnd(x: nat, y: nat, i: nat)
    ensures Bit(And(x, y), i) <==> Bit(x, i) && Bit(y, i)
    decreases i
  {
    if x == 0 || y == 0 {
      BitOfZero(i);
    } else if i > 0 {
      BitAnd(x / 2, y / 2, i - 1);
      assert And(x, y) / 2 == And(x / 2, y / 2);
    }
  }

  lemma {:induction false} BitOr(x: nat, y: nat, i: nat)
    ensures Bit(Or(x, y), i) <==> Bit(x, i) || Bit(y, i)
    decreases i
  {
    if x == 0 || y == 0 {
      BitOfZero(i);
    } else if i > 0 {
      BitOr(x / 2, y / 2, i - 1);
      assert Or(x, y) / 2 == Or(x / 2, y / 2);
    }
  }

  /** Complement below 2^n flips every bit below n. */
  lemma {:induction false} BitComplement(w: nat, n: nat, i: nat)
    requires w < Pow2(n) && i < n
    ensures Bit(Pow2(n) - 1 - w, i) <==> !Bit(w, i)
    decreases i
  {
    var c := Pow2(n) - 1 - w;
    assert Pow2(n) == 2 * Pow2(n - 1);
    if i > 0 {
      assert c / 2 == Pow2(n - 1) - 1 - w / 2;
      BitComplement(w / 2, n - 1, i - 1);
    }
  }

  lemma BitNot(w: u32, i: nat)
    requires i < 32
    ensures Bit(Not(w), i) <==> !Bit(w, i)
  {
    Pow2At32();
    BitComplement(w, 32, i);
  }

  lemma DivDiv(w: nat, a: nat, b: nat)
    requires a > 0 && b > 0
    ensures a * b > 0 && w / a / b == w / (a * b)
  {
    var q, r := DivRem(w, a);
    var q2, r2 := DivRem(q, b);
    MulAtLeast(a, b);
    DivDivFacts(w, a, b, q, r, q2, r2);
    DivUnique(w, a * b, q2, a * r2 + r);
  }

  lemma DivDivFacts(w: nat, a: nat, b: nat, q: nat, r: nat, q2: nat, r2: nat)
    requires a > 0 && b > 0 && r < a && r2 < b
    requires w == a * q + r && q == b * q2 + r2
    ensures w == (a * b) * q2 + (a * r2 + r)
    ensures 0 <= a * r2 + r < a * b
  {
    assert a * q == a * (b * q2) + a * r2;
    assert a * (b * q2) == (a * b) * q2;
    MulAtLeast(a, b - r2);
    assert a * (b - r2) == a * b - a * r2;
  }

  lemma DivUnique(w: int, d: nat, q: int, r: int)
    requires d > 0 && 0 <= r < d && w == d * q + r
    ensures w / d == q && w % d == r
  {
    var k, rest := w / d, w % d;
    assert w == d * k + rest;
    assert d * (k - q) == d * k - d * q;
    MulAtLeast(d, k - q);
  }

  /** A number determines its lowest digit and the rest. */
  lemma SameDigits(w: nat, x: nat, high: nat, y: nat, high': nat)
    requires x < w && y < w && x + w * high == y + w * high'
    ensures x == y && high == high'
  {
    DivUnique(x + w * high, w, high, x);
    DivUnique(y + w * high', w, high', y);
  }

  lemma {:induction false} BitDiv(w: nat, q: nat, k: nat, i: nat)
    requires q == w / Pow2(k)
    ensures Bit(q, i) <==> Bit(w, i + k)
    decreases k
  {
    if k == 0 {
      assert w / 1 == w;
    } else {
      var h, _ := DivRem(w / 2, Pow2(k - 1));
      assert h == q by { DivDiv(w, 2, Pow2(k - 1)); }
      BitDiv(w / 2, h, k - 1, i);
    }
  }

  lemma BitShr(w: u32, k: nat, i: nat)
    ensures Bit(Shr(w, k), i) <==> Bit(w, i + k)
  {
    BitDiv(w, Shr(w, k), k, i);
  }

  lemma {:induction false} BitShl(w: nat, k: nat, i: nat)
    ensures Bit(w * Pow2(k), i) <==> i >= k && Bit(w, i - k)
    decreases k
  {
    if k > 0 {
      var h := w * Pow2(k - 1);
      assert w * Pow2(k) == 2 * h;
      if i > 0 {
        assert (2 * h) / 2 == h;
        BitShl(w, k - 1, i - 1);
      }
    }
  }

  lemma {:induction false} BitMod(w: nat, n: nat, i: nat)
    ensures Bit(w % Pow2(n), i) <==> i < n && Bit(w, i)
    decreases n
  {
    if n == 0 {
      assert w % 1 == 0;
      BitOfZero(i);
    } else {
      var p := Pow2(n - 1);
      var q, r := DivRem(w / 2, p);
      assert w == Pow2(n) * q + (2 * r + w % 2) by {
        assert 2 * (p * q + r) == (2 * p) * q + 2 * r;
      }
      DivUnique(w, Pow2(n), q, 2 * r + w % 2);
      if i > 0 { BitMod(w / 2, n - 1, i - 1); }
    }
  }

  lemma BitAbove(w: nat, n: nat, i: nat)
    requires w < Pow2(n) && n <= i
    ensures !Bit(w, i)
  {
    DivUnique(w, Pow2(n), 0, w);
    BitMod(w, n, i);
  }

  lemma BitShl32(w: u32, k: nat, i: nat)
    ensures Bit(Shl(w, k), i) <==> k <= i < 32 && Bit(w, i - k)
  {
    Pow2At32();
    BitMod(w * Pow2(k), 32, i);
    BitShl(w, k, i);
  }

  lemma BitPow2(k: nat, i: nat)
    ensures Bit(Pow2(k), i) <==> i == k
  {
    BitShl(1, k, i);
    assert 1 * Pow2(k) == Pow2(k);
    if i > k { BitOfZero(i - k - 1); }
  }

  lemma BitMask(k: nat, i: nat)
    ensures Bit(Pow2(k) - 1, i) <==> i < k
  {
    if i < k {
      BitComplement(0, k, i);
      BitOfZero(i);
    } else {
      BitAbove(Pow2(k) - 1, k, i);
    }
  }

  /** Two numbers below 2^n with the same bits below n are equal. */
  lemma {:induction false} BitExtensional(x: nat, y: nat, n: nat)
    requires x < Pow2(n) && y < Pow2(n)
    requires forall i :: 0 <= i < n ==> Bit(x, i) == Bit(y, i)
    ensures x == y
  {
    if n > 0 {
      assert Bit(x, 0) == Bit(y, 0);
      forall i | 0 <= i < n - 1 ensures Bit(x / 2, i) == Bit(y / 2, i) {
        assert Bit(x, i + 1) == Bit(y, i + 1);
      }
      BitExtensional(x / 2, y / 2, n - 1);
    }
  }

  /** `|` stays inside any width that both operands fit in. */
  lemma {:induction false} OrBound(x: nat, y: nat, n: nat)
    requires x < Pow2(n) && y < Pow2(n)
    ensures Or(x, y) < Pow2(n)
  {
    if n > 0 && x > 0 && y > 0 { OrBound(x / 2, y / 2, n - 1); }
  }

  function Or32(x: u32, y: u32): (r: u32)
    ensures r >= x && r >= y
  {
    Pow2At32();
    OrBound(x, y, 32);
    Or(x, y)
  }

  lemma {:induction false} SomeBit(m: nat) returns (b: nat)
    requires m > 0
    ensures Bit(m, b)
  {
    if m % 2 == 1 {
      b := 0;
    } else {
      b := SomeBit(m / 2);
      b := b + 1;
    }
  }
}

/** Small algebraic facts about products, stated on arbitrary integers. */
module Products {

  lemma MulAdd(w: int, x: int, y: int)
    ensures w * (x + y) == w * x + w * y
  {
  }

  lemma MulAssoc(x: int, y: int, z: int)
    ensures x * (y * z) == (x * y) * z
  {
  }

  lemma MulMono(w: int, x: int, y: int)
    requires 0 <= w && x <= y
    ensures w * x <= w * y
  {
  }

  lemma MulBothMono(x: int, y: int, u: int, v: int)
    requires 0 <= u <= x && 0 <= v <= y
    ensures 0 <= u * v <= x * y
  {
    MulMono(x, v, y);
    MulMono(v, u, x);
  }

  /** A product of naturals is positive iff both factors are, and then at least each of them. */
  lemma MulPositive(x: nat, y: nat)
    ensures x > 0 && y > 0 ==> x * y >= x && x * y >= y
    ensures x == 0 || y == 0 ==> x * y == 0
  {
  }
}

/** Little-endian numbers made of 32-bit limbs. */
module Limbs {
  import opened Words
  import opened Products

  function Weight(n: nat): (r: nat)
    ensures r > 0
  {
    if n == 0 then 1 else 0x1_0000_0000 * Weight(n - 1)
  }

  function Value(s: seq<u32>): (r: nat)
  {
    if s == [] then 0 else s[0] + 0x1_0000_0000 * Value(s[1..])
  }

  lemma {:induction false} ValueBound(s: seq<u32>)
    ensures Value(s) < Weight(|s|)
  {
    if s != [] { ValueBound(s[1..]); }
  }

  lemma {:induction false} WeightAdd(a: nat, b: nat)
    ensures Weight(a + b) == Weight(a) * Weight(b)
  {
    if a > 0 {
      WeightAdd(a - 1, b);
      MulAssoc(0x1_0000_0000, Weight(a - 1), Weight(b));
    }
  }

  lemma {:induction false} WeightIsPow2(n: nat)
    ensures Weight(n) == Pow2(32 * n)
  {
    if n > 0 {
      WeightIsPow2(n - 1);
      Pow2At32();
      Pow2Add(32, 32 * (n - 1));
    }
  }

  lemma {:induction false} ValueSplit(s: seq<u32>, k: nat)
    requires k <= |s|
    ensures Value(s) == Value(s[..k]) + Weight(k) * Value(s[k..])
  {
    if k == 0 {
      assert s[..0] == [] && s[0..] == s;
    } else {
      ValueSplit(s[1..], k - 1);
      assert s[..k][1..] == s[1..][..k - 1];
      assert s[1..][k - 1..] == s[k..];
      SplitAlgebra(0x1_0000_0000, Weight(k - 1), Weight(k), Value(s[1..][..k - 1]), Value(s[k..]), Value(s[1..]));
    }
  }

  lemma SplitAlgebra(base: int, w: int, w1: int, low: int, high: int, v: int)
    requires w1 == base * w && v == low + w * high
    ensures base * v == base * low + w1 * high
  {
    MulAdd(base, low, w * high);
    MulAssoc(base, w, high);
  }

  lemma ValueAppend(s: seq<u32>, x: u32)
    ensures Value(s + [x]) == Value(s) + Weight(|s|) * x
  {
    ValueSplit(s + [x], |s|);
    assert (s + [x])[..|s|] == s && (s + [x])[|s|..] == [x];
    assert Value([x]) == x by { assert [x][1..] == []; }
  }

  lemma ValueUpdate(s: seq<u32>, k: nat, x: u32)
    requires k < |s|
    ensures Value(s[k := x]) == Value(s) + Weight(k) * x - Weight(k) * s[k]
  {
    var t := s[k := x];
    ValueSplit(s, k);
    ValueSplit(t, k);
    assert t[..k] == s[..k];
    assert s[k..][1..] == s[k + 1..] && t[k..][1..] == s[k + 1..];
    var rest := 0x1_0000_0000 * Value(s[k + 1..]);
    MulAdd(Weight(k), s[k], rest);
    MulAdd(Weight(k), x, rest);
  }

  lemma {:induction false} ValueZeros(s: seq<u32>)
    requires forall i :: 0 <= i < |s| ==> s[i] == 0
    ensures Value(s) == 0
  {
    if s != [] { ValueZeros(s[1..]); }
  }
}
