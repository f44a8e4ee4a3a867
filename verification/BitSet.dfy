/**
 The arbitrary-size bitset of src/util/bitset.h: words of 32 bits, bit i in word i / 32.
 */
module BitSet {
  import opened Words
  import opened Limbs
  import opened BitScan

  /** Bit `i` belongs to the set that the words represent. */
  predicate Has(x: seq<u32>, i: nat) {
    i / 32 < |x| && Bit(x[i / 32], i % 32)
  }

  /** BITSET_WORDS */
  function WordsFor(bits: nat): (r: nat)
    ensures 32 * r >= bits && 32 * r < bits + 32
  {
    (bits + 31) / 32
  }

  /** The bits of the array, read as one number, are the members of the set. */
  lemma {:induction false} ValueBits(x: seq<u32>, i: nat)
    ensures Bit(Value(x), i) <==> Has(x, i)
  {
    if x == [] {
      BitOfZero(i);
    } else {
      BitOfPair(x[0], Value(x[1..]), i);
      if i >= 32 {
        ValueBits(x[1..], i - 32);
        assert (i - 32) / 32 == i / 32 - 1 && (i - 32) % 32 == i % 32;
      }
    }
  }

  lemma ValueFits(x: seq<u32>)
    ensures Value(x) < Pow2(32 * |x|)
  {
    ValueBound(x);
    WeightIsPow2(|x|);
  }

  // ---------------------------------------------------------------- shifts

  /** One word of `__bitset_rotate_left`: `low` supplies the bits shifted in. */
  function JoinLeft(word: u32, low: u32, a: nat): (r: u32)
    requires 0 < a < 32
  {
    Or32(Words.Shl(word, a), Words.Shr(low, 32 - a))
  }

  lemma JoinLeftBit(word: u32, low: u32, a: nat, b: nat)
    requires 0 < a < 32 && b < 32
    ensures Bit(JoinLeft(word, low, a), b) <==> if b >= a then Bit(word, b - a) else Bit(low, b + 32 - a)
  {
    BitOr(Words.Shl(word, a), Words.Shr(low, 32 - a), b);
    BitShl32(word, a, b);
    BitShr(low, 32 - a, b);
    if b >= a { Pow2At32(); BitAbove(low, 32, b + 32 - a); }
  }

  /** One word of `__bitset_rotate_right`: `high` supplies the bits shifted in. */
  function JoinRight(word: u32, high: u32, a: nat): (r: u32)
    requires 0 < a < 32
  {
    Or32(Words.Shr(word, a), Words.Shl(high, 32 - a))
  }

  lemma JoinRightBit(word: u32, high: u32, a: nat, b: nat)
    requires 0 < a < 32 && b < 32
    ensures Bit(JoinRight(word, high, a), b) <==> if b + a < 32 then Bit(word, b + a) else Bit(high, b + a - 32)
  {
    BitOr(Words.Shr(word, a), Words.Shl(high, 32 - a), b);
    BitShr(word, a, b);
    BitShl32(high, 32 - a, b);
    if b + a >= 32 { Pow2At32(); BitAbove(word, 32, b + a); }
  }

  /** `y` is `x` with every member moved up by `k`, cut at the size of the array. */
  ghost predicate MovedUp(x: seq<u32>, y: seq<u32>, k: nat) {
    && |y| == |x|
    && forall i: nat :: i < 32 * |x| ==> (Has(y, i) <==> i >= k && Has(x, i - k))
  }

  /** `y` is `x` with every member moved down by `k`, those below `k` dropped. */
  ghost predicate MovedDown(x: seq<u32>, y: seq<u32>, k: nat) {
    && |y| == |x|
    && forall i: nat :: i < 32 * |x| ==> (Has(y, i) <==> Has(x, i + k))
  }

  lemma NotMoved(x: seq<u32>)
    ensures MovedUp(x, x, 0) && MovedDown(x, x, 0)
  {
  }

  lemma MovedUpValue(x: seq<u32>, y: seq<u32>, k: nat)
    requires MovedUp(x, y, k)
    ensures Value(y) == (Value(x) * Pow2(k)) % Pow2(32 * |x|)
  {
    hide Value, Pow2, Bit;
    var n := 32 * |x|;
    var shifted := Value(x) * Pow2(k);
    var _, r := DivRem(shifted, Pow2(n));
    ValueFits(y);
    forall i | 0 <= i < n ensures Bit(Value(y), i) == Bit(r, i) {
      ValueBits(y, i);
      BitMod(shifted, n, i);
      BitShl(Value(x), k, i);
      if i >= k { ValueBits(x, i - k); }
    }
    BitExtensional(Value(y), r, n);
  }

  lemma MovedDownValue(x: seq<u32>, y: seq<u32>, k: nat)
    requires MovedDown(x, y, k)
    ensures Value(y) == Value(x) / Pow2(k)
  {
    hide Value, Pow2, Bit, Has;
    var n := 32 * |x|;
    var q, _ := DivRem(Value(x), Pow2(k));
    ValueFits(x);
    ValueFits(y);
    forall i | 0 <= i < n ensures Bit(Value(y), i) == Bit(q, i) {
      ValueBits(y, i);
      BitDiv(Value(x), q, k, i);
      ValueBits(x, i + k);
    }
    BitExtensional(Value(y), q, n);
  }

  method RotateRight(x: array<u32>, amount: nat)
    requires amount < 32 && (amount > 0 ==> x.Length > 0)
    modifies x
    ensures MovedDown(old(x[..]), x[..], amount)
  {
    if amount == 0 { return; }
    var n := x.Length;
    ghost var was := x[..];
    for i := 0 to n - 1
      invariant x[i..] == was[i..]
      invariant forall k :: 0 <= k < i ==> x[k] == JoinRight(was[k], was[k + 1], amount)
    {
      assert x[i] == x[i..][0] == was[i] && x[i + 1] == x[i..][1] == was[i + 1];
      x[i] := JoinRight(x[i], x[i + 1], amount);
      assert x[i + 1..] == was[i..][1..];
    }
    assert x[n - 1] == x[n - 1..][0] == was[n - 1];
    x[n - 1] := Words.Shr(x[n - 1], amount);
    WordsMovedDown(was, x[..], amount);
  }

  lemma WordsMovedDown(was: seq<u32>, now: seq<u32>, a: nat)
    requires 0 < a < 32 && |now| == |was| > 0
    requires forall k :: 0 <= k < |was| - 1 ==> now[k] == JoinRight(was[k], was[k + 1], a)
    requires now[|was| - 1] == Words.Shr(was[|was| - 1], a)
    ensures MovedDown(was, now, a)
  {
    forall i: nat | i < 32 * |was| ensures Has(now, i) <==> Has(was, i + a) {
      var k, b := i / 32, i % 32;
      assert i == 32 * k + b;
      if b + a < 32 {
        assert (i + a) / 32 == k && (i + a) % 32 == b + a;
      } else {
        assert (i + a) / 32 == k + 1 && (i + a) % 32 == b + a - 32;
      }
      if k < |was| - 1 {
        JoinRightBit(was[k], was[k + 1], a, b);
      } else {
        BitShr(was[k], a, b);
        if b + a >= 32 { Pow2At32(); BitAbove(was[k], 32, b + a); }
      }
    }
  }

  method RotateLeft(x: array<u32>, amount: nat)
    requires amount < 32 && (amount > 0 ==> x.Length > 0)
    modifies x
    ensures MovedUp(old(x[..]), x[..], amount)
  {
    if amount == 0 { return; }
    var n := x.Length;
    ghost var was := x[..];
    for i := n downto 1
      invariant x[..i] == was[..i]
      invariant forall k :: i <= k < n ==> x[k] == JoinLeft(was[k], was[k - 1], amount)
    {
      assert x[i] == was[i] && x[i - 1] == x[..i][i - 1] == was[i - 1];
      x[i] := JoinLeft(x[i], x[i - 1], amount);
      assert x[..i] == was[..i];
    }
    assert x[0] == x[..1][0] == was[0];
    x[0] := Words.Shl(x[0], amount);
    WordsMovedUp(was, x[..], amount);
  }

  lemma WordsMovedUp(was: seq<u32>, now: seq<u32>, a: nat)
    requires 0 < a < 32 && |now| == |was| > 0
    requires forall k :: 1 <= k < |was| ==> now[k] == JoinLeft(was[k], was[k - 1], a)
    requires now[0] == Words.Shl(was[0], a)
    ensures MovedUp(was, now, a)
  {
    forall i: nat | i < 32 * |was| ensures Has(now, i) <==> i >= a && Has(was, i - a) {
      var k, b := i / 32, i % 32;
      assert i == 32 * k + b;
      if b >= a {
        assert (i - a) / 32 == k && (i - a) % 32 == b - a;
      } else if k > 0 {
        assert (i - a) / 32 == k - 1 && (i - a) % 32 == b + 32 - a;
      }
      if k > 0 { JoinLeftBit(was[k], was[k - 1], a, b); } else { BitShl32(was[0], a, b); }
    }
  }

  /** The word-moving part of `__bitset_shr`. */
  method DropWords(x: array<u32>, words: nat)
    requires words <= x.Length
    modifies x
    ensures MovedDown(old(x[..]), x[..], 32 * words)
  {
    var n := x.Length;
    ghost var was := x[..];
    var i := 0;
    while i < n - words
      invariant i <= n - words
      invariant x[i..] == was[i..]
      invariant forall k :: 0 <= k < i ==> x[k] == was[k + words]
    {
      assert x[i + words] == x[i..][words] == was[i + words];
      x[i] := x[i + words];
      assert x[i + 1..] == was[i..][1..];
      i := i + 1;
    }
    while i < n
      invariant n - words <= i <= n
      invariant forall k :: 0 <= k < n - words ==> x[k] == was[k + words]
      invariant forall k :: n - words <= k < i ==> x[k] == 0
    {
      x[i] := 0;
      i := i + 1;
    }
    WordsDropped(was, x[..], words);
  }

  lemma WordsDropped(was: seq<u32>, now: seq<u32>, words: nat)
    requires |now| == |was| >= words
    requires forall k :: 0 <= k < |was| - words ==> now[k] == was[k + words]
    requires forall k :: |was| - words <= k < |was| ==> now[k] == 0
    ensures MovedDown(was, now, 32 * words)
  {
    forall i: nat | i < 32 * |was| ensures Has(now, i) <==> Has(was, i + 32 * words) {
      assert (i + 32 * words) / 32 == i / 32 + words && (i + 32 * words) % 32 == i % 32;
      BitOfZero(i % 32);
    }
  }

  /** `__bitset_shr`; the loop bound `n - words` of the original needs words <= n. */
  method ShiftRight(x: array<u32>, amount: nat)
    requires amount / 32 <= x.Length && (amount == 0 || x.Length > 0)
    modifies x
    ensures MovedDown(old(x[..]), x[..], amount)
  {
    hide *;
    var words := amount / 32;
    ghost var was := x[..];
    NotMoved(was);
    var rest := amount;
    if amount != 0 {
      if words != 0 {
        DropWords(x, words);
        rest := amount % 32;
      }
      ghost var mid := x[..];
      RotateRight(x, rest);
      ComposeDown(was, mid, x[..], words, rest);
    }
  }

  lemma ComposeDown(was: seq<u32>, mid: seq<u32>, now: seq<u32>, words: nat, a: nat)
    requires MovedDown(was, mid, 32 * words) && MovedDown(mid, now, a)
    ensures MovedDown(was, now, 32 * words + a)
  {
    forall i: nat | i < 32 * |was| ensures Has(now, i) <==> Has(was, i + (32 * words + a)) {
      assert i + a + 32 * words == i + (32 * words + a);
      if i + a < 32 * |was| { assert Has(mid, i + a) <==> Has(was, i + a + 32 * words); }
    }
  }

  /** The word-moving part of `__bitset_shl`. */
  method RaiseWords(x: array<u32>, words: nat)
    modifies x
    ensures MovedUp(old(x[..]), x[..], 32 * words)
  {
    var n := x.Length;
    ghost var was := x[..];
    var i := n - 1;
    while i >= words
      invariant -1 <= i <= n - 1 && (i >= words - 1 || i == n - 1)
      invariant x[..i + 1] == was[..i + 1]
      invariant forall k :: i < k < n ==> x[k] == was[k - words]
    {
      assert x[i - words] == x[..i + 1][i - words] == was[i - words];
      x[i] := x[i - words];
      assert x[..i] == was[..i + 1][..i];
      i := i - 1;
    }
    while i >= 0
      invariant -1 <= i < n && i < words
      invariant forall k :: words <= k < n ==> x[k] == was[k - words]
      invariant forall k :: i < k < n && k < words ==> x[k] == 0
    {
      x[i] := 0;
      i := i - 1;
    }
    WordsRaised(was, x[..], words);
  }

  lemma WordsRaised(was: seq<u32>, now: seq<u32>, words: nat)
    requires |now| == |was|
    requires forall k :: words <= k < |was| ==> now[k] == was[k - words]
    requires forall k :: 0 <= k < |was| && k < words ==> now[k] == 0
    ensures MovedUp(was, now, 32 * words)
  {
    forall i: nat | i < 32 * |was| ensures Has(now, i) <==> i >= 32 * words && Has(was, i - 32 * words) {
      if i >= 32 * words {
        assert (i - 32 * words) / 32 == i / 32 - words && (i - 32 * words) % 32 == i % 32;
      } else {
        BitOfZero(i % 32);
      }
    }
  }

  /** `__bitset_shl`, for any amount. */
  method ShiftLeft(x: array<u32>, amount: nat)
    requires amount > 0 ==> x.Length > 0
    modifies x
    ensures MovedUp(old(x[..]), x[..], amount)
  {
    hide *;
    var words := amount / 32;
    ghost var was := x[..];
    NotMoved(was);
    var rest := amount;
    if amount != 0 {
      if words != 0 {
        RaiseWords(x, words);
        rest := amount % 32;
      }
      ghost var mid := x[..];
      RotateLeft(x, rest);
      ComposeUp(was, mid, x[..], words, rest);
    }
  }

  lemma ComposeUp(was: seq<u32>, mid: seq<u32>, now: seq<u32>, words: nat, a: nat)
    requires MovedUp(was, mid, 32 * words) && MovedUp(mid, now, a)
    ensures MovedUp(was, now, 32 * words + a)
  {
    forall i: nat | i < 32 * |was| ensures Has(now, i) <==> i >= 32 * words + a && Has(was, i - (32 * words + a)) {
      if i >= a {
        assert Has(mid, i - a) <==> i - a >= 32 * words && Has(was, i - a - 32 * words);
        assert i - a - 32 * words == i - (32 * words + a);
      }
    }
  }

  /** Shifting up and back down keeps exactly the low 32n - k bits. */
  lemma UpThenDown(x: seq<u32>, up: seq<u32>, back: seq<u32>, k: nat)
    requires MovedUp(x, up, k) && MovedDown(up, back, k) && k <= 32 * |x|
    ensures Value(back) == Value(x) % Pow2(32 * |x| - k)
  {
    hide Value, Pow2, Bit, Has, MovedUp, MovedDown;
    var n := 32 * |x|;
    var _, r := DivRem(Value(x), Pow2(n - k));
    SameSize(x, up, back, k);
    ValueFits(back);
    Pow2Mono(n - k, n);
    forall i | 0 <= i < n ensures Bit(Value(back), i) == Bit(r, i) {
      ValueBits(back, i);
      BitMod(Value(x), n - k, i);
      ValueBits(x, i);
      UpThenDownHas(x, up, back, k, i);
    }
    BitExtensional(Value(back), r, n);
  }

  lemma SameSize(x: seq<u32>, up: seq<u32>, back: seq<u32>, k: nat)
    requires MovedUp(x, up, k) && MovedDown(up, back, k)
    ensures |back| == |up| == |x|
  {
  }

  lemma UpThenDownHas(x: seq<u32>, up: seq<u32>, back: seq<u32>, k: nat, i: nat)
    requires MovedUp(x, up, k) && MovedDown(up, back, k) && i < 32 * |x|
    ensures Has(back, i) <==> i + k < 32 * |x| && Has(x, i)
  {
    assert Has(back, i) <==> Has(up, i + k);
    if i + k < 32 * |x| { assert Has(up, i + k) <==> i + k >= k && Has(x, i + k - k); } else { assert !Has(up, i + k); }
  }
}
