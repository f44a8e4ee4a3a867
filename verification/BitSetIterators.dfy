/**
 The two stateful iterators of src/util/bitset.h.  BITSET_FOREACH_SET visits members one by
 one, BITSET_FOREACH_RANGE visits maximal runs of members; both look at the first `size` bits.
 */
module BitSetIterators {
  import opened Words
  import opened BitScan
  import opened BitSet

  /** No member lies in [from, to). */
  ghost predicate NoneIn(set_: seq<u32>, from: nat, to: nat) {
    forall i: nat :: from <= i < to ==> !Has(set_, i)
  }

  ghost predicate AllIn(set_: seq<u32>, from: nat, to: nat) {
    forall i: nat :: from <= i < to ==> Has(set_, i)
  }

  /** `tmp` holds the members of word `word` that are at or after `from`. */
  ghost predicate Pending(set_: seq<u32>, word: nat, tmp: u32, from: nat) {
    && word < |set_| && 32 * word <= from <= 32 * word + 32
    && forall b: nat :: b < 32 ==> (Bit(tmp, b) <==> Bit(set_[word], b) && 32 * word + b >= from)
  }

  lemma WordDone(set_: seq<u32>, word: nat, from: nat)
    requires Pending(set_, word, 0, from)
    ensures NoneIn(set_, from, 32 * word + 32)
  {
    forall i: nat | from <= i < 32 * word + 32 ensures !Has(set_, i) {
      assert i / 32 == word && i % 32 == i - 32 * word;
      BitOfZero(i % 32);
    }
  }

  /** A fresh word is pending from its first bit. */
  lemma FreshWord(set_: seq<u32>, word: nat)
    requires word < |set_|
    ensures Pending(set_, word, set_[word], 32 * word)
  {
  }

  /**
   `__bitset_next_set`.  `from` is the ghost frontier: everything below it was visited.  A result
   below `size` is the first member from there on; otherwise there is none below `size`.
   */
  method NextSet(i: nat, tmp: u32, set_: seq<u32>, size: nat, ghost from: nat) returns (r: nat, tmp': u32)
    requires |set_| >= WordsFor(size)
    requires if size == 0 then tmp == 0 else i / 32 < WordsFor(size) && Pending(set_, i / 32, tmp, from)
    ensures r < size ==> r >= from && Has(set_, r) && NoneIn(set_, from, r) && Pending(set_, r / 32, tmp', r + 1)
    ensures r >= size ==> NoneIn(set_, from, size)
  {
    var word := i / 32;
    tmp' := tmp;
    ghost var at: nat := from;
    while tmp' == 0
      invariant size == 0 ==> tmp' == 0
      invariant size > 0 ==> word < WordsFor(size) && Pending(set_, word, tmp', at)
      invariant from <= at && NoneIn(set_, from, at)
      decreases WordsFor(size) - word
    {
      word := word + 1;
      if size > 0 { WordDone(set_, word - 1, at); }
      if word >= WordsFor(size) {
        return size, tmp';
      }
      tmp' := set_[word];
      at := 32 * word;
      FreshWord(set_, word);
    }
    var first := Ffs(tmp');
    var bit := first - 1;
    r := word * 32 + bit;
    assert r / 32 == word && r % 32 == bit;
    TakeLowest(set_, word, tmp', at, bit);
    tmp' := And(tmp', Not(Pow2Bit(bit)));
  }

  /** `1u << bit` */
  function Pow2Bit(bit: nat): (r: u32)
    requires bit < 32
    ensures r == Pow2(bit)
  {
    Pow2At32();
    Pow2Mono(bit, 31);
    Pow2(bit)
  }

  lemma TakeLowest(set_: seq<u32>, word: nat, tmp: u32, at: nat, bit: nat)
    requires Pending(set_, word, tmp, at) && bit < 32 && IsLowest(tmp, bit)
    ensures Pending(set_, word, And(tmp, Not(Pow2Bit(bit))), 32 * word + bit + 1)
    ensures at <= 32 * word + bit && Bit(set_[word], bit)
    ensures NoneIn(set_, at, 32 * word + bit)
  {
    var rest := And(tmp, Not(Pow2Bit(bit)));
    forall b: nat | b < 32 ensures Bit(rest, b) <==> Bit(set_[word], b) && 32 * word + b >= 32 * word + bit + 1 {
      BitAnd(tmp, Not(Pow2Bit(bit)), b);
      BitNot(Pow2Bit(bit), b);
      BitPow2(bit, b);
    }
    forall i: nat | at <= i < 32 * word + bit ensures !Has(set_, i) {
      assert i / 32 == word && i % 32 == i - 32 * word;
      assert !Bit(tmp, i % 32);
    }
  }

  /** BITSET_FOREACH_SET: exactly the members below size, once each, in increasing order. */
  method ForeachSet(set_: seq<u32>, size: nat) returns (visited: seq<nat>)
    requires |set_| >= WordsFor(size)
    ensures forall i: nat :: i in visited <==> i < size && Has(set_, i)
    ensures forall a, b :: 0 <= a < b < |visited| ==> visited[a] < visited[b]
  {
    var tmp: u32 := if size == 0 then 0 else set_[0];
    if size > 0 { FreshWord(set_, 0); }
    visited := [];
    ghost var from: nat := 0;
    var i: nat;
    i, tmp := NextSet(0, tmp, set_, size, from);
    while i < size
      invariant i < size ==> i >= from && i / 32 < WordsFor(size) && Has(set_, i) && Pending(set_, i / 32, tmp, i + 1)
      invariant NoneIn(set_, from, if i < size then i else size)
      invariant from <= size && forall a :: 0 <= a < |visited| ==> visited[a] < from
      invariant forall k: nat :: k in visited <==> k < from && Has(set_, k)
      invariant forall a, b :: 0 <= a < b < |visited| ==> visited[a] < visited[b]
      decreases size - from
    {
      visited := visited + [i];
      from := i + 1;
      i, tmp := NextSet(i, tmp, set_, size, from);
    }
  }

  /** The first member at or after `end`, found word by word. */
  method FindStart(end: nat, set_: seq<u32>, size: nat) returns (start: nat, found: bool)
    requires |set_| >= WordsFor(size) && end <= size
    ensures found ==> end <= start < 32 * WordsFor(size) && Has(set_, start) && NoneIn(set_, end, start)
    ensures !found ==> start == size && NoneIn(set_, end, size)
  {
    var word := end / 32;
    if word >= WordsFor(size) { return size, false; }
    var tmp: u32 := And(set_[word], Not(Pow2Mask(end % 32)));
    ghost var at: nat := end;
    MaskedFrom(set_, end);
    while tmp == 0
      invariant word < WordsFor(size) && Pending(set_, word, tmp, at)
      invariant end <= at && NoneIn(set_, end, at)
      decreases WordsFor(size) - word
    {
      WordDone(set_, word, at);
      word := word + 1;
      if word >= WordsFor(size) { return size, false; }
      tmp := set_[word];
      at := 32 * word;
      FreshWord(set_, word);
    }
    var first := Ffs(tmp);
    TakeLowest(set_, word, tmp, at, first - 1);
    start := word * 32 + first - 1;
    assert start / 32 == word && start % 32 == first - 1;
    found := true;
  }

  lemma MaskedFrom(set_: seq<u32>, end: nat)
    requires end / 32 < |set_|
    ensures Pending(set_, end / 32, And(set_[end / 32], Not(Pow2Mask(end % 32))), end)
  {
    forall b: nat | b < 32
      ensures Bit(And(set_[end / 32], Not(Pow2Mask(end % 32))), b) <==>
                Bit(set_[end / 32], b) && 32 * (end / 32) + b >= end
    {
      BitAnd(set_[end / 32], Not(Pow2Mask(end % 32)), b);
      BitNot(Pow2Mask(end % 32), b);
      BitMask(end % 32, b);
    }
  }

  /** `tmp` has a zero bit exactly at the non-members of word `word` at or after `from`. */
  ghost predicate PendingZeros(set_: seq<u32>, word: nat, tmp: u32, from: nat) {
    && word < |set_| && 32 * word <= from <= 32 * word + 32
    && forall b: nat :: b < 32 ==> (Bit(tmp, b) <==> Bit(set_[word], b) || 32 * word + b < from)
  }

  lemma MaskedZerosFrom(set_: seq<u32>, from: nat)
    requires from / 32 < |set_|
    ensures PendingZeros(set_, from / 32, Or32(set_[from / 32], Pow2Mask(from % 32)), from)
  {
    forall b: nat | b < 32
      ensures Bit(Or32(set_[from / 32], Pow2Mask(from % 32)), b) <==>
                Bit(set_[from / 32], b) || 32 * (from / 32) + b < from
    {
      BitOr(set_[from / 32], Pow2Mask(from % 32), b);
      BitMask(from % 32, b);
    }
  }

  lemma WordFull(set_: seq<u32>, word: nat, tmp: u32, from: nat)
    requires PendingZeros(set_, word, tmp, from) && Not(tmp) == 0
    ensures AllIn(set_, from, 32 * word + 32)
  {
    forall i: nat | from <= i < 32 * word + 32 ensures Has(set_, i) {
      assert i / 32 == word && i % 32 == i - 32 * word;
      BitNot(tmp, i % 32);
      BitOfZero(i % 32);
    }
  }

  lemma TakeZero(set_: seq<u32>, word: nat, tmp: u32, at: nat, bit: nat)
    requires PendingZeros(set_, word, tmp, at) && bit < 32 && IsLowest(Not(tmp), bit)
    ensures at <= 32 * word + bit && !Has(set_, 32 * word + bit)
    ensures AllIn(set_, at, 32 * word + bit)
  {
    BitNot(tmp, bit);
    assert (32 * word + bit) / 32 == word && (32 * word + bit) % 32 == bit;
    forall i: nat | at <= i < 32 * word + bit ensures Has(set_, i) {
      assert i / 32 == word && i % 32 == i - 32 * word;
      BitNot(tmp, i % 32);
    }
  }

  /** The end of the run that starts at the member `start`: its first non-member, cut at size. */
  method FindEnd(start: nat, set_: seq<u32>, size: nat) returns (end: nat)
    requires |set_| >= WordsFor(size) && start < 32 * WordsFor(size) && Has(set_, start)
    ensures end <= size && AllIn(set_, start, end)
    ensures end < size ==> start < end && !Has(set_, end)
  {
    var word := (start + 1) / 32;
    if word >= WordsFor(size) { return size; }
    var tmp: u32 := Or32(set_[word], Pow2Mask((start + 1) % 32));
    ghost var at: nat := start + 1;
    MaskedZerosFrom(set_, start + 1);
    while Not(tmp) == 0
      invariant word < WordsFor(size) && PendingZeros(set_, word, tmp, at)
      invariant start < at && AllIn(set_, start, at)
      decreases WordsFor(size) - word
    {
      WordFull(set_, word, tmp, at);
      word := word + 1;
      if word >= WordsFor(size) { return size; }
      tmp := set_[word];
      at := 32 * word;
    }
    var first := Ffs(Not(tmp));
    TakeZero(set_, word, tmp, at, first - 1);
    var stop := word * 32 + first - 1;
    end := if stop < size then stop else size;
  }

  /** `__bitset_next_range` */
  method NextRange(end: nat, set_: seq<u32>, size: nat) returns (start': nat, end': nat)
    requires |set_| >= WordsFor(size) && end <= size
    ensures start' < size ==> end <= start' < end' <= size && NoneIn(set_, end, start') && AllIn(set_, start', end')
    ensures start' < size ==> end' == size || !Has(set_, end')
    ensures start' >= size ==> NoneIn(set_, end, size)
  {
    var found;
    start', found := FindStart(end, set_, size);
    if !found { return size, size; }
    end' := FindEnd(start', set_, size);
  }

  /** [s, e) is a maximal run of members among the first `size` bits. */
  ghost predicate IsRun(set_: seq<u32>, size: nat, s: nat, e: nat) {
    && s < e <= size && AllIn(set_, s, e)
    && (s == 0 || !Has(set_, s - 1)) && (e == size || !Has(set_, e))
  }

  /** BITSET_FOREACH_RANGE: exactly the maximal runs, in order and apart. */
  method ForeachRange(set_: seq<u32>, size: nat) returns (runs: seq<(nat, nat)>)
    requires |set_| >= WordsFor(size)
    ensures forall s: nat, e: nat :: (s, e) in runs <==> IsRun(set_, size, s, e)
    ensures forall a, b :: 0 <= a < b < |runs| ==> runs[a].1 < runs[b].0
  {
    hide Has;
    runs := [];
    var start, end := NextRange(0, set_, size);
    ghost var from := 0;
    while start < size
      invariant from <= size && (from == 0 || from == size || !Has(set_, from))
      invariant from > 0 ==> Has(set_, from - 1)
      invariant start < size ==> from <= start < end <= size && NoneIn(set_, from, start) && AllIn(set_, start, end)
      invariant start < size ==> end == size || !Has(set_, end)
      invariant start >= size ==> NoneIn(set_, from, size)
      invariant forall r :: r in runs ==> IsRun(set_, size, r.0, r.1) && r.1 <= from
      invariant forall i: nat :: i < from && Has(set_, i) ==> exists r :: r in runs && r.0 <= i < r.1
      invariant forall a, b :: 0 <= a < b < |runs| ==> runs[a].1 < runs[b].0
      decreases size - from
    {
      assert from > 0 ==> start > from;
      assert IsRun(set_, size, start, end);
      ghost var before := runs;
      runs := runs + [(start, end)];
      forall i: nat | i < end && Has(set_, i) ensures exists r :: r in runs && r.0 <= i < r.1 {
        if i < from {
          var r :| r in before && r.0 <= i < r.1;
          assert r in runs;
        } else {
          assert (start, end) in runs;
        }
      }
      from := end;
      start, end := NextRange(end, set_, size);
    }
    forall s: nat, e: nat | IsRun(set_, size, s, e) ensures (s, e) in runs {
      assert Has(set_, s);
      var r :| r in runs && r.0 <= s < r.1;
      SameRun(set_, size, s, e, r.0, r.1);
    }
  }

  /** Two maximal runs with a common member are the same run. */
  lemma SameRun(set_: seq<u32>, size: nat, s: nat, e: nat, s': nat, e': nat)
    requires IsRun(set_, size, s, e) && IsRun(set_, size, s', e') && s' <= s < e'
    ensures s == s' && e == e'
  {
    var p: nat := if s > 0 then s - 1 else 0;
    assert s' <= p < s ==> Has(set_, p);
    assert e < e' ==> Has(set_, e);
    assert e' < e ==> Has(set_, e');
  }
}
