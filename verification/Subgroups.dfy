/**
 The compute lowering of libpsbc/psbc_compile.c that replaces the subgroup built-ins by
 arithmetic on the local invocation coordinates.  All values are 32-bit and wrap.
 */
module Subgroups {
  import opened Words
  import opened Products

  function Add32(a: u32, b: u32): (r: u32) {
    (a + b) % 0x1_0000_0000
  }

  function Mul32(a: u32, b: u32): (r: u32) {
    (a * b) % 0x1_0000_0000
  }

  datatype Intrinsic = SubgroupId | LocalInvocationIndex | NumSubgroups

  /** Invocation coordinates and workgroup dimensions. */
  datatype Place = Place(x: u32, y: u32, z: u32, width: u32, height: u32, depth: u32)

  function Index(p: Place): (r: u32) {
    Add32(p.x, Mul32(p.width, Add32(p.y, Mul32(p.height, p.z))))
  }

  /** What replaces the intrinsic; nothing when the wave size is neither 32 nor 64. */
  function Lowered(i: Intrinsic, p: Place, wave: u32): (r: Option<u32>) {
    if wave != 32 && wave != 64 then None
    else match i
      case NumSubgroups =>
        Some(Add32(Mul32(p.width, Mul32(p.height, p.depth)), wave - 1) / wave)
      case LocalInvocationIndex => Some(Index(p))
      case SubgroupId => Some(Index(p) / wave)
  }

  /** Number of invocations, without wrap-around. */
  function Total(p: Place): (r: nat) {
    MulPositive(p.height, p.depth);
    MulPositive(p.width, p.height * p.depth);
    p.width * (p.height * p.depth)
  }

  /** A workgroup that fits in 32 bits and an invocation inside it. */
  predicate Inside(p: Place) {
    p.x < p.width && p.y < p.height && p.z < p.depth && Total(p) < 0x1_0000_0000
  }

  // ------------------------------------------------- the index

  lemma RowBound(y: int, h: int, z: int, d: int)
    requires 0 <= y < h && 0 <= z < d
    ensures 0 <= h * z && 0 <= y + h * z < h * d
  {
    MulMono(h, z, d - 1);
    MulMono(h, 0, z);
    MulAdd(h, d - 1, 1);
  }

  lemma Small(v: int)
    requires 0 <= v < 0x1_0000_0000
    ensures v % 0x1_0000_0000 == v
  {
  }

  /** Nothing wraps, and the index is below the number of invocations. */
  lemma IndexExact(p: Place)
    requires Inside(p)
    ensures Index(p) == p.x + p.width * (p.y + p.height * p.z) < Total(p)
  {
    hide *;
    InsideFacts(p);
    RowBound(p.y, p.height, p.z, p.depth);
    var row := p.y + p.height * p.z;
    RowBound(p.x, p.width, row, p.height * p.depth);
    Bounds(p, row);
    IndexSteps(p, row);
  }

  lemma InsideFacts(p: Place)
    requires Inside(p)
    ensures p.x < p.width && p.y < p.height && p.z < p.depth
    ensures p.width * (p.height * p.depth) == Total(p) < 0x1_0000_0000
  {
  }

  lemma Bounds(p: Place, row: int)
    requires row == p.y + p.height * p.z && 0 <= p.height * p.z && 0 <= row && 0 < p.width
    requires 0 <= p.width * row && p.x + p.width * row < 0x1_0000_0000
    ensures 0 <= p.height * p.z < 0x1_0000_0000 && 0 <= row < 0x1_0000_0000 && p.width * row < 0x1_0000_0000
  {
    MulMono(row, 1, p.width);
  }

  lemma IndexSteps(p: Place, row: int)
    requires row == p.y + p.height * p.z
    requires 0 <= p.height * p.z < 0x1_0000_0000 && 0 <= row < 0x1_0000_0000
    requires 0 <= p.width * row < 0x1_0000_0000 && p.x + p.width * row < 0x1_0000_0000
    ensures Index(p) == p.x + p.width * row
  {
    hide Index;
    Small(p.height * p.z);
    Small(row);
    Small(p.width * row);
    Small(p.x + p.width * row);
    assert Mul32(p.height, p.z) == p.height * p.z;
    assert Add32(p.y, Mul32(p.height, p.z)) == row;
    assert Mul32(p.width, Add32(p.y, Mul32(p.height, p.z))) == p.width * row;
    IndexUnfolds(p);
  }

  lemma IndexUnfolds(p: Place)
    ensures Index(p) == Add32(p.x, Mul32(p.width, Add32(p.y, Mul32(p.height, p.z))))
  {
  }

  /** Different invocations have different indices. */
  lemma IndexInjective(p: Place, q: Place)
    requires Inside(p) && Inside(q) && p.width == q.width && p.height == q.height && p.depth == q.depth
    ensures Index(p) == Index(q) <==> p == q
  {
    IndexExact(p);
    IndexExact(q);
    if Index(p) == Index(q) {
      hide *;
      InsideFacts(p);
      InsideFacts(q);
      var r, s := p.y + p.height * p.z, q.y + q.height * q.z;
      RowBound(p.y, p.height, p.z, p.depth);
      RowBound(q.y, q.height, q.z, q.depth);
      SameDigits(p.width, p.x, r, q.x, s);
      SameDigits(p.height, p.y, p.z, q.y, q.z);
    }
  }

  /** Every number below the total is the index of an invocation. */
  lemma IndexSurjective(i: nat, width: u32, height: u32, depth: u32) returns (p: Place)
    requires i < width * (height * depth) < 0x1_0000_0000
    ensures p.width == width && p.height == height && p.depth == depth && Inside(p) && Index(p) == i
  {
    MulPositive(height, depth);
    MulPositive(width, height * depth);
    var row, x := DivRem(i, width);
    QuotientBound(i, width, height * depth, row, x);
    var z, y := DivRem(row, height);
    QuotientBound(row, height, depth, z, y);
    p := Place(x, y, z, width, height, depth);
    IndexExact(p);
  }

  lemma QuotientBound(i: int, d: int, n: int, q: int, r: int)
    requires 0 <= i < d * n && i == d * q + r && 0 <= r < d
    ensures q < n
  {
    if q >= n { MulMono(d, n, q); }
  }

  // ------------------------------------------------- subgroups

  /** The rounding of NumSubgroups does not wrap. */
  predicate Rounds(p: Place, wave: u32) {
    Total(p) + wave - 1 < 0x1_0000_0000
  }

  lemma TotalExact(p: Place)
    requires Inside(p)
    ensures Mul32(p.width, Mul32(p.height, p.depth)) == Total(p) > 0
  {
    MulPositive(p.height, p.depth);
    MulPositive(p.width, p.height * p.depth);
    Small(p.height * p.depth);
    Small(Total(p));
  }

  /** Dividing by the wave size, in plain arithmetic. */
  lemma CountBounds(total: nat, wave: nat, index: nat)
    requires (wave == 32 || wave == 64) && index < total < 0x1_0000_0000
    ensures var n := (total + wave - 1) % 0x1_0000_0000 / wave;
            if total + wave - 1 < 0x1_0000_0000 then index / wave < n && (n - 1) * wave < total <= n * wave else n == 0
  {
    if total + wave - 1 < 0x1_0000_0000 {
      Small(total + wave - 1);
      if wave == 32 { Rounded32(total, index); } else { Rounded64(total, index); }
    }
  }

  lemma Rounded32(total: nat, index: nat)
    requires index < total
    ensures var n := (total + 31) / 32; index / 32 < n && (n - 1) * 32 < total <= n * 32
  {
  }

  lemma Rounded64(total: nat, index: nat)
    requires index < total
    ensures var n := (total + 63) / 64; index / 64 < n && (n - 1) * 64 < total <= n * 64
  {
  }

  lemma CountIs(p: Place, wave: u32)
    requires Inside(p) && (wave == 32 || wave == 64)
    ensures Lowered(NumSubgroups, p, wave) == Some((Total(p) + wave - 1) % 0x1_0000_0000 / wave)
    ensures Lowered(SubgroupId, p, wave) == Some(Index(p) / wave)
  {
    hide Index, Total, Mul32;
    TotalExact(p);
  }

  /**
   The subgroup id of every invocation is below NumSubgroups exactly when the rounding does not
   wrap; when it wraps, NumSubgroups is zero.
   */
  lemma IdBelowCount(p: Place, wave: u32)
    requires Inside(p) && (wave == 32 || wave == 64)
    ensures Lowered(SubgroupId, p, wave).value < Lowered(NumSubgroups, p, wave).value <==> Rounds(p, wave)
    ensures !Rounds(p, wave) ==> Lowered(NumSubgroups, p, wave).value == 0
  {
    hide Index, Total, Lowered, Inside;
    IndexExact(p);
    InsideFacts(p);
    CountIs(p, wave);
    CountBounds(Total(p), wave, Index(p));
  }

  /** An input: 2^32 - 1 invocations in a row, in waves of 32. */
  lemma CountWraps()
    ensures var p := Place(0, 0, 0, 0xFFFF_FFFF, 1, 1);
            Inside(p) && Lowered(SubgroupId, p, 32) == Some(0) && Lowered(NumSubgroups, p, 32) == Some(0)
  {
    var p := Place(0, 0, 0, 0xFFFF_FFFF, 1, 1);
    assert Total(p) == 0xFFFF_FFFF;
    IdBelowCount(p, 32);
  }

  ghost function Members(total: nat, wave: nat, id: nat): (s: set<nat>)
    requires wave > 0
  {
    set i | 0 <= i < total && i / wave == id
  }

  ghost function Interval(lo: nat, hi: nat): (s: set<nat>)
    ensures forall i :: i in s <==> lo <= i < hi
    ensures |s| == if lo <= hi then hi - lo else 0
  {
    if lo >= hi then {} else Interval(lo, hi - 1) + {hi - 1}
  }

  /** All subgroups but the last are full, and the last is not empty. */
  lemma SubgroupSizes(p: Place, wave: u32, id: nat)
    requires Inside(p) && (wave == 32 || wave == 64) && Rounds(p, wave)
    requires id < Lowered(NumSubgroups, p, wave).value
    ensures var n, size := Lowered(NumSubgroups, p, wave).value, |Members(Total(p), wave, id)|;
            if id < n - 1 then size == wave else 0 < size <= wave
  {
    hide *;
    RoundsIs(p, wave);
    CountIs(p, wave);
    InsideFacts(p);
    TotalPositive(p);
    CountBounds(Total(p), wave, 0);
    MemberCount(Total(p), wave, id, Lowered(NumSubgroups, p, wave).value);
  }

  lemma RoundsIs(p: Place, wave: u32)
    requires Rounds(p, wave)
    ensures Total(p) + wave - 1 < 0x1_0000_0000
  {
  }

  lemma MemberCount(total: nat, wave: nat, id: nat, n: nat)
    requires (wave == 32 || wave == 64) && id < n && (n - 1) * wave < total <= n * wave
    ensures var size := |Members(total, wave, id)|; if id < n - 1 then size == wave else 0 < size <= wave
  {
    hide Members, Interval;
    var hi := if id * wave + wave <= total then id * wave + wave else total;
    LastOf(total, wave, id, n);
    MembersAreInterval(total, wave, id, hi);
  }

  /** All but the last subgroup end within the total, and the last one starts within it. */
  lemma LastOf(total: int, wave: int, id: int, n: int)
    requires 0 < wave && 0 <= id < n && (n - 1) * wave < total <= n * wave
    ensures if id < n - 1 then id * wave + wave <= total else id * wave < total <= id * wave + wave
  {
    MulAdd(wave, id, 1);
    if id < n - 1 { MulMono(wave, id + 1, n - 1); } else { assert id == n - 1; }
  }

  lemma TotalPositive(p: Place)
    requires Inside(p)
    ensures Total(p) > 0
  {
    hide Total;
    TotalExact(p);
  }

  lemma MembersAreInterval(total: nat, wave: nat, id: nat, hi: nat)
    requires (wave == 32 || wave == 64) && hi == if id * wave + wave <= total then id * wave + wave else total
    ensures Members(total, wave, id) == Interval(id * wave, hi)
  {
    forall i: nat ensures i / wave == id <==> id * wave <= i < id * wave + wave { QuotientIs(i, wave, id); }
  }

  lemma QuotientIs(i: nat, wave: nat, id: nat)
    requires wave > 0
    ensures i / wave == id <==> id * wave <= i < id * wave + wave
  {
    var q, r := DivRem(i, wave);
    if id * wave <= i < id * wave + wave { DivUnique(i, wave, id, i - id * wave); }
  }
}
