/**
 The byte streams of src/util/blob.c: 32-bit values are aligned to four bytes and little-endian,
 strings end with a zero byte.
 */
module Blobs {
  import opened Words
  import opened GlslTypes

  function Padding(n: nat): (r: nat)
    ensures r < 4 && (n + r) % 4 == 0
  {
    (4 - n % 4) % 4
  }

  function Zeros(n: nat): (r: seq<byte>)
    ensures |r| == n
  {
    seq(n, _ => 0)
  }

  function LittleEndian(v: u32): (r: seq<byte>)
    ensures |r| == 4
  {
    [v % 0x100, v / 0x100 % 0x100, v / 0x1_0000 % 0x100, v / 0x100_0000]
  }

  function FromLittleEndian(s: seq<byte>): (v: u32)
    requires |s| == 4
  {
    var b0: int, b1: int, b2: int, b3: int := s[0], s[1], s[2], s[3];
    b0 + b1 * 0x100 + b2 * 0x1_0000 + b3 * 0x100_0000
  }

  lemma LittleEndianRoundTrip(v: u32)
    ensures FromLittleEndian(LittleEndian(v)) == v
  {
    var q, b0 := DivRem(v, 0x100);
    var q', b1 := DivRem(q, 0x100);
    var b3, b2 := DivRem(q', 0x100);
    DivUnique(v, 0x1_0000, q', b0 + 0x100 * b1);
    DivUnique(v, 0x100_0000, b3, b0 + 0x100 * b1 + 0x1_0000 * b2);
  }

  /** blob_write_uint32 */
  function WriteU32(b: seq<byte>, v: u32): (r: seq<byte>)
    ensures b <= r
  {
    b + Zeros(Padding(|b|)) + LittleEndian(v)
  }

  /** blob_write_string */
  function WriteString(b: seq<byte>, s: Name): (r: seq<byte>)
    ensures b <= r
  {
    b + s + [0]
  }

  /** blob_write_bytes */
  function WriteBytes(b: seq<byte>, s: seq<byte>): (r: seq<byte>)
    ensures b <= r
  {
    b + s
  }

  datatype Reader = Reader(data: seq<byte>, pos: nat, overrun: bool)

  /** A reader of `data` that has consumed exactly the bytes of `b`. */
  function At(data: seq<byte>, b: seq<byte>): (r: Reader) {
    Reader(data, |b|, false)
  }

  /** blob_read_uint32: zero once the data has run out. */
  function ReadU32(r: Reader): (res: (u32, Reader))
    ensures res.1.data == r.data && res.1.pos >= r.pos
    ensures res.0 != 0 ==> r.pos < res.1.pos <= |r.data|
  {
    var p := r.pos + Padding(r.pos);
    if !r.overrun && p + 4 <= |r.data| then (FromLittleEndian(r.data[p..p + 4]), Reader(r.data, p + 4, false))
    else (0, Reader(r.data, p, true))
  }

  /** Length of the string that starts at `p`, if a zero byte ends it. */
  function NulOffset(data: seq<byte>, p: nat): (n: Option<nat>)
    requires p <= |data|
    ensures n.Some? ==> p + n.value < |data| && data[p + n.value] == 0
                        && forall i :: p <= i < p + n.value ==> data[i] != 0
    decreases |data| - p
  {
    if p == |data| then None
    else if data[p] == 0 then Some(0)
    else match NulOffset(data, p + 1) case None => None case Some(n) => Some(n + 1)
  }

  /** blob_read_string; nothing when it would return a null pointer. */
  function ReadString(r: Reader): (res: Option<(Name, Reader)>)
    ensures res.Some? ==> res.value.1.data == r.data && r.pos < res.value.1.pos <= |r.data|
  {
    if r.overrun || r.pos >= |r.data| then None
    else
      match NulOffset(r.data, r.pos)
      case None => None
      case Some(n) =>
        var s: Name := r.data[r.pos..r.pos + n];
        Some((s, Reader(r.data, r.pos + n + 1, false)))
  }

  /** blob_read_bytes; nothing when it would return a null pointer. */
  function ReadBytes(r: Reader, n: nat): (res: Option<(seq<byte>, Reader)>)
    ensures res.Some? ==> |res.value.0| == n && res.value.1.data == r.data && res.value.1.pos == r.pos + n <= |r.data|
  {
    if r.overrun || r.pos + n > |r.data| then None
    else Some((r.data[r.pos..r.pos + n], Reader(r.data, r.pos + n, false)))
  }

  // ------------------------------------------------- what was written is read back

  lemma ReadBackU32(b: seq<byte>, v: u32, data: seq<byte>)
    requires WriteU32(b, v) <= data
    ensures ReadU32(At(data, b)) == (v, At(data, WriteU32(b, v)))
  {
    var p := |b| + Padding(|b|);
    var w := WriteU32(b, v);
    assert data[p..p + 4] == w[p..p + 4] == LittleEndian(v);
    LittleEndianRoundTrip(v);
  }

  lemma {:induction false} NulFound(data: seq<byte>, p: nat, n: nat)
    requires p + n < |data| && data[p + n] == 0 && forall i :: p <= i < p + n ==> data[i] != 0
    ensures NulOffset(data, p) == Some(n)
    decreases n
  {
    if n > 0 { NulFound(data, p + 1, n - 1); }
  }

  lemma ReadBackString(b: seq<byte>, s: Name, data: seq<byte>)
    requires WriteString(b, s) <= data
    ensures ReadString(At(data, b)) == Some((s, At(data, WriteString(b, s))))
  {
    var w := WriteString(b, s);
    assert forall i :: |b| <= i < |b| + |s| ==> data[i] == w[i] == s[i - |b|];
    assert data[|b| + |s|] == w[|b| + |s|] == 0;
    NulFound(data, |b|, |s|);
    assert data[|b|..|b| + |s|] == s;
  }

  lemma ReadBackBytes(b: seq<byte>, s: seq<byte>, data: seq<byte>)
    requires WriteBytes(b, s) <= data
    ensures ReadBytes(At(data, b), |s|) == Some((s, At(data, WriteBytes(b, s))))
  {
    assert data[|b|..|b| + |s|] == WriteBytes(b, s)[|b|..] == s;
  }
}
