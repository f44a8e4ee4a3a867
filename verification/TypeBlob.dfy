/**
 Serialization of types (encode_type_to_blob and decode_type_from_blob).  A type starts with one
 32-bit word of bit-fields; values that do not fit their bit-field follow as escape words.
 */
module TypeBlob {
  import opened Words
  import opened BitScan
  import opened GlslTypes
  import opened TypeCache
  import opened TypeTrees
  import opened Blobs

  // ------------------------------------------------- codes

  function BaseCode(b: Base): (n: nat)
    ensures n < 15
  {
    match b
    case Uint => 0 case Int => 1 case Float => 2 case Float16 => 3 case BFloat16 => 4
    case E4M3FN => 5 case E5M2 => 6 case Double => 7 case Uint8 => 8 case Int8 => 9
    case Uint16 => 10 case Int16 => 11 case Uint64 => 12 case Int64 => 13 case Bool => 14
  }

  function BaseOf(n: nat): (b: Base)
    requires n < 15
    ensures BaseCode(b) == n
  {
    match n
    case 0 => Uint case 1 => Int case 2 => Float case 3 => Float16 case 4 => BFloat16
    case 5 => E4M3FN case 6 => E5M2 case 7 => Double case 8 => Uint8 case 9 => Int8
    case 10 => Uint16 case 11 => Int16 case 12 => Uint64 case 13 => Int64 case _ => Bool
  }

  const COOPERATIVE_MATRIX: nat := 15
  const SAMPLER: nat := 16
  const TEXTURE: nat := 17
  const IMAGE: nat := 18
  const ATOMIC_UINT: nat := 19
  const STRUCT: nat := 20
  const INTERFACE: nat := 21
  const ARRAY: nat := 22
  const VOID: nat := 23
  const SUBROUTINE: nat := 24

  function DimCode(d: Dim): (n: nat)
    ensures n < 10
  {
    match d
    case Dim1D => 0 case Dim2D => 1 case Dim3D => 2 case Cube => 3 case Rect => 4
    case Buf => 5 case External => 6 case MS => 7 case Subpass => 8 case SubpassMS => 9
  }

  function DimOf(n: nat): (d: Option<Dim>)
    ensures d.Some? ==> DimCode(d.value) == n
  {
    match n
    case 0 => Some(Dim1D) case 1 => Some(Dim2D) case 2 => Some(Dim3D) case 3 => Some(Cube) case 4 => Some(Rect)
    case 5 => Some(Buf) case 6 => Some(External) case 7 => Some(MS) case 8 => Some(Subpass) case 9 => Some(SubpassMS)
    case _ => None
  }

  function SampledCode(s: Sampled): (n: nat)
    ensures n < 32
  {
    match s
    case OfUint => 0 case OfInt => 1 case OfFloat => 2 case OfUint64 => 12 case OfInt64 => 13 case OfVoid => 23
  }

  function SampledOf(n: nat): (s: Option<Sampled>)
    ensures s.Some? ==> SampledCode(s.value) == n
  {
    match n
    case 0 => Some(OfUint) case 1 => Some(OfInt) case 2 => Some(OfFloat)
    case 12 => Some(OfUint64) case 13 => Some(OfInt64) case 23 => Some(OfVoid)
    case _ => None
  }

  /** The three-bit code of a vector width. */
  function WidthCode(rows: nat): (n: nat)
    ensures n < 8
  {
    if rows <= 5 then rows else if rows == 8 then 6 else if rows == 16 then 7 else 0
  }

  function WidthOf(n: nat): (rows: nat) {
    if n == 6 then 8 else if n == 7 then 16 else n
  }

  function Min(a: nat, b: nat): (r: nat) {
    if a < b then a else b
  }

  function Flag(b: bool): (r: nat) {
    if b then 1 else 0
  }

  /** The two's complement word of an `int`. */
  function AsWord(i: i32): (w: u32) {
    if i < 0 then i + 0x1_0000_0000 else i
  }

  /** The four-bit alignment code. */
  function AlignCode(align: u32): (n: nat)
    ensures n <= 15
  {
    Min(FfsOf(align), 15)
  }

  // ------------------------------------------------- the packed word

  /** The columns have a field of three bits, behind an assert. */
  function BasicWord(base: Base, rowMajor: bool, rows: nat, cols: nat, stride: u32, align: u32): (w: u32) {
    BaseCode(base) + 0x20 * (Flag(rowMajor) + 2 * (WidthCode(rows) + 8 * (cols % 8
      + 8 * (Min(stride, 0xffff) + 0x1_0000 * AlignCode(align)))))
  }

  function HandleWord(code: nat, d: Dim, shadow: bool, arrayed: bool, s: Sampled): (w: u32)
    requires code < 32
  {
    code + 0x20 * (DimCode(d) + 0x10 * (Flag(shadow) + 2 * (Flag(arrayed) + 2 * SampledCode(s))))
  }

  function ArrayWord(length: u32, stride: u32): (w: u32) {
    ARRAY + 0x20 * (Min(length, 0x1fff) + 0x2000 * Min(stride, 0x3fff))
  }

  function RecordWord(code: nat, packing: nat, rowMajor: bool, length: nat, align: u32): (w: u32)
    requires code < 32 && packing < 4
  {
    code + 0x20 * (packing + 4 * (Flag(rowMajor) + 2 * (Min(length, 0xf_ffff) + 0x10_0000 * AlignCode(align))))
  }

  /** Peeling the lowest bit-field off what is left of a word. */
  lemma Peel(w: u32, low: nat, width: nat, x: nat, rest: nat)
    requires low > 0 && x < width && w / low == x + width * rest
    ensures Sub(w, low, width) == x && low * width > 0 && w / (low * width) == rest
  {
    DivUnique(x + width * rest, width, rest, x);
    DivDiv(w, low, width);
  }

  lemma BasicWordParts(base: Base, rowMajor: bool, rows: nat, cols: nat, stride: u32, align: u32)
    requires cols < 8
    ensures var w := BasicWord(base, rowMajor, rows, cols, stride, align);
            && w % 0x20 == BaseCode(base) && Sub(w, 0x20, 2) == Flag(rowMajor) && Sub(w, 0x40, 8) == WidthCode(rows)
            && Sub(w, 0x200, 8) == cols && Sub(w, 0x1000, 0x1_0000) == Min(stride, 0xffff)
            && Sub(w, 0x1000_0000, 0x10) == AlignCode(align)
  {
    var w := BasicWord(base, rowMajor, rows, cols, stride, align);
    var e := Min(stride, 0xffff) + 0x1_0000 * AlignCode(align);
    var d := cols + 8 * e;
    var c := WidthCode(rows) + 8 * d;
    var b := Flag(rowMajor) + 2 * c;
    hide Sub;
    Peel(w, 1, 0x20, BaseCode(base), b);
    Peel(w, 0x20, 2, Flag(rowMajor), c);
    Peel(w, 0x40, 8, WidthCode(rows), d);
    Peel(w, 0x200, 8, cols, e);
    Peel(w, 0x1000, 0x1_0000, Min(stride, 0xffff), AlignCode(align));
    Peel(w, 0x1000_0000, 0x10, AlignCode(align), 0);
  }

  lemma HandleWordParts(code: nat, d: Dim, shadow: bool, arrayed: bool, s: Sampled)
    requires code < 32
    ensures var w := HandleWord(code, d, shadow, arrayed, s);
            && w % 0x20 == code && Sub(w, 0x20, 0x10) == DimCode(d) && Sub(w, 0x200, 2) == Flag(shadow)
            && Sub(w, 0x400, 2) == Flag(arrayed) && Sub(w, 0x800, 0x20) == SampledCode(s)
  {
    hide Sub, DimCode, SampledCode;
    var w := HandleWord(code, d, shadow, arrayed, s);
    var k := Flag(arrayed) + 2 * SampledCode(s);
    var m := Flag(shadow) + 2 * k;
    Peel(w, 1, 0x20, code, DimCode(d) + 0x10 * m);
    Peel(w, 0x20, 0x10, DimCode(d), m);
    Peel(w, 0x200, 2, Flag(shadow), k);
    Peel(w, 0x400, 2, Flag(arrayed), SampledCode(s));
    Peel(w, 0x800, 0x20, SampledCode(s), 0);
  }

  lemma ArrayWordParts(length: u32, stride: u32)
    ensures var w := ArrayWord(length, stride);
            && w % 0x20 == ARRAY && Sub(w, 0x20, 0x2000) == Min(length, 0x1fff)
            && Sub(w, 0x4_0000, 0x4000) == Min(stride, 0x3fff)
  {
    var w := ArrayWord(length, stride);
    hide Sub;
    Peel(w, 1, 0x20, ARRAY, Min(length, 0x1fff) + 0x2000 * Min(stride, 0x3fff));
    Peel(w, 0x20, 0x2000, Min(length, 0x1fff), Min(stride, 0x3fff));
    Peel(w, 0x4_0000, 0x4000, Min(stride, 0x3fff), 0);
  }

  lemma RecordWordParts(code: nat, packing: nat, rowMajor: bool, length: nat, align: u32)
    requires code < 32 && packing < 4
    ensures var w := RecordWord(code, packing, rowMajor, length, align);
            && w % 0x20 == code && Sub(w, 0x20, 4) == packing && Sub(w, 0x80, 2) == Flag(rowMajor)
            && Sub(w, 0x100, 0x10_0000) == Min(length, 0xf_ffff) && Sub(w, 0x1000_0000, 0x10) == AlignCode(align)
  {
    var w := RecordWord(code, packing, rowMajor, length, align);
    var k := Min(length, 0xf_ffff) + 0x10_0000 * AlignCode(align);
    var m := Flag(rowMajor) + 2 * k;
    hide Sub;
    Peel(w, 1, 0x20, code, packing + 4 * m);
    Peel(w, 0x20, 4, packing, m);
    Peel(w, 0x80, 2, Flag(rowMajor), k);
    Peel(w, 0x100, 0x10_0000, Min(length, 0xf_ffff), AlignCode(align));
    Peel(w, 0x1000_0000, 0x10, AlignCode(align), 0);
  }

  // ------------------------------------------------- encoding

  function WriteIf(cond: bool, b: seq<byte>, v: u32): (r: seq<byte>)
    ensures b <= r
  {
    if cond then WriteU32(b, v) else b
  }

  function CmatBytes(d: Cmat): (s: seq<byte>)
    requires CmatOk(d)
    ensures |s| == 8
  {
    [d.rows % 0x100, d.rows / 0x100, d.cols % 0x100, d.cols / 0x100, d.element % 0x100, d.element / 0x100, d.scope,
     d.use]
  }

  function CmatOf(s: seq<byte>): (d: Cmat)
    requires |s| == 8
  {
    var r: int, r': int, c: int, c': int, e: int, e': int := s[0], s[1], s[2], s[3], s[4], s[5];
    Cmat(r + 0x100 * r', c + 0x100 * c', e + 0x100 * e', s[6], s[7])
  }

  /** The scalar, vector and matrix case. */
  function EncodeBasic(b: seq<byte>, base: Base, rowMajor: bool, rows: nat, cols: nat, stride: u32,
                       align: u32): (res: seq<byte>)
    ensures b <= res
  {
    var b1 := WriteU32(b, BasicWord(base, rowMajor, rows, cols, stride, align));
    var b2 := WriteIf(Min(stride, 0xffff) == 0xffff, b1, stride);
    WriteIf(AlignCode(align) == 15, b2, align)
  }

  /** What is written for an array before its element type. */
  function ArrayPrefix(b: seq<byte>, length: u32, stride: u32): (r: seq<byte>)
    ensures b <= r
  {
    var b1 := WriteU32(b, ArrayWord(length, stride));
    var b2 := WriteIf(Min(length, 0x1fff) == 0x1fff, b1, length);
    WriteIf(Min(stride, 0x3fff) == 0x3fff, b2, stride)
  }

  /** encode_type_to_blob appending to `b`. */
  function Encode(c: Cache, b: seq<byte>, r: Ref): (res: seq<byte>)
    requires Acyclic(c) && (r.Null? || RefOk(r, |c.arena|))
    ensures b <= res
    decreases Rank(r), 1
  {
    match r
    case Null => WriteU32(b, 0)
    case Static(Vec(base, n)) => EncodeBasic(b, base, false, n, 1, 0, 0)
    case Static(Mat(base, rows, cols)) => EncodeBasic(b, base, false, rows, cols, 0, 0)
    case Static(Opaque(Sampler, d, shadow, arrayed, s)) => WriteU32(b, HandleWord(SAMPLER, d, shadow, arrayed, s))
    case Static(Opaque(Texture, d, _, arrayed, s)) => WriteU32(b, HandleWord(TEXTURE, d, false, arrayed, s))
    case Static(Opaque(Image, d, _, arrayed, s)) => WriteU32(b, HandleWord(IMAGE, d, false, arrayed, s))
    case Static(AtomicUint) => WriteU32(b, ATOMIC_UINT)
    case Static(Void) => WriteU32(b, VOID)
    case Static(ErrorType) => WriteU32(b, 0)
    case Interned(i) =>
      match c.arena[i]
      case ExplicitRec(base, rows, cols, stride, align, rowMajor) =>
        EncodeBasic(b, base, rowMajor, rows, cols, stride, align)
      case ArrayRec(elem, length, stride) => Encode(c, ArrayPrefix(b, length, stride), elem)
      case CmatRec(d) => WriteBytes(WriteU32(b, COOPERATIVE_MATRIX), CmatBytes(d))
      case StructRec(name, packed, align, fields) =>
        EncodeRecord(c, b, RecordWord(STRUCT, Flag(packed), false, |fields|, align), name, align, fields, i)
      case InterfaceRec(name, packing, rowMajor, fields) =>
        EncodeRecord(c, b, RecordWord(INTERFACE, packing, rowMajor, |fields|, 0), name, 0, fields, i)
      case SubroutineRec(name) => WriteString(WriteU32(b, SUBROUTINE), name)
  }

  function EncodeRecord(c: Cache, b: seq<byte>, word: u32, name: Name, align: u32, fields: seq<Field>,
                        i: nat): (res: seq<byte>)
    requires Acyclic(c) && i < |c.arena| && FieldsOk(fields, i)
    ensures b <= res
    decreases i + 1, 0, |fields| + 1
  {
    var b1 := WriteString(WriteU32(b, word), name);
    var b2 := WriteIf(Min(|fields|, 0xf_ffff) == 0xf_ffff, b1, |fields|);
    var b3 := WriteIf(AlignCode(align) == 15, b2, align);
    EncodeFields(c, b3, fields, |fields|, i)
  }

  /** The first `n` fields. */
  function EncodeFields(c: Cache, b: seq<byte>, fields: seq<Field>, n: nat, i: nat): (res: seq<byte>)
    requires Acyclic(c) && i < |c.arena| && FieldsOk(fields, i) && n <= |fields|
    ensures b <= res
    decreases i + 1, 0, n
  {
    if n == 0 then b
    else
      var f := fields[n - 1];
      WriteQualifiers(Encode(c, EncodeFields(c, b, fields, n - 1, i), f.typ), f)
  }

  /** encode_glsl_struct_field after the type. */
  function WriteQualifiers(b: seq<byte>, f: Field): (res: seq<byte>)
    ensures b <= res
  {
    var b1 := WriteString(b, f.name);
    var b2 := WriteU32(b1, AsWord(f.location));
    var b3 := WriteU32(b2, AsWord(f.component));
    var b4 := WriteU32(b3, AsWord(f.offset));
    var b5 := WriteU32(b4, AsWord(f.xfbBuffer));
    var b6 := WriteU32(b5, AsWord(f.xfbStride));
    var b7 := WriteU32(b6, f.imageFormat);
    WriteU32(b7, f.flags)
  }

  // ------------------------------------------------- decoding

  function ReadIf(cond: bool, r: Reader, v: nat): (res: (nat, Reader))
    ensures res.1.data == r.data && res.1.pos >= r.pos
    ensures cond ==> res.0 < 0x1_0000_0000
    ensures !cond ==> res.0 == v
  {
    if cond then ReadU32(r) else (v, r)
  }

  /** The alignment that a four-bit code stands for, read from the stream if escaped. */
  function ReadAlign(code: nat, r: Reader): (res: (u32, Reader))
    requires code <= 15
    ensures res.1.data == r.data && res.1.pos >= r.pos
  {
    if code == 15 then ReadU32(r)
    else if code == 0 then (0, r)
    else
      Pow2At32();
      Pow2Mono(code - 1, 31);
      (Pow2(code - 1), r)
  }

  datatype Decoded = Decoded(cache: Cache, ref: Ref, rest: Reader)

  /** Bytes left to read. */
  function Left(r: Reader): (n: nat) {
    if r.pos <= |r.data| then |r.data| - r.pos else 0
  }

  /** glsl_simple_explicit_type for a numeric base; nothing where an assert on its arguments fails. */
  function SimpleExplicit(c: Cache, base: Base, rows: nat, cols: nat, stride: u32, rowMajor: bool,
                          align: u32): (r: Option<(Cache, Ref)>)
  {
    var rec := ExplicitRec(base, rows, cols, stride, align, rowMajor);
    if stride > 0 || align > 0 then
      if ExplicitAsserted(rec) then Some(ExplicitType(c, rec)) else None
    else if rowMajor then None
    else Some((c, Static(SimpleType(base, rows, cols))))
  }

  /** The sampler, texture and image lookups on raw codes. */
  function HandleType(kind: nat, w: u32): (r: Option<Ref>) {
    var shadow, arrayed := Sub(w, 0x200, 2) == 1, Sub(w, 0x400, 2) == 1;
    match SampledOf(Sub(w, 0x800, 0x20))
    case None => Some(Static(ErrorType))
    case Some(s) =>
      match DimOf(Sub(w, 0x20, 0x10))
      case None =>
        if s.OfVoid? then Some(Static(if kind == SAMPLER then SamplerType(Dim1D, shadow, arrayed, s) else ErrorType))
        else if (kind != IMAGE && s in {OfUint64, OfInt64}) || (kind == SAMPLER && shadow && !s.OfFloat?) then
          Some(Static(ErrorType))
        else None
      case Some(d) =>
        Some(Static(if kind == SAMPLER then SamplerType(d, shadow, arrayed, s)
                    else if kind == TEXTURE then TextureType(d, arrayed, s)
                    else ImageType(d, arrayed, s)))
  }

  /** The scalar, vector and matrix case, after the packed word. */
  function DecodeBasic(c: Cache, r: Reader, w: u32): (res: Option<Decoded>)
    requires w % 0x20 < 15
    ensures res.Some? ==> res.value.rest.data == r.data && res.value.rest.pos >= r.pos
  {
    var (stride, r2) := ReadIf(Sub(w, 0x1000, 0x1_0000) == 0xffff, r, Sub(w, 0x1000, 0x1_0000));
    var (align, r3) := ReadAlign(Sub(w, 0x1000_0000, 0x10), r2);
    match SimpleExplicit(c, BaseOf(w % 0x20), WidthOf(Sub(w, 0x40, 8)), Sub(w, 0x200, 8), stride, Sub(w, 0x20, 2) == 1,
                         align)
    case None => None
    case Some((d, ref)) => Some(Decoded(d, ref, r3))
  }

  function DecodeCmat(c: Cache, r: Reader): (res: Option<Decoded>)
    ensures res.Some? ==> res.value.rest.data == r.data && res.value.rest.pos >= r.pos
  {
    match ReadBytes(r, 8)
    case None => None
    case Some((s, r2)) => var (d, ref) := CmatType(c, CmatRec(CmatOf(s))); Some(Decoded(d, ref, r2))
  }

  function DecodeHandle(c: Cache, r: Reader, w: u32): (res: Option<Decoded>)
    ensures res.Some? ==> res.value.rest == r
  {
    match HandleType(w % 0x20, w)
    case None => None
    case Some(ref) => Some(Decoded(c, ref, r))
  }

  function DecodeSubroutine(c: Cache, r: Reader): (res: Option<Decoded>)
    ensures res.Some? ==> res.value.rest.data == r.data && res.value.rest.pos >= r.pos
  {
    match ReadString(r)
    case None => None
    case Some((name, r2)) => var (d, ref) := SubroutineType(c, SubroutineRec(name)); Some(Decoded(d, ref, r2))
  }

  /** Length and stride of an array, after the packed word. */
  function ReadArrayPrefix(r: Reader, w: u32): (res: (u32, u32, Reader))
    ensures res.2.data == r.data && res.2.pos >= r.pos
  {
    var (length, r2) := ReadIf(Sub(w, 0x20, 0x2000) == 0x1fff, r, Sub(w, 0x20, 0x2000));
    var (stride, r3) := ReadIf(Sub(w, 0x4_0000, 0x4000) == 0x3fff, r2, Sub(w, 0x4_0000, 0x4000));
    (length, stride, r3)
  }

  /**
   decode_type_from_blob.  No result where the original would follow a null pointer or fail an
   assert, which happens only on streams that `Encode` does not produce.
   */
  function Decode(c: Cache, r: Reader): (res: Option<Decoded>)
    ensures res.Some? ==> res.value.rest.data == r.data && res.value.rest.pos >= r.pos
    decreases Left(r), 0
  {
    var (w, r1) := ReadU32(r);
    var code := w % 0x20;
    if w == 0 then Some(Decoded(c, Null, r1))
    else if code < 15 then DecodeBasic(c, r1, w)
    else if code == COOPERATIVE_MATRIX then DecodeCmat(c, r1)
    else if code == SAMPLER || code == TEXTURE || code == IMAGE then DecodeHandle(c, r1, w)
    else if code == ATOMIC_UINT then Some(Decoded(c, Static(AtomicUint), r1))
    else if code == STRUCT || code == INTERFACE then DecodeRecord(c, r1, w)
    else if code == ARRAY then
      var (length, stride, r2) := ReadArrayPrefix(r1, w);
      (match Decode(c, r2)
       case None => None
       case Some(Decoded(d, elem, r3)) =>
         if elem.Null? then None
         else var (d', ref) := ArrayType(d, ArrayRec(elem, length, stride)); Some(Decoded(d', ref, r3)))
    else if code == VOID then Some(Decoded(c, Static(Void), r1))
    else if code == SUBROUTINE then DecodeSubroutine(c, r1)
    else None
  }

  /** The struct and interface case, after the packed word. */
  function DecodeRecord(c: Cache, r: Reader, w: u32): (res: Option<Decoded>)
    ensures res.Some? ==> res.value.rest.data == r.data && res.value.rest.pos >= r.pos
    decreases Left(r), 2
  {
    match ReadString(r)
    case None => None
    case Some((name, r1)) =>
      var (length, r2) := ReadIf(Sub(w, 0x100, 0x10_0000) == 0xf_ffff, r1, Sub(w, 0x100, 0x10_0000));
      var (align, r3) := ReadAlign(Sub(w, 0x1000_0000, 0x10), r2);
      match DecodeFields(c, r3, length)
      case None => None
      case Some((d, fields, r4)) =>
        if w % 0x20 == INTERFACE then
          if align != 0 then None
          else var (d', ref) := InterfaceType(d, InterfaceRec(name, Sub(w, 0x20, 4), Sub(w, 0x80, 2) == 1, fields));
               Some(Decoded(d', ref, r4))
        else if !AlignmentOk(align) then None
        else var (d', ref) := StructType(d, StructRec(name, Sub(w, 0x20, 4) != 0, align, fields));
             Some(Decoded(d', ref, r4))
  }

  function DecodeFields(c: Cache, r: Reader, n: nat): (res: Option<(Cache, seq<Field>, Reader)>)
    ensures res.Some? ==> |res.value.1| == n && res.value.2.data == r.data && res.value.2.pos >= r.pos
    decreases Left(r), 1, n
  {
    if n == 0 then Some((c, [], r))
    else
      match DecodeFields(c, r, n - 1)
      case None => None
      case Some((d, fields, r1)) =>
        match Decode(d, r1)
        case None => None
        case Some(Decoded(e, typ, r2)) =>
          match ReadQualifiers(typ, r2)
          case None => None
          case Some((f, r3)) => Some((e, fields + [f], r3))
  }

  function ReadQualifiers(typ: Ref, r: Reader): (res: Option<(Field, Reader)>)
    ensures res.Some? ==> res.value.1.data == r.data && res.value.1.pos >= r.pos
  {
    match ReadString(r)
    case None => None
    case Some((name, r1)) =>
      var (location, r2) := ReadU32(r1);
      var (component, r3) := ReadU32(r2);
      var (offset, r4) := ReadU32(r3);
      var (xfbBuffer, r5) := ReadU32(r4);
      var (xfbStride, r6) := ReadU32(r5);
      var (imageFormat, r7) := ReadU32(r6);
      var (flags, r8) := ReadU32(r7);
      Some((Field(typ, name, AsInt(location), AsInt(component), AsInt(offset), AsInt(xfbBuffer), AsInt(xfbStride),
                  imageFormat, flags), r8))
  }

  // ------------------------------------------------- round trip

  /** Rows and columns for which the packed word has a code. */
  predicate HasCode(rows: nat, cols: nat) {
    cols < 8 && (rows <= 5 || rows == 8 || rows == 16)
  }

  /** A type that can be encoded: the error type is nowhere in it, and every shape has a code. */
  predicate Encodable(c: Cache, r: Ref)
    requires Acyclic(c)
    decreases Rank(r), 1
  {
    match r
    case Null => true
    case Static(b) => InBuiltinTable(b) && b != ErrorType
    case Interned(i) =>
      i < |c.arena| &&
      match c.arena[i]
      case ExplicitRec(_, rows, cols, _, _, _) => HasCode(rows, cols)
      case ArrayRec(elem, _, _) => assert RecordOk(c.arena[i], i); Encodable(c, elem)
      case StructRec(_, _, _, fields) => assert RecordOk(c.arena[i], i); EncodableFields(c, fields, i)
      case InterfaceRec(_, _, _, fields) => assert RecordOk(c.arena[i], i); EncodableFields(c, fields, i)
      case _ => true
  }

  predicate EncodableFields(c: Cache, fields: seq<Field>, i: nat)
    requires Acyclic(c) && FieldsOk(fields, i)
    decreases i + 1, 0
  {
    forall k :: 0 <= k < |fields| ==> Encodable(c, fields[k].typ)
  }

  lemma ReadBackIf(cond: bool, b: seq<byte>, v: u32, data: seq<byte>, short: nat)
    requires WriteIf(cond, b, v) <= data && (!cond ==> short == v)
    ensures ReadIf(cond, At(data, b), short) == (v, At(data, WriteIf(cond, b, v)))
  {
    if cond { ReadBackU32(b, v, data); }
  }

  lemma {:induction false} FfsOfPower(a: nat)
    requires PowerOfTwo(a)
    ensures FfsOf(a) > 0 && a == Pow2(FfsOf(a) - 1)
  {
    if a > 1 { FfsOfPower(a / 2); }
  }

  lemma ReadBackAlign(b: seq<byte>, align: u32, data: seq<byte>)
    requires AlignmentOk(align) && WriteIf(AlignCode(align) == 15, b, align) <= data
    ensures ReadAlign(AlignCode(align), At(data, b)) == (align, At(data, WriteIf(AlignCode(align) == 15, b, align)))
  {
    if align > 0 { FfsOfPower(align); }
    if AlignCode(align) == 15 { ReadBackU32(b, align, data); }
  }

  lemma ReadBackQualifiers(b: seq<byte>, f: Field, data: seq<byte>)
    requires WriteQualifiers(b, f) <= data
    ensures ReadQualifiers(f.typ, At(data, b)) == Some((f, At(data, WriteQualifiers(b, f))))
  {
    hide WriteString, WriteU32, ReadString, ReadU32;
    var b1 := WriteString(b, f.name);
    var b2 := WriteU32(b1, AsWord(f.location));
    var b3 := WriteU32(b2, AsWord(f.component));
    var b4 := WriteU32(b3, AsWord(f.offset));
    var b5 := WriteU32(b4, AsWord(f.xfbBuffer));
    var b6 := WriteU32(b5, AsWord(f.xfbStride));
    var b7 := WriteU32(b6, f.imageFormat);
    var b8 := WriteU32(b7, f.flags);
    ReadBackString(b, f.name, data);
    ReadBackU32(b1, AsWord(f.location), data);
    ReadBackU32(b2, AsWord(f.component), data);
    ReadBackU32(b3, AsWord(f.offset), data);
    ReadBackU32(b4, AsWord(f.xfbBuffer), data);
    ReadBackU32(b5, AsWord(f.xfbStride), data);
    ReadBackU32(b6, f.imageFormat, data);
    ReadBackU32(b7, f.flags, data);
  }

  // ------------------------------------------------- what decoding rebuilds

  /** The type that `r` stands for in the cache `c`, built again through the constructors of `d`. */
  function Rebuild(c: Cache, d: Cache, r: Ref): (res: (Cache, Ref))
    requires Acyclic(c) && (r.Null? || RefOk(r, |c.arena|))
    decreases Rank(r), 1
  {
    match r
    case Interned(i) =>
      var rec := c.arena[i];
      assert RecordOk(rec, i);
      (match rec
       case ArrayRec(elem, length, stride) =>
         var (e, elem') := Rebuild(c, d, elem); Intern(e, ArrayRec(elem', length, stride))
       case StructRec(name, packed, align, fields) =>
         var (e, fields') := RebuildFields(c, d, fields, |fields|, i);
         Intern(e, StructRec(name, packed, align, fields'))
       case InterfaceRec(name, packing, rowMajor, fields) =>
         var (e, fields') := RebuildFields(c, d, fields, |fields|, i);
         Intern(e, InterfaceRec(name, packing, rowMajor, fields'))
       case _ => Intern(d, rec))
    case _ => (d, r)
  }

  function RebuildFields(c: Cache, d: Cache, fields: seq<Field>, n: nat, i: nat): (res: (Cache, seq<Field>))
    requires Acyclic(c) && i < |c.arena| && FieldsOk(fields, i) && n <= |fields|
    ensures |res.1| == n
    decreases i + 1, 0, n
  {
    if n == 0 then (d, [])
    else
      var (e, before) := RebuildFields(c, d, fields, n - 1, i);
      var (e', typ) := Rebuild(c, e, fields[n - 1].typ);
      (e', before + [fields[n - 1].(typ := typ)])
  }

  /**
   Decoding what was encoded, into any cache, rebuilds the type and stops exactly at the end of
   what was written, whatever came before and follows.
   */
  lemma {:induction false} DecodeRebuilds(c: Cache, d: Cache, b: seq<byte>, r: Ref, data: seq<byte>)
    requires Acyclic(c) && (r.Null? || RefOk(r, |c.arena|)) && Encodable(c, r)
    requires Encode(c, b, r) <= data
    ensures var (e, ref) := Rebuild(c, d, r); Decode(d, At(data, b)) == Some(Decoded(e, ref, At(data, Encode(c, b, r))))
    decreases Rank(r), 1
  {
    match r
    case Null => ReadBackU32(b, 0, data);
    case Static(s) => DecodeStatic(c, d, b, s, data);
    case Interned(i) =>
      assert RecordOk(c.arena[i], i);
      match c.arena[i] {
        case ExplicitRec(_, _, _, _, _, _) => DecodeExplicit(c, d, b, i, data);
        case ArrayRec(elem, length, stride) =>
          DecodeRebuilds(c, d, ArrayPrefix(b, length, stride), elem, data);
          RebuiltIsReal(c, d, elem);
          DecodeArray(c, d, b, i, data);
        case CmatRec(desc) => DecodeCmatBack(c, d, b, i, data);
        case StructRec(name, packed, align, fields) =>
          DecodeRecordBack(c, d, b, i, data, RecordWord(STRUCT, Flag(packed), false, |fields|, align), name, align,
                           fields);
        case InterfaceRec(name, packing, rowMajor, fields) =>
          DecodeRecordBack(c, d, b, i, data, RecordWord(INTERFACE, packing, rowMajor, |fields|, 0), name, 0, fields);
        case SubroutineRec(name) => DecodeSubroutineBack(c, d, b, i, data);
      }
  }

  lemma RebuiltIsReal(c: Cache, d: Cache, r: Ref)
    requires Acyclic(c) && RefOk(r, |c.arena|)
    ensures !Rebuild(c, d, r).1.Null?
  {
    hide Acyclic, RecordOk, Search, RecordHash, MatrixKeyOf, ArrayKeyOf, CmatKey, RebuildFields;
  }

  lemma StaticShape(c: Cache, s: Builtin)
    requires InBuiltinTable(s) && (s.Vec? || s.Mat?)
    ensures var (rows, cols) := if s.Vec? then (s.size, 1) else (s.rows, s.cols);
            && HasCode(rows, cols) && rows > 0
            && SimpleExplicit(c, s.base, rows, cols, 0, false, 0) == Some((c, Static(s)))
  {
    hide SimpleType, ExplicitType;
    BuiltinLookup(s);
  }

  lemma DecodeStatic(c: Cache, d: Cache, b: seq<byte>, s: Builtin, data: seq<byte>)
    requires Acyclic(c) && InBuiltinTable(s) && s != ErrorType && Encode(c, b, Static(s)) <= data
    ensures Decode(d, At(data, b)) == Some(Decoded(d, Static(s), At(data, Encode(c, b, Static(s)))))
  {
    hide WriteU32, ReadU32, DecodeBasic, EncodeBasic, DecodeHandle, HandleWord, Acyclic, SimpleExplicit,
         DecodeRecord, DecodeCmat, DecodeSubroutine, ReadArrayPrefix, InOpaqueTable;
    match s
    case Vec(base, n) =>
      StaticShape(d, s);
      DecodeBasicBack(d, b, base, false, n, 1, 0, 0, data, d, Static(s));
    case Mat(base, rows, cols) =>
      StaticShape(d, s);
      DecodeBasicBack(d, b, base, false, rows, cols, 0, 0, data, d, Static(s));
    case Opaque(_, _, _, _, _) => DecodeHandleBack(c, d, b, s, data);
    case AtomicUint => ReadBackU32(b, ATOMIC_UINT, data);
    case Void => ReadBackU32(b, VOID, data);
  }

  lemma DecodeHandleBack(c: Cache, d: Cache, b: seq<byte>, s: Builtin, data: seq<byte>)
    requires Acyclic(c) && InBuiltinTable(s) && s.Opaque? && Encode(c, b, Static(s)) <= data
    ensures Decode(d, At(data, b)) == Some(Decoded(d, Static(s), At(data, Encode(c, b, Static(s)))))
  {
    hide InBuiltinTable, SamplerType, TextureType, ImageType, WriteU32, ReadU32, HandleWord, Acyclic, Sub,
         InOpaqueTable,
         DecodeBasic, DecodeRecord, DecodeCmat, DecodeSubroutine, ReadArrayPrefix, EncodeBasic, SimpleType;
    BuiltinLookup(s);
    var Opaque(kind, dim, shadow, arrayed, sampled) := s;
    var code := if kind.Sampler? then SAMPLER else if kind.Texture? then TEXTURE else IMAGE;
    ReadBackU32(b, HandleWord(code, dim, shadow, arrayed, sampled), data);
    HandleWordParts(code, dim, shadow, arrayed, sampled);
    assert DimOf(DimCode(dim)) == Some(dim) && SampledOf(SampledCode(sampled)) == Some(sampled);
  }

  lemma CodesReadBack(base: Base, rows: nat, cols: nat)
    requires HasCode(rows, cols)
    ensures WidthOf(WidthCode(rows)) == rows && (WidthCode(rows) == 0 <==> rows == 0)
    ensures BaseOf(BaseCode(base)) == base
  {
  }

  /** The scalar, vector and matrix case, for whatever the constructor returns. */
  lemma DecodeBasicBack(d: Cache, b: seq<byte>, base: Base, rowMajor: bool, rows: nat, cols: nat, stride: u32,
                        align: u32,
                        data: seq<byte>, e: Cache, ref: Ref)
    requires HasCode(rows, cols) && (rows > 0 || cols > 0) && AlignmentOk(align)
    requires SimpleExplicit(d, base, rows, cols, stride, rowMajor, align) == Some((e, ref))
    requires EncodeBasic(b, base, rowMajor, rows, cols, stride, align) <= data
    ensures Decode(d, At(data, b)) ==
            Some(Decoded(e, ref, At(data, EncodeBasic(b, base, rowMajor, rows, cols, stride, align))))
  {
    hide SimpleExplicit, WriteU32, ReadU32, BasicWord, Sub, AlignmentOk, WriteIf, ReadIf, ReadAlign, BaseCode, BaseOf,
         WidthCode, WidthOf, AlignCode, DecodeRecord, DecodeHandle, DecodeCmat, DecodeSubroutine, ReadArrayPrefix;
    CodesReadBack(base, rows, cols);
    var w := BasicWord(base, rowMajor, rows, cols, stride, align);
    var b1 := WriteU32(b, w);
    var b2 := WriteIf(Min(stride, 0xffff) == 0xffff, b1, stride);
    ReadBackU32(b, w, data);
    BasicWordParts(base, rowMajor, rows, cols, stride, align);
    ReadBackIf(Min(stride, 0xffff) == 0xffff, b1, stride, data, Min(stride, 0xffff));
    ReadBackAlign(b2, align, data);
    SubOfZero(0x40, 8);
    SubOfZero(0x200, 8);
  }

  lemma SubOfZero(low: nat, width: nat)
    requires low > 0 && width > 0
    ensures Sub(0, low, width) == 0
  {
  }

  lemma DecodeExplicit(c: Cache, d: Cache, b: seq<byte>, i: nat, data: seq<byte>)
    requires Acyclic(c) && i < |c.arena| && c.arena[i].ExplicitRec? && HasCode(c.arena[i].rows, c.arena[i].cols)
    requires Encode(c, b, Interned(i)) <= data
    ensures var (e, ref) := Intern(d, c.arena[i]);
            Decode(d, At(data, b)) == Some(Decoded(e, ref, At(data, Encode(c, b, Interned(i)))))
  {
    hide Decode, EncodeBasic, AlignmentOk, ExplicitType;
    var ExplicitRec(base, rows, cols, stride, align, rowMajor) := c.arena[i];
    assert RecordOk(c.arena[i], i);
    var (e, ref) := Intern(d, c.arena[i]);
    DecodeBasicBack(d, b, base, rowMajor, rows, cols, stride, align, data, e, ref);
  }

  lemma ReadBackArrayPrefix(b: seq<byte>, length: u32, stride: u32, data: seq<byte>)
    requires ArrayPrefix(b, length, stride) <= data
    ensures var w := ArrayWord(length, stride);
            && w % 0x20 == ARRAY && ReadU32(At(data, b)) == (w, At(data, WriteU32(b, w)))
            && ReadArrayPrefix(At(data, WriteU32(b, w)), w)
               == (length, stride, At(data, ArrayPrefix(b, length, stride)))
  {
    hide Sub, ArrayWord, WriteU32, ReadU32, WriteIf, ReadIf;
    var w := ArrayWord(length, stride);
    var b1 := WriteU32(b, w);
    var b2 := WriteIf(Min(length, 0x1fff) == 0x1fff, b1, length);
    ReadBackU32(b, w, data);
    ArrayWordParts(length, stride);
    ReadBackIf(Min(length, 0x1fff) == 0x1fff, b1, length, data, Min(length, 0x1fff));
    ReadBackIf(Min(stride, 0x3fff) == 0x3fff, b2, stride, data, Min(stride, 0x3fff));
  }

  lemma DecodeArray(c: Cache, d: Cache, b: seq<byte>, i: nat, data: seq<byte>)
    requires Acyclic(c) && i < |c.arena| && c.arena[i].ArrayRec? && RefOk(c.arena[i].elem, |c.arena|)
    requires Encode(c, b, Interned(i)) <= data
    requires var ArrayRec(elem, length, stride) := c.arena[i];
             var b3, (e, ref) := ArrayPrefix(b, length, stride), Rebuild(c, d, elem);
             !ref.Null? && Decode(d, At(data, b3)) == Some(Decoded(e, ref, At(data, Encode(c, b3, elem))))
    ensures var (e, ref) := Rebuild(c, d, Interned(i));
            Decode(d, At(data, b)) == Some(Decoded(e, ref, At(data, Encode(c, b, Interned(i)))))
  {
    hide ArrayPrefix, ReadArrayPrefix, ReadU32, WriteU32, ArrayWord, ArrayType, DecodeBasic, DecodeRecord, DecodeHandle,
         DecodeCmat, DecodeSubroutine, EncodeRecord, EncodeBasic, HandleWord;
    var ArrayRec(elem, length, stride) := c.arena[i];
    ReadBackArrayPrefix(b, length, stride, data);
    assert Encode(c, b, Interned(i)) == Encode(c, ArrayPrefix(b, length, stride), elem);
  }

  lemma CmatBytesReadBack(desc: Cmat)
    requires CmatOk(desc)
    ensures CmatOf(CmatBytes(desc)) == desc
  {
  }

  lemma DecodeCmatBack(c: Cache, d: Cache, b: seq<byte>, i: nat, data: seq<byte>)
    requires Acyclic(c) && i < |c.arena| && c.arena[i].CmatRec?
    requires Encode(c, b, Interned(i)) <= data
    ensures var (e, ref) := Intern(d, c.arena[i]);
            Decode(d, At(data, b)) == Some(Decoded(e, ref, At(data, Encode(c, b, Interned(i)))))
  {
    hide CmatBytes, CmatOf, CmatType, WriteU32, ReadU32, WriteBytes, ReadBytes, DecodeBasic, DecodeRecord, DecodeHandle,
         DecodeSubroutine, ReadArrayPrefix, EncodeRecord, EncodeBasic, ArrayPrefix, HandleWord;
    var desc := c.arena[i].desc;
    assert RecordOk(c.arena[i], i);
    CmatBytesReadBack(desc);
    ReadBackU32(b, COOPERATIVE_MATRIX, data);
    ReadBackBytes(WriteU32(b, COOPERATIVE_MATRIX), CmatBytes(desc), data);
  }

  lemma DecodeSubroutineBack(c: Cache, d: Cache, b: seq<byte>, i: nat, data: seq<byte>)
    requires Acyclic(c) && i < |c.arena| && c.arena[i].SubroutineRec?
    requires Encode(c, b, Interned(i)) <= data
    ensures var (e, ref) := Intern(d, c.arena[i]);
            Decode(d, At(data, b)) == Some(Decoded(e, ref, At(data, Encode(c, b, Interned(i)))))
  {
    hide SubroutineType, WriteU32, ReadU32, WriteString, ReadString, DecodeBasic, DecodeRecord, DecodeHandle,
         DecodeCmat, ReadArrayPrefix, EncodeRecord, EncodeBasic, ArrayPrefix, HandleWord;
    ReadBackU32(b, SUBROUTINE, data);
    ReadBackString(WriteU32(b, SUBROUTINE), c.arena[i].name, data);
  }

  lemma {:induction false} DecodeRecordBack(c: Cache, d: Cache, b: seq<byte>, i: nat, data: seq<byte>,
                                            w: u32, name: Name, align: u32, fields: seq<Field>)
    requires Acyclic(c) && i < |c.arena| && (c.arena[i].StructRec? || c.arena[i].InterfaceRec?)
    requires FieldsOk(fields, i) && EncodableFields(c, fields, i)
    requires c.arena[i].StructRec? ==>
               && c.arena[i] == StructRec(name, c.arena[i].packed, align, fields)
               && w == RecordWord(STRUCT, Flag(c.arena[i].packed), false, |fields|, align) && AlignmentOk(align)
    requires c.arena[i].InterfaceRec? ==>
               && c.arena[i] == InterfaceRec(name, c.arena[i].packing, c.arena[i].rowMajor, fields)
               && c.arena[i].packing < 4
               && w == RecordWord(INTERFACE, c.arena[i].packing, c.arena[i].rowMajor, |fields|, 0) && align == 0
    requires EncodeRecord(c, b, w, name, align, fields, i) <= data
    ensures var (e, ref) := Rebuild(c, d, Interned(i));
            Decode(d, At(data, b)) == Some(Decoded(e, ref, At(data, EncodeRecord(c, b, w, name, align, fields, i))))
    decreases i + 1, 0, |fields| + 1
  {
    hide Acyclic, AlignmentOk, StructType, InterfaceType, WriteU32, ReadU32, WriteString, ReadString, WriteIf, ReadIf,
         ReadAlign,
         RecordWord, Sub, AlignCode, EncodeFields, DecodeFields, EncodableFields, DecodeBasic, DecodeHandle,
         DecodeCmat, DecodeSubroutine, ReadArrayPrefix, EncodeBasic, ArrayPrefix, HandleWord, RebuildFields;
    var b1 := WriteString(WriteU32(b, w), name);
    var b2 := WriteIf(Min(|fields|, 0xf_ffff) == 0xf_ffff, b1, |fields|);
    var b3 := WriteIf(AlignCode(align) == 15, b2, align);
    ReadBackU32(b, w, data);
    ReadBackString(WriteU32(b, w), name, data);
    if c.arena[i].StructRec? {
      RecordWordParts(STRUCT, Flag(c.arena[i].packed), false, |fields|, align);
    } else {
      RecordWordParts(INTERFACE, c.arena[i].packing, c.arena[i].rowMajor, |fields|, 0);
    }
    ReadBackIf(Min(|fields|, 0xf_ffff) == 0xf_ffff, b1, |fields|, data, Min(|fields|, 0xf_ffff));
    ReadBackAlign(b2, align, data);
    DecodeFieldsBack(c, d, b3, fields, |fields|, i, data);
  }

  lemma {:induction false} DecodeFieldsBack(c: Cache, d: Cache, b: seq<byte>, fields: seq<Field>, n: nat, i: nat,
                                            data: seq<byte>)
    requires Acyclic(c) && i < |c.arena| && FieldsOk(fields, i) && EncodableFields(c, fields, i) && n <= |fields|
    requires EncodeFields(c, b, fields, n, i) <= data
    ensures var (e, rebuilt) := RebuildFields(c, d, fields, n, i);
            DecodeFields(d, At(data, b), n) == Some((e, rebuilt, At(data, EncodeFields(c, b, fields, n, i))))
    decreases i + 1, 0, n
  {
    hide Acyclic, Encode, Decode, Encodable, WriteQualifiers, ReadQualifiers, Rebuild;
    if n > 0 {
      var f := fields[n - 1];
      var b1 := EncodeFields(c, b, fields, n - 1, i);
      var b2 := Encode(c, b1, f.typ);
      assert b1 <= b2 <= WriteQualifiers(b2, f) <= data;
      DecodeFieldsBack(c, d, b, fields, n - 1, i, data);
      var e := RebuildFields(c, d, fields, n - 1, i).0;
      DecodeRebuilds(c, e, b1, f.typ, data);
      SameQualifiers(b2, f, Rebuild(c, e, f.typ).1);
      ReadBackQualifiers(b2, f.(typ := Rebuild(c, e, f.typ).1), data);
    }
  }

  lemma SameQualifiers(b: seq<byte>, f: Field, typ: Ref)
    ensures WriteQualifiers(b, f.(typ := typ)) == WriteQualifiers(b, f)
  {
    hide WriteU32, WriteString;
  }

  // ------------------------------------------------- round trips

  /** Interning what is already there changes nothing and finds it. */
  lemma InternAgain(c: Cache, i: nat)
    requires Inv(c) && c.users > 0 && i < |c.arena|
    ensures Intern(c, c.arena[i]) == (c, Interned(i))
  {
    hide Filed, RecordsOk;
    SameKeyReflexive(c.arena[i]);
    InternMeets(c, i, c.arena[i]);
  }

  /** Rebuilding a type in its own cache changes nothing and finds it. */
  lemma {:induction false} RebuildAgain(c: Cache, r: Ref)
    requires Inv(c) && Acyclic(c) && c.users > 0 && (r.Null? || RefOk(r, |c.arena|))
    ensures Rebuild(c, c, r) == (c, r)
    decreases Rank(r), 1
  {
    hide Inv, Intern;
    if r.Interned? {
      var i := r.index;
      assert RecordOk(c.arena[i], i);
      InternAgain(c, i);
      match c.arena[i] {
        case ArrayRec(elem, _, _) => RebuildAgain(c, elem);
        case StructRec(_, _, _, fields) => RebuildFieldsAgain(c, fields, |fields|, i);
        case InterfaceRec(_, _, _, fields) => RebuildFieldsAgain(c, fields, |fields|, i);
        case _ =>
      }
    }
  }

  lemma {:induction false} RebuildFieldsAgain(c: Cache, fields: seq<Field>, n: nat, i: nat)
    requires Inv(c) && Acyclic(c) && c.users > 0 && i < |c.arena| && FieldsOk(fields, i) && n <= |fields|
    ensures RebuildFields(c, c, fields, n, i) == (c, fields[..n])
    ensures n == |fields| ==> RebuildFields(c, c, fields, n, i) == (c, fields)
    decreases i + 1, 0, n
  {
    hide Inv, Acyclic, Rebuild;
    if n > 0 {
      RebuildFieldsAgain(c, fields, n - 1, i);
      RebuildAgain(c, fields[n - 1].typ);
      assert fields[..n] == fields[..n - 1] + [fields[n - 1]];
    }
    assert n == |fields| ==> fields[..n] == fields;
  }

  /**
   Decoding in the same cache gives the very same type, leaves the cache as it was and consumes
   exactly what was written.
   */
  lemma RoundTrip(c: Cache, b: seq<byte>, r: Ref, data: seq<byte>)
    requires Inv(c) && Acyclic(c) && c.users > 0 && (r.Null? || RefOk(r, |c.arena|)) && Encodable(c, r)
    requires Encode(c, b, r) <= data
    ensures Decode(c, At(data, b)) == Some(Decoded(c, r, At(data, Encode(c, b, r))))
  {
    hide *;
    DecodeRebuilds(c, c, b, r, data);
    RebuildAgain(c, r);
  }
}
