/**
 The GLSL type system of src/compiler/glsl_types.c: builtin types, the records that the cache
 allocates, and the references that the rest of the compiler compares by identity.
 */
module GlslTypes {
  import opened Words
  import opened Products

  type byte = x: int | 0 <= x < 256
  type i32 = x: int | -0x8000_0000 <= x < 0x8000_0000

  /** A C string: no zero byte inside. */
  type Name = s: seq<byte> | forall i :: 0 <= i < |s| ==> s[i] != 0 witness []

  /** The base types that scalars, vectors and matrices are made of, in enumeration order. */
  datatype Base = Uint | Int | Float | Float16 | BFloat16 | E4M3FN | E5M2 | Double
                | Uint8 | Int8 | Uint16 | Int16 | Uint64 | Int64 | Bool

  datatype OpaqueKind = Sampler | Texture | Image

  datatype Dim = Dim1D | Dim2D | Dim3D | Cube | Rect | Buf | External | MS | Subpass | SubpassMS

  /** The types that sampling can return. */
  datatype Sampled = OfUint | OfInt | OfFloat | OfUint64 | OfInt64 | OfVoid

  datatype Builtin =
    | Vec(base: Base, size: nat)
    | Mat(base: Base, rows: nat, cols: nat)
    | Opaque(kind: OpaqueKind, dim: Dim, shadow: bool, arrayed: bool, sampled: Sampled)
    | AtomicUint
    | Void
    | ErrorType

  /** A `const glsl_type *`: null, a static builtin, or the i-th type the cache allocated. */
  datatype Ref = Null | Static(b: Builtin) | Interned(index: nat)

  datatype Cmat = Cmat(rows: nat, cols: nat, element: nat, scope: nat, use: nat)

  /** glsl_struct_field; `flags` is the union of the qualifier bit-fields. */
  datatype Field = Field(typ: Ref, name: Name, location: i32, component: i32, offset: i32,
                         xfbBuffer: i32, xfbStride: i32, imageFormat: u32, flags: u32)

  /** What the cache allocates. */
  datatype Record =
    | ExplicitRec(base: Base, rows: nat, cols: nat, stride: u32, align: u32, rowMajor: bool)
    | ArrayRec(elem: Ref, length: u32, stride: u32)
    | CmatRec(desc: Cmat)
    | StructRec(name: Name, packed: bool, align: u32, fields: seq<Field>)
    | InterfaceRec(name: Name, packing: nat, rowMajor: bool, fields: seq<Field>)
    | SubroutineRec(name: Name)

  predicate FloatingBase(b: Base) {
    b == Float || b == Double || b == Float16
  }

  /** The tables of builtin types, as generated from src/compiler/builtin_types.py. */
  predicate InBuiltinTable(b: Builtin) {
    match b
    case Vec(_, n) => n in {1, 2, 3, 4, 5, 8, 16}
    case Mat(base, r, c) => FloatingBase(base) && 2 <= r <= 4 && 2 <= c <= 4
    case Opaque(kind, d, shadow, arrayed, s) => InOpaqueTable(kind, d, shadow, arrayed, s)
    case AtomicUint => true
    case Void => true
    case ErrorType => true
  }

  predicate InOpaqueTable(kind: OpaqueKind, d: Dim, shadow: bool, arrayed: bool, s: Sampled) {
    match kind
    case Sampler =>
      if s.OfVoid? then d.Dim1D? && !arrayed
      else if shadow then s.OfFloat? && (d in {Dim1D, Dim2D, Cube} || (d.Rect? && !arrayed))
      else if d.External? then s.OfFloat? && !arrayed
      else s in {OfFloat, OfInt, OfUint} && (d in {Dim1D, Dim2D, Cube, MS} || (d in {Dim3D, Rect, Buf} && !arrayed))
    case Texture =>
      && !shadow
      && if s.OfVoid? then d in {Dim1D, Dim2D, MS} || (d in {Dim3D, Buf} && !arrayed)
         else if d.External? then s.OfFloat? && !arrayed
         else s in {OfFloat, OfInt, OfUint}
              && (d in {Dim1D, Dim2D, Cube, MS} || (d in {Dim3D, Rect, Buf, Subpass, SubpassMS} && !arrayed))
    case Image =>
      && !shadow
      && if s.OfVoid? then d in {Dim1D, Dim2D, MS} || (d in {Dim3D, Buf} && !arrayed)
         else if d in {Subpass, SubpassMS} then s in {OfFloat, OfInt, OfUint} && !arrayed
         else d in {Dim1D, Dim2D, Cube, MS} || (d in {Dim3D, Rect, Buf} && !arrayed)
  }

  /** glsl_simple_type for a numeric base: rows 6 and 7 are read as the 8 and 16 wide vectors. */
  function SimpleType(base: Base, rows: nat, cols: nat): (r: Builtin)
    ensures InBuiltinTable(r)
  {
    if cols == 1 then
      var n := if rows == 8 then 6 else if rows == 16 then 7 else rows;
      if n == 0 || n > 7 then ErrorType
      else Vec(base, if n == 6 then 8 else if n == 7 then 16 else n)
    else if !FloatingBase(base) || rows == 1 then ErrorType
    else
      var idx := (cols - 1) * 3 + (rows - 1);
      if 4 <= idx <= 12 then Mat(base, (idx - 4) % 3 + 2, (idx - 4) / 3 + 2) else ErrorType
  }

  /** glsl_sampler_type; ErrorType for the combinations it rejects. */
  function SamplerType(d: Dim, shadow: bool, arrayed: bool, s: Sampled): (r: Builtin) {
    match s
    case OfFloat =>
      (match d
       case Dim1D => Opaque(Sampler, d, shadow, arrayed, s)
       case Dim2D => Opaque(Sampler, d, shadow, arrayed, s)
       case Cube => Opaque(Sampler, d, shadow, arrayed, s)
       case Dim3D => if shadow || arrayed then ErrorType else Opaque(Sampler, d, false, false, s)
       case Rect => if arrayed then ErrorType else Opaque(Sampler, d, shadow, false, s)
       case Buf => if shadow || arrayed then ErrorType else Opaque(Sampler, d, false, false, s)
       case MS => if shadow then ErrorType else Opaque(Sampler, d, false, arrayed, s)
       case External => if shadow || arrayed then ErrorType else Opaque(Sampler, d, false, false, s)
       case Subpass => ErrorType
       case SubpassMS => ErrorType)
    case OfVoid => Opaque(Sampler, Dim1D, shadow, false, s)
    case OfUint64 => ErrorType
    case OfInt64 => ErrorType
    case _ =>
      if shadow then ErrorType
      else if d in {Dim1D, Dim2D, Cube, MS} then Opaque(Sampler, d, false, arrayed, s)
      else if d in {Dim3D, Rect, Buf} && !arrayed then Opaque(Sampler, d, false, false, s)
      else ErrorType
  }

  /** glsl_texture_type */
  function TextureType(d: Dim, arrayed: bool, s: Sampled): (r: Builtin) {
    match s
    case OfUint64 => ErrorType
    case OfInt64 => ErrorType
    case OfVoid =>
      if d in {Dim1D, Dim2D, MS} then Opaque(Texture, d, false, arrayed, s)
      else if d in {Dim3D, Buf} && !arrayed then Opaque(Texture, d, false, false, s)
      else ErrorType
    case _ =>
      if d in {Dim1D, Dim2D, Cube, MS} then Opaque(Texture, d, false, arrayed, s)
      else if d in {Subpass, SubpassMS} || (s.OfFloat? && d.Dim3D?) then Opaque(Texture, d, false, false, s)
      else if arrayed || (d.External? && !s.OfFloat?) then ErrorType
      else Opaque(Texture, d, false, false, s)
  }

  /** glsl_image_type */
  function ImageType(d: Dim, arrayed: bool, s: Sampled): (r: Builtin) {
    match s
    case OfVoid =>
      if d in {Dim1D, Dim2D, MS} then Opaque(Image, d, false, arrayed, s)
      else if d in {Dim3D, Buf} && !arrayed then Opaque(Image, d, false, false, s)
      else ErrorType
    case _ =>
      if d in {Dim1D, Dim2D, Cube, MS} then Opaque(Image, d, false, arrayed, s)
      else if d.External? || (d in {Subpass, SubpassMS} && s in {OfUint64, OfInt64}) then ErrorType
      else if d in {Subpass, SubpassMS} || (s.OfFloat? && d.Dim3D?) then Opaque(Image, d, false, false, s)
      else if arrayed then ErrorType
      else Opaque(Image, d, false, false, s)
  }

  /** Looking a builtin up by its own parameters gives that builtin, and only table entries come out. */
  lemma BuiltinLookup(b: Builtin)
    requires InBuiltinTable(b)
    ensures b.Vec? ==> SimpleType(b.base, b.size, 1) == b
    ensures b.Mat? ==> SimpleType(b.base, b.rows, b.cols) == b
    ensures b.Opaque? && b.kind.Sampler? ==> SamplerType(b.dim, b.shadow, b.arrayed, b.sampled) == b
    ensures b.Opaque? && b.kind.Texture? ==> !b.shadow && TextureType(b.dim, b.arrayed, b.sampled) == b
    ensures b.Opaque? && b.kind.Image? ==> !b.shadow && ImageType(b.dim, b.arrayed, b.sampled) == b
  {
  }

  lemma LookupStaysInTable(d: Dim, shadow: bool, arrayed: bool, s: Sampled)
    ensures InBuiltinTable(SamplerType(d, shadow, arrayed, s))
    ensures InBuiltinTable(TextureType(d, arrayed, s))
    ensures InBuiltinTable(ImageType(d, arrayed, s))
  {
    hide InBuiltinTable, SamplerType, TextureType, ImageType;
    SamplerInTable(d, shadow, arrayed, s);
    TextureInTable(d, arrayed, s);
    ImageInTable(d, arrayed, s);
  }

  lemma SamplerInTable(d: Dim, shadow: bool, arrayed: bool, s: Sampled)
    ensures InBuiltinTable(SamplerType(d, shadow, arrayed, s))
  {
  }

  lemma TextureInTable(d: Dim, arrayed: bool, s: Sampled)
    ensures InBuiltinTable(TextureType(d, arrayed, s))
  {
  }

  lemma ImageInTable(d: Dim, arrayed: bool, s: Sampled)
    ensures InBuiltinTable(ImageType(d, arrayed, s))
  {
  }

  /** The shape that glsl_simple_type finds is the shape that was asked for. */
  predicate RealShape(base: Base, rows: nat, cols: nat) {
    SimpleType(base, rows, cols) == if cols == 1 then Vec(base, rows) else Mat(base, rows, cols)
  }

  /** Real shapes are the table entries; every other shape is an error or some other entry. */
  lemma RealShapeExact(base: Base, rows: nat, cols: nat)
    ensures RealShape(base, rows, cols) <==>
            if cols == 1 then rows in {1, 2, 3, 4, 5, 8, 16}
            else FloatingBase(base) && 2 <= rows <= 4 && 2 <= cols <= 4
  {
  }

  /** A power of two, or zero for "no explicit alignment". */
  predicate AlignmentOk(a: nat) {
    a == 0 || PowerOfTwo(a)
  }

  predicate PowerOfTwo(a: nat) {
    a == 1 || (a > 1 && a % 2 == 0 && PowerOfTwo(a / 2))
  }

  // ------------------------------------------------- record comparison and hash

  /** A bit-field of `flags`: `width` values starting at weight `low`. */
  function Sub(flags: u32, low: nat, width: nat): (r: nat)
    requires low > 0 && width > 0
    ensures r < width
  {
    (flags / low) % width
  }

  /** The field-by-field comparison of glsl_record_compare, with everything matched. */
  predicate SameField(a: Field, b: Field) {
    && a.typ == b.typ
    && a.name == b.name
    && Sub(a.flags, 0x20, 4) == Sub(b.flags, 0x20, 4)          // matrix_layout
    && a.location == b.location
    && a.component == b.component
    && a.offset == b.offset
    && Sub(a.flags, 1, 8) == Sub(b.flags, 1, 8)                // interpolation
    && Sub(a.flags, 8, 2) == Sub(b.flags, 8, 2)                // centroid
    && Sub(a.flags, 0x10, 2) == Sub(b.flags, 0x10, 2)          // sample
    && Sub(a.flags, 0x80, 2) == Sub(b.flags, 0x80, 2)          // patch
    && Sub(a.flags, 0x1000, 2) == Sub(b.flags, 0x1000, 2)      // memory_read_only
    && Sub(a.flags, 0x2000, 2) == Sub(b.flags, 0x2000, 2)      // memory_write_only
    && Sub(a.flags, 0x4000, 2) == Sub(b.flags, 0x4000, 2)      // memory_coherent
    && Sub(a.flags, 0x8000, 2) == Sub(b.flags, 0x8000, 2)      // memory_volatile
    && Sub(a.flags, 0x1_0000, 2) == Sub(b.flags, 0x1_0000, 2)  // memory_restrict
    && a.imageFormat == b.imageFormat
    && Sub(a.flags, 0x100, 4) == Sub(b.flags, 0x100, 4)        // precision
    && Sub(a.flags, 0x2_0000, 2) == Sub(b.flags, 0x2_0000, 2)  // explicit_xfb_buffer
    && a.xfbBuffer == b.xfbBuffer
    && a.xfbStride == b.xfbStride
    && Sub(a.flags, 0x8_0000, 2) == Sub(b.flags, 0x8_0000, 2)  // per_primitive
  }

  /** The flags with pixel_local_storage, implicit_sized_array and the unused bits cleared. */
  function ComparedFlags(flags: u32): (r: u32) {
    flags % 0x400 + Sub(flags, 0x1000, 0x40) * 0x1000 + Sub(flags, 0x8_0000, 2) * 0x8_0000
  }

  /** What two fields have in common when they compare equal. */
  function FieldKey(f: Field): (r: Field) {
    f.(flags := ComparedFlags(f.flags))
  }

  /** A wide bit-field is its low part plus its high part. */
  lemma SubSplit(f: u32, low: nat, w: nat, high: nat)
    requires low > 0 && w > 0 && high > 0
    ensures low * w > 0 && w * high > 0
    ensures Sub(f, low, w * high) == Sub(f, low, w) + w * Sub(f, low * w, high)
  {
    MulPositive(low, w);
    MulPositive(w, high);
    var x, _ := DivRem(f, low);
    var q, r := DivRem(x, w);
    var q2, r2 := DivRem(q, high);
    DivDiv(f, low, w);
    SubSplitFacts(x, w, high, q, r, q2, r2);
    DivUnique(x, w * high, q2, r + w * r2);
  }

  lemma SubSplitFacts(x: nat, w: nat, high: nat, q: nat, r: nat, q2: nat, r2: nat)
    requires x == w * q + r && q == high * q2 + r2 && r < w && r2 < high
    ensures x == (w * high) * q2 + (r + w * r2)
    ensures 0 <= r + w * r2 < w * high
  {
    MulAdd(w, high * q2, r2);
    MulAssoc(w, high, q2);
    MulMono(w, r2, high - 1);
    MulAdd(w, high - 1, 1);
  }

  /** Comparison looks at exactly the parts that `FieldKey` keeps. */
  lemma SameFieldIsSameKey(a: Field, b: Field)
    ensures SameField(a, b) <==> FieldKey(a) == FieldKey(b)
  {
    FlagsSplit(a.flags, b.flags);
  }

  /** The kept flags agree iff each compared bit-field does. */
  lemma FlagsSplit(f: u32, g: u32)
    ensures ComparedFlags(f) == ComparedFlags(g) <==>
            && Sub(f, 1, 8) == Sub(g, 1, 8) && Sub(f, 8, 2) == Sub(g, 8, 2) && Sub(f, 0x10, 2) == Sub(g, 0x10, 2)
            && Sub(f, 0x20, 4) == Sub(g, 0x20, 4) && Sub(f, 0x80, 2) == Sub(g, 0x80, 2)
            && Sub(f, 0x100, 4) == Sub(g, 0x100, 4)
            && Sub(f, 0x1000, 2) == Sub(g, 0x1000, 2) && Sub(f, 0x2000, 2) == Sub(g, 0x2000, 2)
            && Sub(f, 0x4000, 2) == Sub(g, 0x4000, 2) && Sub(f, 0x8000, 2) == Sub(g, 0x8000, 2)
            && Sub(f, 0x1_0000, 2) == Sub(g, 0x1_0000, 2) && Sub(f, 0x2_0000, 2) == Sub(g, 0x2_0000, 2)
            && Sub(f, 0x8_0000, 2) == Sub(g, 0x8_0000, 2)
  {
    hide Sub;
    KeptParts(f, g);
    SubSplitEq(f, g, 1, 8, 0x80);
    SubSplitEq(f, g, 8, 2, 0x40);
    SubSplitEq(f, g, 0x10, 2, 0x20);
    SubSplitEq(f, g, 0x20, 4, 8);
    SubSplitEq(f, g, 0x80, 2, 4);
    SubSplitEq(f, g, 0x1000, 2, 0x20);
    SubSplitEq(f, g, 0x2000, 2, 0x10);
    SubSplitEq(f, g, 0x4000, 2, 8);
    SubSplitEq(f, g, 0x8000, 2, 4);
    SubSplitEq(f, g, 0x1_0000, 2, 2);
  }

  lemma KeptParts(f: u32, g: u32)
    ensures ComparedFlags(f) == ComparedFlags(g) <==>
            Sub(f, 1, 0x400) == Sub(g, 1, 0x400) && Sub(f, 0x1000, 0x40) == Sub(g, 0x1000, 0x40)
            && Sub(f, 0x8_0000, 2) == Sub(g, 0x8_0000, 2)
  {
    assert Sub(f, 1, 0x400) == f % 0x400 && Sub(g, 1, 0x400) == g % 0x400;
  }

  /** A wide bit-field agrees iff its low and high parts do. */
  lemma SubSplitEq(f: u32, g: u32, low: nat, w: nat, high: nat)
    requires low > 0 && w > 0 && high > 0
    ensures low * w > 0 && w * high > 0
    ensures Sub(f, low, w * high) == Sub(g, low, w * high) <==>
            Sub(f, low, w) == Sub(g, low, w) && Sub(f, low * w, high) == Sub(g, low * w, high)
  {
    SubSplit(f, low, w, high);
    SubSplit(g, low, w, high);
    SubBound(f, low, w);
    SubBound(g, low, w);
    hide Sub;
    var x, y := Sub(f, low, w * high), Sub(g, low, w * high);
    DivUnique(x, w, Sub(f, low * w, high), Sub(f, low, w));
    DivUnique(y, w, Sub(g, low * w, high), Sub(g, low, w));
  }

  lemma SubBound(f: u32, low: nat, w: nat)
    requires low > 0 && w > 0
    ensures 0 <= Sub(f, low, w) < w
  {
  }

  predicate SameFields(a: seq<Field>, b: seq<Field>) {
    |a| == |b| && forall i :: 0 <= i < |a| ==> SameField(a[i], b[i])
  }

  /** record_key_compare on two struct keys or two interface keys. */
  predicate SameRecord(a: Record, b: Record) {
    match (a, b)
    case (StructRec(n, p, al, f), StructRec(n', p', al', f')) => n == n' && p == p' && al == al' && SameFields(f, f')
    case (InterfaceRec(n, p, r, f), InterfaceRec(n', p', r', f')) => n == n' && p == p' && r == r' && SameFields(f, f')
    case _ => false
  }

  /** The loop of record_key_hash, over 64-bit addresses. */
  function HashFields(address: Ref -> nat, fields: seq<Field>, n: nat): (r: nat)
    requires n <= |fields|
  {
    if n == 0 then |fields|
    else (HashFields(address, fields, n - 1) * 13 + address(fields[n - 1].typ)) % 0x1_0000_0000_0000_0000
  }

  /** record_key_hash: the two halves of the 64-bit value are folded into one. */
  function RecordHash(address: Ref -> nat, fields: seq<Field>): (r: nat) {
    var hash := HashFields(address, fields, |fields|);
    Xor(hash % 0x1_0000_0000, hash / 0x1_0000_0000)
  }

  /** Records that compare equal hash equally, wherever the types are allocated. */
  lemma SameFieldsHash(address: Ref -> nat, a: seq<Field>, b: seq<Field>)
    requires SameFields(a, b)
    ensures RecordHash(address, a) == RecordHash(address, b)
  {
    SameFieldsHashPrefix(address, a, b, |a|);
  }

  lemma {:induction false} SameFieldsHashPrefix(address: Ref -> nat, a: seq<Field>, b: seq<Field>, n: nat)
    requires SameFields(a, b) && n <= |a|
    ensures HashFields(address, a, n) == HashFields(address, b, n)
  {
    if n > 0 { SameFieldsHashPrefix(address, a, b, n - 1); }
  }

  lemma SameFieldsIsSameKeys(a: seq<Field>, b: seq<Field>)
    ensures SameFields(a, b) <==> |a| == |b| && forall i :: 0 <= i < |a| ==> FieldKey(a[i]) == FieldKey(b[i])
  {
    forall i | 0 <= i < |a| && i < |b| { SameFieldIsSameKey(a[i], b[i]); }
  }
}
