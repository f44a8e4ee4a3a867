/** The shared cache object of src/compiler/glsl_types.c, updated in place. */
module TypeCacheObject {
  import opened Words
  import opened GlslTypes
  import opened TypeCache

  class GlslTypeCache {
    var users: nat
    var arena: seq<Record>
    const address: Ref -> nat
    var matrices: map<MatrixKey, nat>
    var arrays: map<ArrayKey, nat>
    var cmats: map<nat, nat>
    var structs: seq<Entry>
    var interfaces: seq<Entry>
    var subroutines: map<Name, nat>

    ghost function State(): (c: Cache)
      reads this
    {
      Cache(users, arena, address, matrices, arrays, cmats, structs, interfaces, subroutines)
    }

    ghost predicate Valid()
      reads this
    {
      Inv(State())
    }

    constructor (address: Ref -> nat)
      ensures State() == Empty(address) && Valid()
    {
      this.address := address;
      users, arena := 0, [];
      matrices, arrays, cmats, subroutines := map[], map[], map[], map[];
      structs, interfaces := [], [];
    }

    /** glsl_type_singleton_init_or_ref */
    method InitOrRef()
      modifies this
      ensures State() == AddUser(old(State()))
    {
      users := users + 1;
    }

    /** glsl_type_singleton_decref: the last user empties the cache. */
    method Decref()
      requires users > 0
      modifies this
      ensures State() == DropUser(old(State()))
    {
      users := users - 1;
      if users > 0 { return; }
      arena := [];
      matrices, arrays, cmats, subroutines := map[], map[], map[], map[];
      structs, interfaces := [], [];
    }

    method GetExplicit(rec: Record) returns (t: Ref)
      requires users > 0 && rec.ExplicitRec?
      modifies this
      ensures (State(), t) == Intern(old(State()), rec)
      ensures users == old(users)
      ensures old(Valid()) && ExplicitAsserted(rec) ==>
                Valid() && t.Interned? && t.index < |arena| && SameKey(rec, arena[t.index])
      ensures old(Valid() && Real(State())) && ExplicitAsserted(rec) && RealShape(rec.base, rec.rows, rec.cols) ==>
                arena[t.index] == rec
    {
      ghost var c := State();
      if Inv(c) && ExplicitAsserted(rec) {
        InternKeepsInv(c, rec);
        InternAnswers(c, rec);
        if Real(c) { ExplicitAnswersIff(c, rec); }
      }
      var key := MatrixKeyOf(rec);
      if key !in matrices {
        matrices := matrices[key := |arena|];
        arena := arena + [rec];
      }
      t := Interned(matrices[key]);
    }

    method GetArray(elem: Ref, length: u32, stride: u32) returns (t: Ref)
      requires users > 0
      modifies this
      ensures (State(), t) == Intern(old(State()), ArrayRec(elem, length, stride))
      ensures users == old(users)
      ensures old(Valid()) && RefOk(elem, old(|arena|)) ==>
                Valid() && t.Interned? && t.index < |arena| && arena[t.index] == ArrayRec(elem, length, stride)
    {
      ghost var c := State();
      var rec := ArrayRec(elem, length, stride);
      if Inv(c) && RefOk(elem, |arena|) { InternKeepsInv(c, rec); InternAnswers(c, rec); }
      var key := ArrayKey(elem, length, stride);
      if key !in arrays {
        arrays := arrays[key := |arena|];
        arena := arena + [rec];
      }
      t := Interned(arrays[key]);
    }

    method GetCmat(desc: Cmat) returns (t: Ref)
      requires users > 0
      modifies this
      ensures (State(), t) == Intern(old(State()), CmatRec(desc))
      ensures users == old(users)
      ensures old(Valid()) && CmatOk(desc) ==>
                Valid() && t.Interned? && t.index < |arena| && arena[t.index] == CmatRec(desc)
    {
      ghost var c := State();
      if Inv(c) && CmatOk(desc) {
        InternKeepsInv(c, CmatRec(desc));
        InternAnswers(c, CmatRec(desc));
        CmatAnswers(c, desc);
      }
      var key := CmatKey(desc);
      if key !in cmats {
        cmats := cmats[key := |arena|];
        arena := arena + [CmatRec(desc)];
      }
      t := Interned(cmats[key]);
    }

    method GetSubroutine(name: Name) returns (t: Ref)
      requires users > 0
      modifies this
      ensures (State(), t) == Intern(old(State()), SubroutineRec(name))
      ensures users == old(users)
      ensures old(Valid()) ==> Valid() && t.Interned? && t.index < |arena| && arena[t.index] == SubroutineRec(name)
    {
      ghost var c := State();
      if Inv(c) { InternKeepsInv(c, SubroutineRec(name)); InternAnswers(c, SubroutineRec(name)); }
      if name !in subroutines {
        subroutines := subroutines[name := |arena|];
        arena := arena + [SubroutineRec(name)];
      }
      t := Interned(subroutines[name]);
    }

    /** A hash table search that compares stored hashes before keys. */
    method Lookup(table: seq<Entry>, hash: nat, key: Record) returns (r: Option<nat>)
      ensures r == Search(arena, table, hash, key)
    {
      hide SameRecord;
      var i := 0;
      while i < |table|
        invariant i <= |table| && Search(arena, table, hash, key) == Search(arena, table[i..], hash, key)
      {
        var e := table[i];
        assert table[i..][1..] == table[i + 1..];
        if e.hash == hash && e.index < |arena| && SameRecord(key, arena[e.index]) { return Some(e.index); }
        i := i + 1;
      }
      return None;
    }

    method GetStruct(rec: Record) returns (t: Ref)
      requires users > 0 && rec.StructRec?
      modifies this
      ensures (State(), t) == Intern(old(State()), rec)
      ensures users == old(users)
      ensures old(Valid()) && RecordOk(rec, old(|arena|)) ==>
                Valid() && t.Interned? && t.index < |arena| && SameRecord(rec, arena[t.index])
    {
      ghost var c := State();
      if Inv(c) && RecordOk(rec, |arena|) { InternKeepsInv(c, rec); InternAnswers(c, rec); }
      hide RecordHash, SameRecord, Inv, RecordOk;
      var hash := RecordHash(address, rec.fields);
      var found := Lookup(structs, hash, rec);
      if found.Some? { return Interned(found.value); }
      t := Interned(|arena|);
      structs := structs + [Entry(hash, |arena|)];
      arena := arena + [rec];
    }

    method GetInterface(rec: Record) returns (t: Ref)
      requires users > 0 && rec.InterfaceRec?
      modifies this
      ensures (State(), t) == Intern(old(State()), rec)
      ensures users == old(users)
      ensures old(Valid()) && RecordOk(rec, old(|arena|)) ==>
                Valid() && t.Interned? && t.index < |arena| && SameRecord(rec, arena[t.index])
    {
      ghost var c := State();
      if Inv(c) && RecordOk(rec, |arena|) { InternKeepsInv(c, rec); InternAnswers(c, rec); }
      hide RecordHash, SameRecord, Inv, RecordOk;
      var hash := RecordHash(address, rec.fields);
      var found := Lookup(interfaces, hash, rec);
      if found.Some? { return Interned(found.value); }
      t := Interned(|arena|);
      interfaces := interfaces + [Entry(hash, |arena|)];
      arena := arena + [rec];
    }
  }
}

/** The blob and its reader as objects. */
module BlobObjects {
  import opened Words
  import opened GlslTypes
  import opened Blobs

  class Blob {
    var data: seq<byte>

    constructor ()
      ensures data == []
    {
      data := [];
    }

    method PutU32(v: u32)
      modifies this
      ensures data == WriteU32(old(data), v)
    {
      while |data| % 4 != 0
        invariant |old(data)| <= |data| <= |old(data)| + Padding(|old(data)|)
        invariant data == old(data) + Zeros(|data| - |old(data)|)
        decreases |old(data)| + Padding(|old(data)|) - |data|
      {
        data := data + [0];
      }
      data := data + LittleEndian(v);
    }

    method PutString(s: Name)
      modifies this
      ensures data == WriteString(old(data), s)
    {
      data := data + s + [0];
    }

    method PutBytes(s: seq<byte>)
      modifies this
      ensures data == WriteBytes(old(data), s)
    {
      data := data + s;
    }
  }

  class BlobReader {
    const data: seq<byte>
    var pos: nat
    var overrun: bool

    ghost function State(): (r: Reader)
      reads this
    {
      Reader(data, pos, overrun)
    }

    constructor (data: seq<byte>)
      ensures State() == Reader(data, 0, false)
    {
      this.data, pos, overrun := data, 0, false;
    }

    method TakeU32() returns (v: u32)
      modifies this
      ensures (v, State()) == ReadU32(old(State()))
    {
      pos := pos + Padding(pos);
      if overrun || pos + 4 > |data| {
        overrun := true;
        return 0;
      }
      v := FromLittleEndian(data[pos..pos + 4]);
      pos := pos + 4;
    }

    /** Nothing when the original returns a null pointer. */
    method TakeString() returns (s: Option<Name>)
      modifies this
      ensures match ReadString(old(State()))
              case None => s.None? && State() == old(State()).(overrun := true)
              case Some((n, r)) => s == Some(n) && State() == r
    {
      if overrun || pos >= |data| {
        overrun := true;
        return None;
      }
      var n := 0;
      while pos + n < |data| && data[pos + n] != 0
        invariant pos + n <= |data|
        invariant forall i :: pos <= i < pos + n ==> data[i] != 0
      {
        n := n + 1;
      }
      if pos + n == |data| {
        NoNul(data, pos);
        overrun := true;
        return None;
      }
      NulFound(data, pos, n);
      var name: Name := data[pos..pos + n];
      pos := pos + n + 1;
      return Some(name);
    }

    method TakeBytes(n: nat) returns (s: Option<seq<byte>>)
      modifies this
      ensures match ReadBytes(old(State()), n)
              case None => s.None? && State() == old(State()).(overrun := true)
              case Some((b, r)) => s == Some(b) && State() == r
    {
      if overrun || pos + n > |data| {
        overrun := true;
        return None;
      }
      s := Some(data[pos..pos + n]);
      pos := pos + n;
    }
  }

  lemma {:induction false} NoNul(data: seq<byte>, p: nat)
    requires p <= |data| && forall i :: p <= i < |data| ==> data[i] != 0
    ensures NulOffset(data, p).None?
    decreases |data| - p
  {
    if p < |data| { NoNul(data, p + 1); }
  }
}

/** encode_type_to_blob and decode_type_from_blob on the objects. */
module TypeBlobObjects {
  import opened Words
  import opened BitScan
  import opened GlslTypes
  import opened TypeCache
  import opened TypeTrees
  import opened Blobs
  import opened TypeBlob
  import opened TypeCacheObject
  import opened BlobObjects

  method PutIf(blob: Blob, cond: bool, v: u32)
    modifies blob
    ensures blob.data == WriteIf(cond, old(blob.data), v)
  {
    if cond { blob.PutU32(v); }
  }

  method PutBasic(blob: Blob, base: Base, rowMajor: bool, rows: nat, cols: nat, stride: u32, align: u32)
    modifies blob
    ensures blob.data == EncodeBasic(old(blob.data), base, rowMajor, rows, cols, stride, align)
  {
    hide WriteU32, BasicWord, WriteIf, AlignCode;
    blob.PutU32(BasicWord(base, rowMajor, rows, cols, stride, align));
    PutIf(blob, Min(stride, 0xffff) == 0xffff, stride);
    PutIf(blob, AlignCode(align) == 15, align);
  }

  method PutQualifiers(blob: Blob, f: Field)
    modifies blob
    ensures blob.data == WriteQualifiers(old(blob.data), f)
  {
    hide WriteU32, WriteString;
    blob.PutString(f.name);
    blob.PutU32(AsWord(f.location));
    blob.PutU32(AsWord(f.component));
    blob.PutU32(AsWord(f.offset));
    blob.PutU32(AsWord(f.xfbBuffer));
    blob.PutU32(AsWord(f.xfbStride));
    blob.PutU32(f.imageFormat);
    blob.PutU32(f.flags);
  }

  method PutStatic(blob: Blob, ghost c: Cache, s: Builtin)
    requires Acyclic(c) && InBuiltinTable(s)
    modifies blob
    ensures blob.data == Encode(c, old(blob.data), Static(s))
  {
    hide WriteU32, HandleWord, EncodeBasic, InOpaqueTable, Acyclic;
    match s
    case Vec(base, n) => PutBasic(blob, base, false, n, 1, 0, 0);
    case Mat(base, rows, cols) => PutBasic(blob, base, false, rows, cols, 0, 0);
    case Opaque(Sampler, d, shadow, arrayed, k) => blob.PutU32(HandleWord(SAMPLER, d, shadow, arrayed, k));
    case Opaque(Texture, d, _, arrayed, k) => blob.PutU32(HandleWord(TEXTURE, d, false, arrayed, k));
    case Opaque(Image, d, _, arrayed, k) => blob.PutU32(HandleWord(IMAGE, d, false, arrayed, k));
    case AtomicUint => blob.PutU32(ATOMIC_UINT);
    case Void => blob.PutU32(VOID);
    case ErrorType => blob.PutU32(0);
  }

  method EncodeType(cache: GlslTypeCache, blob: Blob, r: Ref)
    requires Acyclic(cache.State()) && (r.Null? || RefOk(r, |cache.arena|))
    modifies blob
    ensures blob.data == Encode(cache.State(), old(blob.data), r)
    decreases Rank(r), 1
  {
    if r.Null? { blob.PutU32(0); return; }
    if r.Static? { PutStatic(blob, cache.State(), r.b); return; }
    hide WriteU32, EncodeBasic, HandleWord, RecordWord, WriteString, ArrayPrefix, WriteBytes, CmatBytes, EncodeFields,
         AlignmentOk;
    var i := r.index;
    assert RecordOk(cache.arena[i], i);
    match cache.arena[i]
    case ExplicitRec(base, rows, cols, stride, align, rowMajor) =>
      PutBasic(blob, base, rowMajor, rows, cols, stride, align);
    case ArrayRec(elem, length, stride) =>
      PutArrayPrefix(blob, length, stride);
      EncodeType(cache, blob, elem);
    case CmatRec(d) =>
      blob.PutU32(COOPERATIVE_MATRIX);
      blob.PutBytes(CmatBytes(d));
    case StructRec(name, packed, align, fields) =>
      PutRecord(cache, blob, RecordWord(STRUCT, Flag(packed), false, |fields|, align), name, align, fields, i);
    case InterfaceRec(name, packing, rowMajor, fields) =>
      PutRecord(cache, blob, RecordWord(INTERFACE, packing, rowMajor, |fields|, 0), name, 0, fields, i);
    case SubroutineRec(name) =>
      blob.PutU32(SUBROUTINE);
      blob.PutString(name);
  }

  method PutArrayPrefix(blob: Blob, length: u32, stride: u32)
    modifies blob
    ensures blob.data == ArrayPrefix(old(blob.data), length, stride)
  {
    hide WriteU32, ArrayWord, WriteIf;
    blob.PutU32(ArrayWord(length, stride));
    PutIf(blob, Min(length, 0x1fff) == 0x1fff, length);
    PutIf(blob, Min(stride, 0x3fff) == 0x3fff, stride);
  }

  method PutRecord(cache: GlslTypeCache, blob: Blob, word: u32, name: Name, align: u32, fields: seq<Field>, i: nat)
    requires Acyclic(cache.State()) && i < |cache.arena| && FieldsOk(fields, i)
    modifies blob
    ensures blob.data == EncodeRecord(cache.State(), old(blob.data), word, name, align, fields, i)
    decreases i + 1, 0
  {
    hide WriteU32, WriteString, WriteIf, AlignCode, Encode, WriteQualifiers, Acyclic;
    blob.PutU32(word);
    blob.PutString(name);
    PutIf(blob, Min(|fields|, 0xf_ffff) == 0xf_ffff, |fields|);
    PutIf(blob, AlignCode(align) == 15, align);
    ghost var b := blob.data;
    for k := 0 to |fields|
      invariant blob.data == EncodeFields(cache.State(), b, fields, k, i)
    {
      EncodeType(cache, blob, fields[k].typ);
      PutQualifiers(blob, fields[k]);
    }
  }

  // ------------------------------------------------- decoding

  /** What a decoding method leaves behind when it succeeds. */
  ghost predicate Agrees(want: Option<Decoded>, got: Option<Ref>, c: Cache, r: Reader) {
    match want
    case None => got.None?
    case Some(d) => got == Some(d.ref) && c == d.cache && r == d.rest
  }

  method TakeIf(reader: BlobReader, cond: bool, short: nat) returns (v: nat)
    modifies reader
    ensures (v, reader.State()) == ReadIf(cond, old(reader.State()), short)
  {
    v := short;
    if cond { v := reader.TakeU32(); }
  }

  method TakeAlign(reader: BlobReader, code: nat) returns (v: u32)
    requires code <= 15
    modifies reader
    ensures (v, reader.State()) == ReadAlign(code, old(reader.State()))
  {
    if code == 15 {
      v := reader.TakeU32();
    } else if code == 0 {
      v := 0;
    } else {
      Pow2At32();
      Pow2Mono(code - 1, 31);
      v := Pow2(code - 1);
    }
  }

  method TakeQualifiers(reader: BlobReader, typ: Ref) returns (f: Option<Field>)
    modifies reader
    ensures match ReadQualifiers(typ, old(reader.State()))
            case None => f.None?
            case Some((g, r)) => f == Some(g) && reader.State() == r
  {
    hide ReadU32, ReadString, AsInt;
    var name := reader.TakeString();
    if name.None? { return None; }
    var location := reader.TakeU32();
    var component := reader.TakeU32();
    var offset := reader.TakeU32();
    var xfbBuffer := reader.TakeU32();
    var xfbStride := reader.TakeU32();
    var imageFormat := reader.TakeU32();
    var flags := reader.TakeU32();
    f := Some(Field(typ, name.value, AsInt(location), AsInt(component), AsInt(offset), AsInt(xfbBuffer),
                    AsInt(xfbStride),
                    imageFormat, flags));
  }

  method DecodeBasicType(reader: BlobReader, cache: GlslTypeCache, w: u32) returns (res: Option<Ref>)
    requires w % 0x20 < 15 && cache.users > 0
    modifies reader, cache
    ensures Agrees(DecodeBasic(old(cache.State()), old(reader.State()), w), res, cache.State(), reader.State())
    ensures cache.users == old(cache.users)
  {
    hide Sub, ReadIf, ReadAlign, BaseOf, WidthOf, ExplicitAsserted, SimpleType, Inv;
    var code := Sub(w, 0x1000, 0x1_0000);
    var stride := TakeIf(reader, code == 0xffff, code);
    var align := TakeAlign(reader, Sub(w, 0x1000_0000, 0x10));
    var base, rows, cols, rowMajor := BaseOf(w % 0x20), WidthOf(Sub(w, 0x40, 8)), Sub(w, 0x200, 8),
      Sub(w, 0x20, 2) == 1;
    var rec := ExplicitRec(base, rows, cols, stride, align, rowMajor);
    if stride > 0 || align > 0 {
      if !ExplicitAsserted(rec) { return None; }
      var t := cache.GetExplicit(rec);
      return Some(t);
    }
    if rowMajor { return None; }
    return Some(Static(SimpleType(base, rows, cols)));
  }

  method DecodeType(reader: BlobReader, cache: GlslTypeCache) returns (res: Option<Ref>)
    requires cache.users > 0
    modifies reader, cache
    ensures Agrees(Decode(old(cache.State()), old(reader.State())), res, cache.State(), reader.State())
    ensures cache.users == old(cache.users)
    decreases Left(reader.State()), 0
  {
    hide ReadU32, DecodeBasic, DecodeCmat, DecodeHandle, DecodeRecord, ReadArrayPrefix, DecodeSubroutine, Sub,
         ArrayType, Inv;
    ghost var c := cache.State();
    var w := reader.TakeU32();
    if w == 0 { return Some(Null); }
    var code := w % 0x20;
    if code < 15 {
      res := DecodeBasicType(reader, cache, w);
    } else if code == COOPERATIVE_MATRIX {
      res := DecodeCmatType(reader, cache);
    } else if code == SAMPLER || code == TEXTURE || code == IMAGE {
      res := DecodeHandleType(reader, c, w);
    } else if code == ATOMIC_UINT {
      res := Some(Static(AtomicUint));
    } else if code == STRUCT || code == INTERFACE {
      res := DecodeRecordType(reader, cache, w);
    } else if code == ARRAY {
      var length, stride := TakeArrayPrefix(reader, w);
      var elem := DecodeType(reader, cache);
      if elem.None? || elem.value.Null? { return None; }
      var t := cache.GetArray(elem.value, length, stride);
      res := Some(t);
    } else if code == VOID {
      res := Some(Static(Void));
    } else if code == SUBROUTINE {
      res := DecodeSubroutineType(reader, cache);
    } else {
      res := None;
    }
  }

  method TakeArrayPrefix(reader: BlobReader, w: u32) returns (length: u32, stride: u32)
    modifies reader
    ensures (length, stride, reader.State()) == ReadArrayPrefix(old(reader.State()), w)
  {
    hide Sub, ReadIf;
    length := TakeIf(reader, Sub(w, 0x20, 0x2000) == 0x1fff, Sub(w, 0x20, 0x2000));
    stride := TakeIf(reader, Sub(w, 0x4_0000, 0x4000) == 0x3fff, Sub(w, 0x4_0000, 0x4000));
  }

  method DecodeCmatType(reader: BlobReader, cache: GlslTypeCache) returns (res: Option<Ref>)
    requires cache.users > 0
    modifies reader, cache
    ensures Agrees(DecodeCmat(old(cache.State()), old(reader.State())), res, cache.State(), reader.State())
    ensures cache.users == old(cache.users)
  {
    hide ReadBytes, CmatKey, Inv;
    var bytes := reader.TakeBytes(8);
    if bytes.None? { return None; }
    var t := cache.GetCmat(CmatOf(bytes.value));
    res := Some(t);
  }

  method DecodeHandleType(reader: BlobReader, ghost c: Cache, w: u32) returns (res: Option<Ref>)
    ensures Agrees(DecodeHandle(c, reader.State(), w), res, c, reader.State())
  {
    res := HandleType(w % 0x20, w);
  }

  method DecodeSubroutineType(reader: BlobReader, cache: GlslTypeCache) returns (res: Option<Ref>)
    requires cache.users > 0
    modifies reader, cache
    ensures Agrees(DecodeSubroutine(old(cache.State()), old(reader.State())), res, cache.State(), reader.State())
    ensures cache.users == old(cache.users)
  {
    hide ReadString, Inv;
    var name := reader.TakeString();
    if name.None? { return None; }
    var t := cache.GetSubroutine(name.value);
    res := Some(t);
  }

  method DecodeRecordType(reader: BlobReader, cache: GlslTypeCache, w: u32) returns (res: Option<Ref>)
    requires cache.users > 0
    modifies reader, cache
    ensures Agrees(DecodeRecord(old(cache.State()), old(reader.State()), w), res, cache.State(), reader.State())
    ensures cache.users == old(cache.users)
    decreases Left(reader.State()), 2
  {
    hide ReadString, ReadIf, ReadAlign, DecodeFields, Sub, StructType, InterfaceType, AlignmentOk, Inv;
    var name := reader.TakeString();
    if name.None? { return None; }
    var short := Sub(w, 0x100, 0x10_0000);
    var length := TakeIf(reader, short == 0xf_ffff, short);
    var align := TakeAlign(reader, Sub(w, 0x1000_0000, 0x10));
    var fields := DecodeFieldList(reader, cache, length);
    if fields.None? { return None; }
    if w % 0x20 == INTERFACE {
      if align != 0 { return None; }
      var t := cache.GetInterface(InterfaceRec(name.value, Sub(w, 0x20, 4), Sub(w, 0x80, 2) == 1, fields.value));
      return Some(t);
    }
    if !AlignmentOk(align) { return None; }
    var t := cache.GetStruct(StructRec(name.value, Sub(w, 0x20, 4) != 0, align, fields.value));
    res := Some(t);
  }

  /** The loop over the fields; what is left to decode is determined by what was decoded so far. */
  method DecodeFieldList(reader: BlobReader, cache: GlslTypeCache, n: nat) returns (fields: Option<seq<Field>>)
    requires cache.users > 0
    modifies reader, cache
    ensures match DecodeFields(old(cache.State()), old(reader.State()), n)
            case None => fields.None?
            case Some((c, s, r)) => fields == Some(s) && cache.State() == c && reader.State() == r
    ensures cache.users == old(cache.users)
    decreases Left(reader.State()), 1
  {
    hide Decode, ReadQualifiers, Inv;
    ghost var c, r := cache.State(), reader.State();
    var list := [];
    for k := 0 to n
      invariant cache.users == old(cache.users)
      invariant DecodeFields(c, r, k) == Some((cache.State(), list, reader.State()))
    {
      var typ := DecodeType(reader, cache);
      if typ.None? {
        StopsAt(c, r, k, n);
        return None;
      }
      var f := TakeQualifiers(reader, typ.value);
      if f.None? {
        StopsAt(c, r, k, n);
        return None;
      }
      list := list + [f.value];
    }
    fields := Some(list);
  }

  /** Once a field does not decode, no longer list does. */
  lemma {:induction false} StopsAt(c: Cache, r: Reader, k: nat, n: nat)
    requires k < n && DecodeFields(c, r, k + 1).None?
    ensures DecodeFields(c, r, n).None?
    decreases n
  {
    hide Decode, ReadQualifiers;
    if k + 1 < n { StopsAt(c, r, k, n - 1); }
  }
}
