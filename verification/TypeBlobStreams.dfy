/** Decoding any stream of bytes, also one that no encoding produced. */
module TypeBlobStreams {
  import opened Words
  import opened GlslTypes
  import opened TypeCache
  import opened Blobs
  import opened TypeBlob

  /** A builtin, a type allocated before position `bound`, or nothing, as the zero word gives. */
  predicate Leads(r: Ref, bound: nat) {
    r.Null? || RefOk(r, bound)
  }

  predicate FieldsLead(fields: seq<Field>, bound: nat) {
    |fields| < 0x1_0000_0000 && forall k :: 0 <= k < |fields| ==> Leads(fields[k].typ, bound)
  }

  /** What the constructors assert, except that a field may have no type. */
  predicate NearlyOk(rec: Record, bound: nat) {
    match rec
    case StructRec(_, _, align, fields) => AlignmentOk(align) && FieldsLead(fields, bound)
    case InterfaceRec(_, packing, _, fields) => packing < 4 && FieldsLead(fields, bound)
    case _ => RecordOk(rec, bound)
  }

  predicate Typed(rec: Record) {
    rec.StructRec? || rec.InterfaceRec? ==> forall k :: 0 <= k < |rec.fields| ==> !rec.fields[k].typ.Null?
  }

  /** The cache is in use and keeps its invariant, except that a field may have no type. */
  ghost predicate Sound(c: Cache) {
    c.users > 0 && Filed(c) && forall i :: 0 <= i < |c.arena| ==> NearlyOk(c.arena[i], i)
  }

  /** With a type for every field this is the invariant. */
  lemma SoundIsInv(c: Cache)
    ensures Inv(c) && c.users > 0 <==>
            Sound(c) && forall i :: 0 <= i < |c.arena| ==> Typed(c.arena[i])
  {
    hide Filed, AlignmentOk, ExplicitAsserted;
    forall i | 0 <= i < |c.arena| ensures RecordOk(c.arena[i], i) <==> NearlyOk(c.arena[i], i) && Typed(c.arena[i]) {
      NearlyIsOk(c.arena[i], i);
    }
  }

  lemma NearlyIsOk(rec: Record, i: nat)
    ensures RecordOk(rec, i) <==> NearlyOk(rec, i) && Typed(rec)
  {
  }

  /** Whatever a constructor is asked for, it answers with an allocated type. */
  lemma InternStaysSound(c: Cache, rec: Record)
    requires Sound(c) && NearlyOk(rec, |c.arena|)
    ensures var (d, r) := Intern(c, rec); Kept(c, d, r) && !r.Null?
  {
    hide Intern, Filed, NearlyOk;
    InternKeepsFiled(c, rec);
    InternAnswers(c, rec);
    InternAppends(c, rec);
    InternTables(c, rec);
  }

  /** What decoding keeps, and what it returns. */
  ghost predicate Kept(c: Cache, d: Cache, r: Ref) {
    Sound(d) && c.arena <= d.arena && Leads(r, |d.arena|)
  }

  lemma KeptChains(c: Cache, d: Cache, e: Cache, r: Ref, q: Ref)
    requires Kept(c, d, r) && Kept(d, e, q)
    ensures Kept(c, e, q)
  {
    hide Sound;
  }

  /**
   Whatever the bytes: if decoding gives a type, every type of the cache is still where it was and
   found under its key and only there, every part leads to a builtin or to an earlier type, and so
   does the result, or it is nothing.
   */
  lemma {:induction false} DecodeStaysSound(c: Cache, r: Reader)
    requires Sound(c)
    ensures var res := Decode(c, r); res.Some? ==> Kept(c, res.value.cache, res.value.ref)
    decreases Left(r), 0
  {
    hide Sound, DecodeBasic, DecodeCmat, DecodeHandle, DecodeSubroutine, DecodeRecord, ReadArrayPrefix, Intern;
    var (w, r1) := ReadU32(r);
    var code := w % 0x20;
    if w == 0 || code == ATOMIC_UINT || code == VOID {
      assert Kept(c, c, Null);
    } else if code < 15 {
      BasicStaysSound(c, r1, w);
    } else if code == COOPERATIVE_MATRIX {
      CmatStaysSound(c, r1);
    } else if code == SAMPLER || code == TEXTURE || code == IMAGE {
      HandleStaysSound(c, r1, w);
    } else if code == STRUCT || code == INTERFACE {
      RecordStaysSound(c, r1, w);
    } else if code == ARRAY {
      var (length, stride, r2) := ReadArrayPrefix(r1, w);
      DecodeStaysSound(c, r2);
      ArrayStaysSound(c, Decode(c, r2), length, stride);
    } else if code == SUBROUTINE {
      SubroutineStaysSound(c, r1);
    }
  }

  lemma BasicStaysSound(c: Cache, r: Reader, w: u32)
    requires Sound(c) && w % 0x20 < 15
    ensures var res := DecodeBasic(c, r, w); res.Some? ==> Kept(c, res.value.cache, res.value.ref)
  {
    hide Sound, ExplicitType, ExplicitAsserted;
    forall rec: Record | rec.ExplicitRec? && ExplicitAsserted(rec)
      ensures Kept(c, ExplicitType(c, rec).0, ExplicitType(c, rec).1)
    {
      InternStaysSound(c, rec);
    }
  }

  lemma CmatStaysSound(c: Cache, r: Reader)
    requires Sound(c)
    ensures var res := DecodeCmat(c, r); res.Some? ==> Kept(c, res.value.cache, res.value.ref)
  {
    hide Sound, CmatType, CmatOf, CmatOk;
    match ReadBytes(r, 8)
    case None =>
    case Some((s, r2)) =>
      CmatFits(s);
      InternStaysSound(c, CmatRec(CmatOf(s)));
  }

  lemma CmatFits(s: seq<byte>)
    requires |s| == 8
    ensures CmatOk(CmatOf(s))
  {
  }

  lemma HandleStaysSound(c: Cache, r: Reader, w: u32)
    requires Sound(c)
    ensures var res := DecodeHandle(c, r, w); res.Some? ==> Kept(c, res.value.cache, res.value.ref)
  {
    hide Sound, HandleType;
    HandleInTable(w % 0x20, w);
  }

  /** Every code finds a builtin of the tables, the error type included. */
  lemma HandleInTable(kind: nat, w: u32)
    ensures var r := HandleType(kind, w); r.Some? ==> RefOk(r.value, 0)
  {
    hide SamplerType, TextureType, ImageType, InOpaqueTable, SampledOf, DimOf, Sub;
    var shadow, arrayed := Sub(w, 0x200, 2) == 1, Sub(w, 0x400, 2) == 1;
    match SampledOf(Sub(w, 0x800, 0x20))
    case None =>
    case Some(s) =>
      LookupStaysInTable(Dim1D, shadow, arrayed, s);
      match DimOf(Sub(w, 0x20, 0x10))
      case None =>
      case Some(d) => LookupStaysInTable(d, shadow, arrayed, s);
  }

  lemma SubroutineStaysSound(c: Cache, r: Reader)
    requires Sound(c)
    ensures var res := DecodeSubroutine(c, r); res.Some? ==> Kept(c, res.value.cache, res.value.ref)
  {
    hide Sound, SubroutineType;
    match ReadString(r)
    case None =>
    case Some((name, r2)) => InternStaysSound(c, SubroutineRec(name));
  }

  lemma ArrayStaysSound(c: Cache, res: Option<Decoded>, length: u32, stride: u32)
    requires res.Some? ==> Kept(c, res.value.cache, res.value.ref)
    ensures res.Some? && !res.value.ref.Null? ==>
              var (d, r) := ArrayType(res.value.cache, ArrayRec(res.value.ref, length, stride)); Kept(c, d, r)
  {
    hide Sound, ArrayType;
    if res.Some? && !res.value.ref.Null? {
      var rec := ArrayRec(res.value.ref, length, stride);
      InternStaysSound(res.value.cache, rec);
      var (d, r) := Intern(res.value.cache, rec);
      KeptChains(c, res.value.cache, d, res.value.ref, r);
    }
  }

  lemma {:induction false} RecordStaysSound(c: Cache, r: Reader, w: u32)
    requires Sound(c)
    ensures var res := DecodeRecord(c, r, w); res.Some? ==> Kept(c, res.value.cache, res.value.ref)
    decreases Left(r), 2
  {
    hide Sound, DecodeFields, InterfaceType, StructType, ReadAlign, AlignmentOk;
    match ReadString(r)
    case None =>
    case Some((name, r1)) =>
      var (length, r2) := ReadIf(Sub(w, 0x100, 0x10_0000) == 0xf_ffff, r1, Sub(w, 0x100, 0x10_0000));
      var (align, r3) := ReadAlign(Sub(w, 0x1000_0000, 0x10), r2);
      FieldsStaySound(c, r3, length);
      match DecodeFields(c, r3, length)
      case None =>
      case Some((d, fields, r4)) =>
        NewRecordStaysSound(c, d, InterfaceRec(name, Sub(w, 0x20, 4), Sub(w, 0x80, 2) == 1, fields));
        if AlignmentOk(align) { NewRecordStaysSound(c, d, StructRec(name, Sub(w, 0x20, 4) != 0, align, fields)); }
  }

  lemma NewRecordStaysSound(c: Cache, d: Cache, rec: Record)
    requires Kept(c, d, Null) && NearlyOk(rec, |d.arena|)
    ensures var (e, r) := Intern(d, rec); Kept(c, e, r)
  {
    hide Sound, Intern;
    InternStaysSound(d, rec);
    KeptChains(c, d, Intern(d, rec).0, Null, Intern(d, rec).1);
  }

  lemma {:induction false} FieldsStaySound(c: Cache, r: Reader, n: nat)
    requires Sound(c) && n < 0x1_0000_0000
    ensures var res := DecodeFields(c, r, n);
            res.Some? ==> Kept(c, res.value.0, Null) && FieldsLead(res.value.1, |res.value.0.arena|)
    decreases Left(r), 1, n
  {
    hide Sound, Decode, ReadQualifiers;
    if n > 0 {
      FieldsStaySound(c, r, n - 1);
      match DecodeFields(c, r, n - 1)
      case None =>
      case Some((d, fields, r1)) =>
        DecodeStaysSound(d, r1);
        match Decode(d, r1)
        case None =>
        case Some(Decoded(e, typ, r2)) =>
          KeptChains(c, d, e, Null, typ);
          QualifiersKeepType(typ, r2);
    }
  }

  lemma QualifiersKeepType(typ: Ref, r: Reader)
    ensures ReadQualifiers(typ, r).Some? ==> ReadQualifiers(typ, r).value.0.typ == typ
  {
    hide ReadU32, ReadString;
  }
}
