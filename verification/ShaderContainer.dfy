/**
 The shader container: buildshaderbinary of libpsbc/psbc_compile.c computes its size, writes it in
 one pass with a running offset, and the accessors of include/pssl_types.h find their way through
 it again.  What the individual structures hold is a parameter; their sizes and places are the
 subject.
 */
module ShaderContainer {
  import opened Words
  import opened Products
  import opened GlslTypes
  import opened Blobs

  const HEADER_SIZE: nat := 0x24
  const PARAM_SIZE: nat := 0x1c
  /** Where `codesize` is in the PsslBinaryHeader. */
  const CODE_SIZE_AT: nat := 16

  datatype Stage = VertexStage | TessEvalStage | FragmentStage | ComputeStage | GeometryStage | TessCtrlStage
                 | ExportStage | LocalStage | OtherStage

  datatype MesaStage = MesaVertex | MesaTessEval | MesaFragment | MesaGeometry | MesaTessCtrl | MesaOther

  /** The shader structures of the gnm headers. */
  datatype Gnm = VsShader | EsShader | LsShader | PsShader | CsShader | GsShader | HsShader

  /** Sizes of the structures that the gnm headers define. */
  datatype Sizes = Sizes(vs: nat, es: nat, ls: nat, ps: nat, cs: nat, gs: nat, hs: nat,
                         fileHeader: nat, binaryInfo: nat, slot: nat,
                         vertexInput: nat, vertexExport: nat, pixelInput: nat)

  type Bytes = seq<byte>

  /** What the fields of a shader structure are filled from. */
  datatype Facts = Facts(specific: nat, shaderSize: nat, slots: nat)

  /** One build: the stage, what it uses, and the contents of everything that is written. */
  datatype Context = Context(
    sizes: Sizes,
    stage: Stage,
    mesa: MesaStage,
    headerFront: Bytes, headerBack: Bytes,
    fileHeader: nat -> Bytes,
    structure: (Gnm, Facts) -> Bytes,
    prologInputs: Option<Bytes>, vertexBuffers: Option<Bytes>, descriptors: Option<Bytes>,
    inputsRead: nat, outputsWritten: nat, pixelInputs: nat,
    input: nat -> Bytes, output: nat -> Bytes, pixel: nat -> Bytes,
    prolog: Option<Bytes>, code: Bytes,
    binaryInfo: (nat, nat, nat) -> Bytes)

  predicate Represented(s: Stage) {
    s != OtherStage
  }

  predicate VertexFamily(c: Context) {
    c.mesa == MesaVertex || c.stage == ExportStage || c.stage == LocalStage
  }

  /** The size of a structure. */
  function SizeOf(sizes: Sizes, g: Gnm): (n: nat) {
    match g
    case VsShader => sizes.vs case EsShader => sizes.es case LsShader => sizes.ls case PsShader => sizes.ps
    case CsShader => sizes.cs case GsShader => sizes.gs case HsShader => sizes.hs
  }

  /** What the contents of every structure must satisfy: the sizes are theirs. */
  ghost predicate Sized(c: Context) {
    && |c.headerFront| == CODE_SIZE_AT && |c.headerBack| == HEADER_SIZE - CODE_SIZE_AT - 4
    && (forall n :: |c.fileHeader(n)| == c.sizes.fileHeader)
    && (forall g, f :: |c.structure(g, f)| == SizeOf(c.sizes, g))
    && (forall n, k, m :: |c.binaryInfo(n, k, m)| == c.sizes.binaryInfo)
    && (c.prologInputs.Some? ==> |c.prologInputs.value| == c.sizes.slot)
    && (c.vertexBuffers.Some? ==> |c.vertexBuffers.value| == c.sizes.slot)
    && (c.descriptors.Some? ==> |c.descriptors.value| == c.sizes.slot)
    && (forall i :: |c.input(i)| == c.sizes.vertexInput)
    && (forall i :: |c.output(i)| == c.sizes.vertexExport)
    && (forall i :: |c.pixel(i)| == c.sizes.pixelInput)
    && (c.prolog.Some? ==> |c.prolog.value| == 4)
    && |c.code| % 4 == 0
  }

  // ------------------------------------------------- sizes computed beforehand

  /** headershsize */
  function HeaderSize(sizes: Sizes, stage: Stage): (n: nat) {
    match stage
    case VertexStage => sizes.vs
    case TessEvalStage => sizes.vs
    case ExportStage => sizes.es
    case LocalStage => sizes.ls
    case FragmentStage => sizes.ps
    case ComputeStage => sizes.cs
    case GeometryStage => sizes.gs
    case TessCtrlStage => sizes.hs
    case OtherStage => sizes.vs
  }

  function Times(n: nat, size: nat): (r: nat) {
    MulPositive(n, size);
    n * size
  }

  function CodeSize(c: Context): (n: nat) {
    |c.code| + if c.prolog.Some? then 4 else 0
  }

  /** numinputslots */
  function SlotCount(c: Context): (n: nat) {
    (if VertexFamily(c) && c.prologInputs.Some? then 1 else 0)
    + (if VertexFamily(c) && c.vertexBuffers.Some? then 1 else 0)
    + (if c.descriptors.Some? then 1 else 0)
  }

  function SemanticsSize(c: Context): (n: nat) {
    var inputs, outputs := Times(c.inputsRead, c.sizes.vertexInput), Times(c.outputsWritten, c.sizes.vertexExport);
    match c.mesa
    case MesaVertex => inputs + outputs
    case MesaTessEval => inputs + outputs
    case MesaFragment => Times(c.pixelInputs, c.sizes.pixelInput)
    case MesaGeometry => inputs + outputs
    case MesaTessCtrl => inputs
    case MesaOther => 0
  }

  /** shspecificsize before the padding. */
  function RawSize(c: Context): (n: nat) {
    HeaderSize(c.sizes, c.stage) + Times(SlotCount(c), c.sizes.slot) + SemanticsSize(c)
  }

  /** shspecificsize */
  function SpecificSize(c: Context): (n: nat)
    ensures n % 4 == 0
  {
    RawSize(c) + Padding(RawSize(c))
  }

  /** The codesize of the header. */
  function PayloadSize(c: Context): (n: nat) {
    c.sizes.fileHeader + SpecificSize(c) + CodeSize(c) + c.sizes.binaryInfo
  }

  function TotalSize(c: Context): (n: nat) {
    HEADER_SIZE + PayloadSize(c) + PARAM_SIZE
  }

  // ------------------------------------------------- what is written

  function Concat(s: seq<Bytes>): (r: Bytes) {
    if s == [] then [] else Concat(s[..|s| - 1]) + s[|s| - 1]
  }

  /** The first `n` records. */
  function Records(record: nat -> Bytes, n: nat): (s: seq<Bytes>)
    ensures |s| == n && forall i :: 0 <= i < n ==> s[i] == record(i)
  {
    if n == 0 then [] else Records(record, n - 1) + [record(n - 1)]
  }

  lemma {:induction false} RecordsSize(record: nat -> Bytes, n: nat, size: nat)
    requires forall i :: |record(i)| == size
    ensures |Concat(Records(record, n))| == Times(n, size)
  {
    if n > 0 {
      RecordsSize(record, n - 1, size);
      assert Records(record, n)[..n - 1] == Records(record, n - 1);
      MulAdd(size, n - 1, 1);
    }
  }

  function OptionBytes(cond: bool, s: Option<Bytes>): (r: Bytes) {
    if cond && s.Some? then s.value else []
  }

  /** The structure that the stage's branch writes; nothing for other stages. */
  function Structure(c: Context): (s: Option<Bytes>) {
    var facts := Facts(SpecificSize(c), CodeSize(c) + c.sizes.binaryInfo, SlotCount(c));
    match c.stage
    case VertexStage => Some(c.structure(VsShader, facts))
    case TessEvalStage => Some(c.structure(VsShader, facts))
    case FragmentStage => Some(c.structure(PsShader, facts))
    case ComputeStage => Some(c.structure(CsShader, facts))
    case GeometryStage => Some(c.structure(GsShader, facts))
    case TessCtrlStage => Some(c.structure(HsShader, facts))
    case ExportStage => Some(c.structure(EsShader, facts))
    case LocalStage => Some(c.structure(LsShader, facts))
    case OtherStage => None
  }

  /** The usage slots, in order. */
  function Slots(c: Context): (b: Bytes) {
    OptionBytes(VertexFamily(c), c.prologInputs) + OptionBytes(VertexFamily(c), c.vertexBuffers)
    + OptionBytes(true, c.descriptors)
  }

  /** The semantics that the mesa stage asks for, in order. */
  function Semantics(c: Context): (b: Bytes) {
    var inputs, outputs := Concat(Records(c.input, c.inputsRead)), Concat(Records(c.output, c.outputsWritten));
    match c.mesa
    case MesaVertex => inputs + outputs
    case MesaTessEval => inputs + outputs
    case MesaFragment => Concat(Records(c.pixel, c.pixelInputs))
    case MesaGeometry => inputs + outputs
    case MesaTessCtrl => inputs
    case MesaOther => []
  }

  function Header(c: Context): (b: Bytes)
    requires PayloadSize(c) < 0x1_0000_0000
  {
    c.headerFront + LittleEndian(PayloadSize(c)) + c.headerBack
  }

  function Code(c: Context): (b: Bytes) {
    OptionBytes(true, c.prolog) + c.code
  }

  /** The headers. */
  function Top(c: Context): (b: Bytes)
    requires PayloadSize(c) < 0x1_0000_0000 && Represented(c.stage)
  {
    Header(c) + c.fileHeader(SpecificSize(c) / 4) + Structure(c).value
  }

  /** Everything up to the binary info. */
  function Front(c: Context): (b: Bytes)
    requires PayloadSize(c) < 0x1_0000_0000 && Represented(c.stage)
  {
    Top(c) + Slots(c) + Semantics(c) + Zeros(Padding(RawSize(c))) + Code(c)
  }

  /** Where the slots are expected to start. */
  function SlotsAt(c: Context): (n: nat) {
    HEADER_SIZE + c.sizes.fileHeader + HeaderSize(c.sizes, c.stage)
  }

  /** chunkusageoffset, from where the binary info goes. */
  function Chunk(c: Context, infoAt: int): (n: u32) {
    if SlotCount(c) > 0 then ((infoAt - SlotsAt(c)) / 4) % 0x1_0000_0000 else 0
  }

  function File(c: Context): (b: Bytes)
    requires PayloadSize(c) < 0x1_0000_0000 && Represented(c.stage)
  {
    Front(c) + c.binaryInfo(CodeSize(c), Chunk(c, |Front(c)|), SlotCount(c)) + Zeros(PARAM_SIZE)
  }

  // ------------------------------------------------- the sizes agree

  /** The branch that writes the structure and headershsize agree, for every represented stage. */
  lemma StructureSize(c: Context)
    requires Sized(c) && Represented(c.stage)
    ensures Structure(c).Some? && |Structure(c).value| == HeaderSize(c.sizes, c.stage)
  {
    hide SpecificSize, CodeSize, SlotCount;
  }

  lemma SlotsSize(c: Context)
    requires Sized(c)
    ensures |Slots(c)| == Times(SlotCount(c), c.sizes.slot)
  {
    var size := c.sizes.slot;
    assert 0 * size == 0 && 1 * size == size && 2 * size == size + size && 3 * size == size + size + size;
  }

  lemma SemanticsAgree(c: Context)
    requires Sized(c)
    ensures |Semantics(c)| == SemanticsSize(c)
  {
    hide Concat, Records, Times;
    RecordsSize(c.input, c.inputsRead, c.sizes.vertexInput);
    RecordsSize(c.output, c.outputsWritten, c.sizes.vertexExport);
    RecordsSize(c.pixel, c.pixelInputs, c.sizes.pixelInput);
  }

  lemma HeaderAgrees(c: Context)
    requires Sized(c) && PayloadSize(c) < 0x1_0000_0000
    ensures |Header(c)| == HEADER_SIZE && |Code(c)| == CodeSize(c) && CodeSize(c) % 4 == 0
  {
    hide PayloadSize;
  }

  lemma TopSize(c: Context)
    requires Sized(c) && PayloadSize(c) < 0x1_0000_0000 && Represented(c.stage)
    ensures |Top(c)| == SlotsAt(c)
  {
    hide PayloadSize, SpecificSize, Header, Structure, HeaderSize;
    HeaderAgrees(c);
    StructureSize(c);
  }

  lemma FrontSize(c: Context)
    requires Sized(c) && PayloadSize(c) < 0x1_0000_0000 && Represented(c.stage)
    ensures |Front(c)| == HEADER_SIZE + c.sizes.fileHeader + SpecificSize(c) + CodeSize(c)
  {
    hide PayloadSize, Top, Slots, Semantics, SlotCount, SemanticsSize, Times, Code, HeaderSize, Sized, CodeSize;
    TopSize(c);
    SlotsSize(c);
    SemanticsAgree(c);
    HeaderAgrees(c);
  }

  /** The precomputed size is the size of what is written, for every represented stage and all counts. */
  lemma FileSizes(c: Context)
    requires Sized(c) && PayloadSize(c) < 0x1_0000_0000 && Represented(c.stage)
    ensures |File(c)| == TotalSize(c)
  {
    hide Front, SpecificSize, CodeSize, Chunk, SlotCount;
    FrontSize(c);
  }

  // ------------------------------------------------- writing it

  /** memcpy at the running offset. */
  method Put(buf: array<byte>, offset: nat, s: Bytes) returns (next: nat)
    requires offset + |s| <= buf.Length
    modifies buf
    ensures next == offset + |s| && buf[..next] == old(buf[..offset]) + s
  {
    for i := 0 to |s|
      invariant buf[..offset] == old(buf[..offset])
      invariant buf[offset..offset + i] == s[..i]
    {
      buf[offset + i] := s[i];
    }
    next := offset + |s|;
    assert buf[..next] == buf[..offset] + buf[offset..next];
  }

  /** A loop that writes records one after the other. */
  method PutAll(buf: array<byte>, offset: nat, record: nat -> Bytes, n: nat) returns (next: nat)
    requires offset + |Concat(Records(record, n))| <= buf.Length
    modifies buf
    ensures next == offset + |Concat(Records(record, n))|
    ensures buf[..next] == old(buf[..offset]) + Concat(Records(record, n))
  {
    NoRecords(record);
    hide Concat, Records;
    next := offset;
    for i := 0 to n
      invariant next == offset + |Concat(Records(record, i))| <= buf.Length
      invariant buf[..next] == old(buf[..offset]) + Concat(Records(record, i))
    {
      NextRecord(record, i, n);
      next := Put(buf, next, record(i));
    }
  }

  lemma NoRecords(record: nat -> Bytes)
    ensures Concat(Records(record, 0)) == []
  {
  }

  lemma {:induction false} NextRecord(record: nat -> Bytes, i: nat, n: nat)
    requires i < n
    ensures Concat(Records(record, i + 1)) == Concat(Records(record, i)) + record(i)
    ensures |Concat(Records(record, i + 1))| <= |Concat(Records(record, n))|
    decreases n - i
  {
    assert Records(record, i + 1)[..i] == Records(record, i);
    if i + 1 < n { NextRecord(record, i + 1, n); }
  }

  /** The slots are counted before anything is written. */
  method CountSlots(c: Context) returns (n: nat)
    ensures n == SlotCount(c)
  {
    n := 0;
    if VertexFamily(c) && c.prologInputs.Some? { n := n + 1; }
    if VertexFamily(c) && c.vertexBuffers.Some? { n := n + 1; }
    if c.descriptors.Some? { n := n + 1; }
  }

  method PutSlots(c: Context, buf: array<byte>, offset: nat) returns (next: nat)
    requires offset + |Slots(c)| <= buf.Length
    modifies buf
    ensures next == offset + |Slots(c)| && buf[..next] == old(buf[..offset]) + Slots(c)
  {
    next := offset;
    if VertexFamily(c) && c.prologInputs.Some? { next := Put(buf, next, c.prologInputs.value); }
    if VertexFamily(c) && c.vertexBuffers.Some? { next := Put(buf, next, c.vertexBuffers.value); }
    if c.descriptors.Some? { next := Put(buf, next, c.descriptors.value); }
  }

  /** Input semantics followed by export semantics. */
  method PutBoth(c: Context, buf: array<byte>, offset: nat) returns (next: nat)
    requires offset + |Concat(Records(c.input, c.inputsRead)) + Concat(Records(c.output, c.outputsWritten))|
             <= buf.Length
    modifies buf
    ensures var s := Concat(Records(c.input, c.inputsRead)) + Concat(Records(c.output, c.outputsWritten));
            next == offset + |s| && buf[..next] == old(buf[..offset]) + s
  {
    hide Concat, Records;
    next := PutAll(buf, offset, c.input, c.inputsRead);
    next := PutAll(buf, next, c.output, c.outputsWritten);
  }

  method PutSemantics(c: Context, buf: array<byte>, offset: nat) returns (next: nat)
    requires offset + |Semantics(c)| <= buf.Length
    modifies buf
    ensures next == offset + |Semantics(c)| && buf[..next] == old(buf[..offset]) + Semantics(c)
  {
    hide Concat, Records;
    next := offset;
    match c.mesa
    case MesaVertex => next := PutBoth(c, buf, offset);
    case MesaTessEval => next := PutBoth(c, buf, offset);
    case MesaFragment => next := PutAll(buf, offset, c.pixel, c.pixelInputs);
    case MesaGeometry => next := PutBoth(c, buf, offset);
    case MesaTessCtrl => next := PutAll(buf, offset, c.input, c.inputsRead);
    case MesaOther =>
  }

  /** The switch over the stage that writes the shader structure. */
  method PutStructure(c: Context, facts: Facts, buf: array<byte>, offset: nat) returns (ok: bool, next: nat)
    requires facts == Facts(SpecificSize(c), CodeSize(c) + c.sizes.binaryInfo, SlotCount(c))
    requires Structure(c).Some? ==> offset + |Structure(c).value| <= buf.Length
    modifies buf
    ensures ok == Structure(c).Some?
    ensures ok ==> next == offset + |Structure(c).value| && buf[..next] == old(buf[..offset]) + Structure(c).value
  {
    hide SpecificSize, CodeSize, SlotCount;
    ok, next := true, offset;
    match c.stage
    case VertexStage => next := Put(buf, offset, c.structure(VsShader, facts));
    case TessEvalStage => next := Put(buf, offset, c.structure(VsShader, facts));
    case FragmentStage => next := Put(buf, offset, c.structure(PsShader, facts));
    case ComputeStage => next := Put(buf, offset, c.structure(CsShader, facts));
    case GeometryStage => next := Put(buf, offset, c.structure(GsShader, facts));
    case TessCtrlStage => next := Put(buf, offset, c.structure(HsShader, facts));
    case ExportStage => next := Put(buf, offset, c.structure(EsShader, facts));
    case LocalStage => next := Put(buf, offset, c.structure(LsShader, facts));
    case OtherStage => ok := false;
  }

  /** The sizes, added up before the buffer is allocated. */
  method Plan(c: Context, slots: nat) returns (specific: nat, padding: nat, total: nat)
    requires slots == SlotCount(c)
    ensures specific == SpecificSize(c) && padding == Padding(RawSize(c)) && total == TotalSize(c)
  {
    hide SlotCount, Padding, HeaderSize, CodeSize, Times;
    specific := HeaderSize(c.sizes, c.stage);
    specific := specific + Times(slots, c.sizes.slot);
    match c.mesa {
      case MesaFragment => specific := specific + Times(c.pixelInputs, c.sizes.pixelInput);
      case MesaTessCtrl => specific := specific + Times(c.inputsRead, c.sizes.vertexInput);
      case MesaOther =>
      case _ =>
        specific := specific + Times(c.inputsRead, c.sizes.vertexInput);
        specific := specific + Times(c.outputsWritten, c.sizes.vertexExport);
    }
    padding := Padding(specific);
    specific := specific + padding;
    total := HEADER_SIZE + c.sizes.fileHeader + specific + CodeSize(c) + c.sizes.binaryInfo + PARAM_SIZE;
  }

  /** The headers; refused for a stage that is not represented. */
  method PutTop(c: Context, specific: nat, slots: nat, buf: array<byte>) returns (ok: bool, offset: nat)
    requires PayloadSize(c) < 0x1_0000_0000 && specific == SpecificSize(c) && slots == SlotCount(c)
    requires |Header(c)| + |c.fileHeader(specific / 4)| <= buf.Length
    requires Represented(c.stage) ==> |Top(c)| <= buf.Length
    modifies buf
    ensures ok == Represented(c.stage)
    ensures ok ==> offset == |Top(c)| && buf[..offset] == Top(c)
  {
    hide SpecificSize, SlotCount, CodeSize, Header, Structure, PayloadSize;
    StructureIs(c);
    offset := Put(buf, 0, Header(c));
    offset := Put(buf, offset, c.fileHeader(specific / 4));
    ok, offset := PutStructure(c, Facts(specific, CodeSize(c) + c.sizes.binaryInfo, slots), buf, offset);
  }

  /** Slots, semantics, padding and code. */
  method PutRest(c: Context, padding: nat, buf: array<byte>, start: nat) returns (offset: nat)
    requires PayloadSize(c) < 0x1_0000_0000 && Represented(c.stage) && padding == Padding(RawSize(c))
    requires start == |Top(c)| && |Front(c)| <= buf.Length && buf[..start] == Top(c)
    modifies buf
    ensures offset == |Front(c)| && buf[..offset] == Front(c)
  {
    hide Top, Slots, Semantics, RawSize, Code, PayloadSize, Padding;
    offset := PutSlots(c, buf, start);
    offset := PutSemantics(c, buf, offset);
    offset := Put(buf, offset, Zeros(padding));
    offset := Put(buf, offset, Code(c));
  }

  /** buildshaderbinary: nothing for a stage that it does not represent. */
  method Build(c: Context) returns (out: Option<Bytes>)
    requires Sized(c) && PayloadSize(c) < 0x1_0000_0000
    ensures out == if Represented(c.stage) then Some(File(c)) else None
  {
    hide RawSize, SpecificSize, SlotCount, CodeSize, Header, PayloadSize, Padding, Top, Front, TotalSize, SlotsAt;
    var slots := CountSlots(c);
    var specific, padding, total := Plan(c, slots);
    var buf := new byte[total];
    if Represented(c.stage) { Places(c); }
    Early(c, total);
    var ok, offset := PutTop(c, specific, slots, buf);
    if !ok { return None; }
    offset := PutRest(c, padding, buf, offset);
    var chunk := if slots > 0 then ((offset - SlotsAt(c)) / 4) % 0x1_0000_0000 else 0;
    offset := Put(buf, offset, c.binaryInfo(CodeSize(c), chunk, slots));
    offset := Put(buf, offset, Zeros(PARAM_SIZE));
    assert offset == total && buf[..] == buf[..offset];
    out := Some(buf[..]);
  }

  /** Where the running offset is after each part. */
  lemma Places(c: Context)
    requires Sized(c) && PayloadSize(c) < 0x1_0000_0000 && Represented(c.stage)
    ensures |Top(c)| <= |Front(c)|
    ensures |Front(c)| + c.sizes.binaryInfo + PARAM_SIZE == TotalSize(c)
  {
    hide Slots, Semantics, RawSize, SpecificSize, SlotCount, CodeSize, Header, Code, Structure, Padding, HeaderSize,
         Sized;
    TopSize(c);
    FrontSize(c);
  }

  /** The first two headers fit for any stage. */
  lemma Early(c: Context, total: nat)
    requires Sized(c) && PayloadSize(c) < 0x1_0000_0000 && total == TotalSize(c)
    ensures |Header(c)| + |c.fileHeader(SpecificSize(c) / 4)| <= total
  {
    hide SpecificSize, CodeSize, Header;
    HeaderAgrees(c);
  }

  lemma StructureIs(c: Context)
    ensures Structure(c).Some? <==> Represented(c.stage)
  {
    hide SpecificSize, CodeSize, SlotCount;
  }

  // ------------------------------------------------- reading it

  /** `hdr->codesize` */
  function ReadCodeSize(file: Bytes): (n: u32)
    requires |file| >= HEADER_SIZE
  {
    FromLittleEndian(file[CODE_SIZE_AT..CODE_SIZE_AT + 4])
  }

  /** psslSbGnmShader, psslSbGnmShaderBinaryInfo and psslSbParameterInfo as offsets in the file. */
  function GnmShaderAt(): (n: nat) {
    HEADER_SIZE
  }

  function BinaryInfoAt(file: Bytes, sizes: Sizes): (n: int)
    requires |file| >= HEADER_SIZE
  {
    HEADER_SIZE + ReadCodeSize(file) - sizes.binaryInfo
  }

  function ParamInfoAt(file: Bytes): (n: nat)
    requires |file| >= HEADER_SIZE
  {
    HEADER_SIZE + ReadCodeSize(file)
  }

  /** A part of the file, by where it starts. */
  lemma PartOf(before: Bytes, part: Bytes, after: Bytes)
    ensures (before + part + after)[|before|..|before| + |part|] == part
  {
  }

  lemma CodeSizeReadBack(c: Context)
    requires Sized(c) && PayloadSize(c) < 0x1_0000_0000 && Represented(c.stage)
    ensures |File(c)| >= HEADER_SIZE && ReadCodeSize(File(c)) == PayloadSize(c)
  {
    hide PayloadSize, Slots, Semantics, SpecificSize, RawSize, Structure, Code, Padding, Chunk, SlotCount, CodeSize;
    FileSizes(c);
    HeaderAgrees(c);
    var file, header := File(c), Header(c);
    assert file[..HEADER_SIZE] == header;
    assert file[CODE_SIZE_AT..CODE_SIZE_AT + 4] == file[..HEADER_SIZE][CODE_SIZE_AT..CODE_SIZE_AT + 4];
    PartOf(c.headerFront, LittleEndian(PayloadSize(c)), c.headerBack);
    LittleEndianRoundTrip(PayloadSize(c));
  }

  /** The accessors land exactly on the structures that were written. */
  lemma ReadersAgree(c: Context)
    requires Sized(c) && PayloadSize(c) < 0x1_0000_0000 && Represented(c.stage)
    ensures var file := File(c);
            && |file| == TotalSize(c)
            && file[GnmShaderAt()..GnmShaderAt() + c.sizes.fileHeader] == c.fileHeader(SpecificSize(c) / 4)
            && 0 <= BinaryInfoAt(file, c.sizes) <= ParamInfoAt(file) == |file| - PARAM_SIZE
            && file[BinaryInfoAt(file, c.sizes)..ParamInfoAt(file)]
               == c.binaryInfo(CodeSize(c), Chunk(c, BinaryInfoAt(file, c.sizes)), SlotCount(c))
            && file[ParamInfoAt(file)..] == Zeros(PARAM_SIZE)
  {
    hide Slots, Semantics, SpecificSize, RawSize, ReadCodeSize, Header, Code, Chunk, SlotCount, CodeSize, Front;
    FileSizes(c);
    FrontSize(c);
    CodeSizeReadBack(c);
    var file, info := File(c), c.binaryInfo(CodeSize(c), Chunk(c, |Front(c)|), SlotCount(c));
    assert BinaryInfoAt(file, c.sizes) == |Front(c)|;
    PartOf(Front(c), info, Zeros(PARAM_SIZE));
    FileHeaderAt(c);
  }

  lemma FileHeaderAt(c: Context)
    requires Sized(c) && PayloadSize(c) < 0x1_0000_0000 && Represented(c.stage)
    ensures |File(c)| >= GnmShaderAt() + c.sizes.fileHeader
    ensures File(c)[GnmShaderAt()..GnmShaderAt() + c.sizes.fileHeader] == c.fileHeader(SpecificSize(c) / 4)
  {
    hide Slots, Semantics, SpecificSize, RawSize, Header, Code, Chunk, SlotCount, CodeSize, PayloadSize, Structure,
         Padding;
    HeaderAgrees(c);
    FileSizes(c);
    var fileHeader := c.fileHeader(SpecificSize(c) / 4);
    var n := HEADER_SIZE + |fileHeader|;
    assert Top(c)[..n] == Header(c) + fileHeader;
    assert Front(c)[..n] == Top(c)[..n];
    assert File(c)[..n] == Front(c)[..n];
    assert File(c)[HEADER_SIZE..n] == File(c)[..n][HEADER_SIZE..];
  }

  /** The usage slots start where headershsize says. */
  lemma SlotsAreThere(c: Context)
    requires Sized(c) && PayloadSize(c) < 0x1_0000_0000 && Represented(c.stage)
    ensures SlotsAt(c) + |Slots(c)| <= |File(c)| && File(c)[SlotsAt(c)..SlotsAt(c) + |Slots(c)|] == Slots(c)
  {
    hide Slots, Semantics, RawSize, Header, Code, Chunk, SlotCount, CodeSize, PayloadSize, Structure, Padding, Top;
    TopSize(c);
    var at, n := SlotsAt(c), |Slots(c)|;
    assert Front(c)[..at + n] == Top(c) + Slots(c);
    assert File(c)[..at + n] == Front(c)[..at + n];
    assert File(c)[at..at + n] == File(c)[..at + n][at..];
  }

  /**
   With at least one slot, going back the recorded number of words from the binary info leads to
   the first slot exactly when the shader structure is a whole number of words.
   */
  lemma ChunkLeadsBack(c: Context)
    requires Sized(c) && PayloadSize(c) < 0x1_0000_0000 && Represented(c.stage) && SlotCount(c) > 0
    ensures |File(c)| >= HEADER_SIZE
    ensures var info := BinaryInfoAt(File(c), c.sizes);
            info - 4 * Chunk(c, info) == SlotsAt(c) <==> HeaderSize(c.sizes, c.stage) % 4 == 0
  {
    hide Slots, Semantics, Header, Code, ReadCodeSize, CodeSize, File, Front, HeaderSize, SlotCount, SemanticsSize,
         Times, Padding, Sized;
    FileSizes(c);
    FrontSize(c);
    CodeSizeReadBack(c);
    HeaderAgrees(c);
    WordsBack(SpecificSize(c), CodeSize(c), HeaderSize(c.sizes, c.stage));
  }

  lemma WordsBack(specific: nat, code: nat, shader: nat)
    requires specific % 4 == 0 && code % 4 == 0 && shader <= specific && specific + code < 0x1_0000_0000
    ensures var d := specific + code - shader;
            d / 4 % 0x1_0000_0000 == d / 4 && (d / 4 * 4 == d <==> shader % 4 == 0)
  {
  }
}
