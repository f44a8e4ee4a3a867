/** The check of a SPIR-V module before compilation (validate_spirv_capabilities). */
module SpirvGate {
  import opened Words

  datatype Verdict = Ok | InvalidSpirv | UnsupportedCapability

  datatype Options = Options(int8: bool, int16: bool, storage8: bool, uniform8: bool, storage16: bool, uniform16: bool,
                             physicalAddresses: bool, memoryModel: bool, memoryModelDevice: bool)

  const MAGIC: u32 := 0x0723_0203
  const OP_CAPABILITY: nat := 17

  /** The upper half of an instruction's first word. */
  function WordCount(w: u32): (n: nat)
    ensures n < 0x1_0000
  {
    w / 0x1_0000
  }

  function Opcode(w: u32): (n: nat) {
    w % 0x1_0000
  }

  predicate Enabled(capability: u32, o: Options) {
    match capability
    case 39 => o.int8
    case 22 => o.int16
    case 4448 => o.storage8
    case 4449 => o.uniform8
    case 4433 => o.storage16
    case 4434 => o.uniform16
    case 5347 => o.physicalAddresses
    case 5345 => o.memoryModel
    case 5346 => o.memoryModelDevice
    case _ => true
  }

  /** The instruction at `at` is not a two-word OpCapability that is disabled. */
  predicate Allowed(ws: seq<u32>, at: nat, o: Options)
    requires at < |ws|
  {
    Opcode(ws[at]) == OP_CAPABILITY && WordCount(ws[at]) == 2 && at + 1 < |ws| ==> Enabled(ws[at + 1], o)
  }

  /** The scan from `at` on. */
  function Scan(ws: seq<u32>, at: nat, o: Options): (v: Verdict)
    requires at <= |ws|
    decreases |ws| - at
  {
    if at == |ws| then Ok
    else
      var n := WordCount(ws[at]);
      if n == 0 || n > |ws| - at then InvalidSpirv
      else if !Allowed(ws, at, o) then UnsupportedCapability
      else Scan(ws, at + n, o)
  }

  /** `spirv` is the buffer, of which `size` bytes are given. */
  predicate HeaderOk(spirv: Option<seq<u32>>, size: nat) {
    spirv.Some? && size >= 20 && size % 4 == 0 && |spirv.value| > 0 && spirv.value[0] == MAGIC
  }

  function Validate(spirv: Option<seq<u32>>, size: nat, o: Options): (v: Verdict)
    requires spirv.Some? ==> |spirv.value| == size / 4
  {
    if HeaderOk(spirv, size) then Scan(spirv.value, 5, o) else InvalidSpirv
  }

  method Check(spirv: Option<seq<u32>>, size: nat, o: Options) returns (v: Verdict)
    requires spirv.Some? ==> |spirv.value| == size / 4
    ensures v == Validate(spirv, size, o)
  {
    if spirv.None? || size < 20 || size % 4 != 0 || spirv.value[0] != MAGIC { return InvalidSpirv; }
    var ws, at := spirv.value, 5;
    while at < |ws|
      invariant 5 <= at <= |ws| && Scan(ws, at, o) == Scan(ws, 5, o)
    {
      var words, opcode := WordCount(ws[at]), Opcode(ws[at]);
      if words == 0 || words > |ws| - at { return InvalidSpirv; }
      if opcode == OP_CAPABILITY && words == 2 && !Enabled(ws[at + 1], o) { return UnsupportedCapability; }
      at := at + words;
    }
    return Ok;
  }

  // ------------------------------------------------- what the verdict means

  /** `starts` are the first words of consecutive instructions from `at` to `end`. */
  predicate Instructions(ws: seq<u32>, at: nat, end: nat, starts: seq<nat>)
    requires end <= |ws|
    decreases |starts|
  {
    if starts == [] then at == end
    else
      && starts[0] == at && at < end
      && var n := WordCount(ws[at]);
         n > 0 && at + n <= end && Instructions(ws, at + n, end, starts[1..])
  }

  predicate AllAllowed(ws: seq<u32>, starts: seq<nat>, o: Options) {
    forall i :: 0 <= i < |starts| ==> starts[i] < |ws| && Allowed(ws, starts[i], o)
  }

  lemma {:induction false} ScanOkIsPartition(ws: seq<u32>, at: nat, o: Options) returns (starts: seq<nat>)
    requires at <= |ws| && Scan(ws, at, o) == Ok
    ensures Instructions(ws, at, |ws|, starts) && AllAllowed(ws, starts, o)
    decreases |ws| - at
  {
    if at == |ws| {
      starts := [];
    } else {
      var rest := ScanOkIsPartition(ws, at + WordCount(ws[at]), o);
      starts := [at] + rest;
      assert starts[1..] == rest;
    }
  }

  lemma {:induction false} PartitionScansOk(ws: seq<u32>, at: nat, o: Options, starts: seq<nat>)
    requires at <= |ws| && Instructions(ws, at, |ws|, starts) && AllAllowed(ws, starts, o)
    ensures Scan(ws, at, o) == Ok
    decreases |starts|
  {
    if starts != [] {
      assert starts[0] < |ws| && Allowed(ws, starts[0], o);
      assert forall i :: 0 <= i < |starts[1..]| ==> starts[1..][i] == starts[i + 1];
      PartitionScansOk(ws, at + WordCount(ws[at]), o, starts[1..]);
    }
  }

  /**
   The module passes iff its header is valid, its word counts cut everything after the header
   into instructions (section 2.3 of the SPIR-V Specification), and every capability that an
   OpCapability of two words names is enabled.
   */
  lemma PassesIff(spirv: Option<seq<u32>>, size: nat, o: Options)
    requires spirv.Some? ==> |spirv.value| == size / 4
    ensures Validate(spirv, size, o) == Ok <==>
            HeaderOk(spirv, size) &&
            exists starts :: Instructions(spirv.value, 5, |spirv.value|, starts) && AllAllowed(spirv.value, starts, o)
  {
    if HeaderOk(spirv, size) {
      var ws := spirv.value;
      if Scan(ws, 5, o) == Ok {
        var starts := ScanOkIsPartition(ws, 5, o);
      }
      if starts :| Instructions(ws, 5, |ws|, starts) && AllAllowed(ws, starts, o) {
        PartitionScansOk(ws, 5, o, starts);
      }
    }
  }

  lemma {:induction false} ScanStopsAt(ws: seq<u32>, at: nat, o: Options) returns (starts: seq<nat>, bad: nat)
    requires at <= |ws| && Scan(ws, at, o) == UnsupportedCapability
    ensures bad < |ws| && Instructions(ws, at, bad, starts) && AllAllowed(ws, starts, o) && !Allowed(ws, bad, o)
    ensures 0 < WordCount(ws[bad]) <= |ws| - bad
    decreases |ws| - at
  {
    if !Allowed(ws, at, o) {
      starts, bad := [], at;
    } else {
      starts, bad := ScanStopsAt(ws, at + WordCount(ws[at]), o);
      var rest := starts;
      starts := [at] + rest;
      assert starts[1..] == rest;
      InstructionsAdvance(ws, at + WordCount(ws[at]), bad, rest);
    }
  }

  lemma {:induction false} InstructionsAdvance(ws: seq<u32>, at: nat, end: nat, starts: seq<nat>)
    requires end <= |ws| && Instructions(ws, at, end, starts)
    ensures at <= end
    decreases |starts|
  {
    if starts != [] { InstructionsAdvance(ws, at + WordCount(ws[at]), end, starts[1..]); }
  }

  lemma {:induction false} StopScans(ws: seq<u32>, at: nat, o: Options, starts: seq<nat>, bad: nat)
    requires at <= bad < |ws| && Instructions(ws, at, bad, starts) && AllAllowed(ws, starts, o) && !Allowed(ws, bad, o)
    requires 0 < WordCount(ws[bad]) <= |ws| - bad
    ensures Scan(ws, at, o) == UnsupportedCapability
    decreases |starts|
  {
    if starts != [] {
      assert starts[0] < |ws| && Allowed(ws, starts[0], o);
      assert forall i :: 0 <= i < |starts[1..]| ==> starts[1..][i] == starts[i + 1];
      InstructionsAdvance(ws, at + WordCount(ws[at]), bad, starts[1..]);
      StopScans(ws, at + WordCount(ws[at]), o, starts[1..], bad);
    }
  }

  /** Some whole instruction, before which everything is in order, names a disabled capability. */
  ghost predicate NamesDisabled(ws: seq<u32>, o: Options)
    requires |ws| >= 5
  {
    exists starts: seq<nat>, bad: nat ::
      && 5 <= bad < |ws| && Instructions(ws, 5, bad, starts) && AllAllowed(ws, starts, o)
      && 0 < WordCount(ws[bad]) <= |ws| - bad && !Allowed(ws, bad, o)
  }

  /** When the gate reports a capability rather than an invalid module. */
  lemma RefusesCapabilityIff(spirv: Option<seq<u32>>, size: nat, o: Options)
    requires spirv.Some? ==> |spirv.value| == size / 4
    ensures Validate(spirv, size, o) == UnsupportedCapability <==>
            HeaderOk(spirv, size) && NamesDisabled(spirv.value, o)
  {
    if HeaderOk(spirv, size) {
      var ws := spirv.value;
      if Scan(ws, 5, o) == UnsupportedCapability {
        var starts, bad := ScanStopsAt(ws, 5, o);
        InstructionsAdvance(ws, 5, bad, starts);
      }
      if NamesDisabled(ws, o) {
        var starts: seq<nat>, bad: nat :| 5 <= bad < |ws| && Instructions(ws, 5, bad, starts)
          && AllAllowed(ws, starts, o)
                                          && 0 < WordCount(ws[bad]) <= |ws| - bad && !Allowed(ws, bad, o);
        StopScans(ws, 5, o, starts, bad);
      }
    }
  }

  /** Every option enabled in `o` is enabled in `p`. */
  predicate Wider(o: Options, p: Options) {
    && (o.int8 ==> p.int8) && (o.int16 ==> p.int16) && (o.storage8 ==> p.storage8) && (o.uniform8 ==> p.uniform8)
    && (o.storage16 ==> p.storage16) && (o.uniform16 ==> p.uniform16) && (o.physicalAddresses ==> p.physicalAddresses)
    && (o.memoryModel ==> p.memoryModel) && (o.memoryModelDevice ==> p.memoryModelDevice)
  }

  lemma {:induction false} ScanWider(ws: seq<u32>, at: nat, o: Options, p: Options)
    requires at <= |ws| && Wider(o, p)
    ensures Scan(ws, at, o) == Ok ==> Scan(ws, at, p) == Ok
    decreases |ws| - at
  {
    if at < |ws| && 0 < WordCount(ws[at]) <= |ws| - at {
      ScanWider(ws, at + WordCount(ws[at]), o, p);
    }
  }

  /** Enabling more never turns a pass into an error. */
  lemma EnablingKeepsPass(spirv: Option<seq<u32>>, size: nat, o: Options, p: Options)
    requires spirv.Some? ==> |spirv.value| == size / 4
    requires Wider(o, p) && Validate(spirv, size, o) == Ok
    ensures Validate(spirv, size, p) == Ok
  {
    ScanWider(spirv.value, 5, o, p);
  }
}
