/**
 PS5 pixel inputs (libpsbc/psbc_compile.c): attributes that a shader reads both flat and
 interpolated are split, and the semantic table is built from the loads that result.
 */
module MixedInputs {
  import opened Words

  const SLOTS: nat := 32
  const CLIP_DIST0: nat := 17
  const CLIP_DIST1: nat := 18
  const CULL_DIST0: nat := 19
  const CULL_DIST1: nat := 20
  const PRIMITIVE_ID: nat := 21
  const VAR0: nat := 32
  const UNASSIGNED: nat := 255
  const FLAT_BIT: nat := 0x40_0000

  /** Instructions; what is not an input load is `Unrelated`. */
  datatype Kind = Interpolated | Flat | FlatVertex | Unrelated
  datatype Load = Load(kind: Kind, location: nat, slots: nat, base: nat)

  /** ps5_input_interpolation_mode */
  function Mode(l: Load): (m: nat) {
    match l.kind
    case Interpolated => 2
    case Flat => 1
    case FlatVertex => 1
    case Unrelated => 0
  }

  // ------------------------------------------------- classification

  /** The load reads generic location `at` in mode `m`. */
  predicate ReadsAt(l: Load, m: nat, at: nat) {
    Mode(l) == m && VAR0 <= l.location <= VAR0 + at < l.location + l.slots
  }

  predicate Reads(loads: seq<Load>, m: nat, at: nat) {
    exists i :: 0 <= i < |loads| && ReadsAt(loads[i], m, at)
  }

  function Modes(flat: bool, interpolated: bool): (n: nat) {
    (if flat then 1 else 0) + (if interpolated then 2 else 0)
  }

  predicate Mixed(loads: seq<Load>, at: nat) {
    Reads(loads, 1, at) && Reads(loads, 2, at)
  }

  lemma OrMode(flat: bool, interpolated: bool, m: nat)
    requires m == 1 || m == 2
    ensures Or(Modes(flat, interpolated), m) == Modes(flat || m == 1, interpolated || m == 2)
  {
    assert Or(0, m) == m && Or(1, 1) == 1 && Or(1, 2) == 3 && Or(2, 1) == 3 && Or(2, 2) == 2 && Or(3, 1) == 3
           && Or(3, 2) == 3;
  }

  lemma ReadsMore(loads: seq<Load>, n: nat, m: nat, at: nat)
    requires n < |loads|
    ensures Reads(loads[..n + 1], m, at) <==> Reads(loads[..n], m, at) || ReadsAt(loads[n], m, at)
  {
    var s, t := loads[..n], loads[..n + 1];
    assert t == s + [loads[n]];
    if Reads(s, m, at) {
      var i :| 0 <= i < |s| && ReadsAt(s[i], m, at);
      assert ReadsAt(t[i], m, at);
    }
    if ReadsAt(loads[n], m, at) { assert ReadsAt(t[n], m, at); }
  }

  /** The modes in which each location has been read. */
  ghost predicate Classified(modes: seq<nat>, loads: seq<Load>) {
    |modes| == SLOTS && forall at :: 0 <= at < SLOTS ==> modes[at] == Modes(Reads(loads, 1, at), Reads(loads, 2, at))
  }

  /** classify_ps5_input for every instruction. */
  method Classify(loads: seq<Load>) returns (modes: array<nat>)
    ensures fresh(modes) && Classified(modes[..], loads)
  {
    modes := new nat[SLOTS](_ => 0);
    for n := 0 to |loads|
      invariant fresh(modes) && Classified(modes[..], loads[..n])
    {
      ClassifyLoad(loads, n, modes);
    }
    assert loads[..|loads|] == loads;
  }

  method ClassifyLoad(loads: seq<Load>, n: nat, modes: array<nat>)
    requires n < |loads| && Classified(modes[..], loads[..n])
    modifies modes
    ensures Classified(modes[..], loads[..n + 1])
  {
    var l := loads[n];
    var mode := Mode(l);
    ghost var before := modes[..];
    forall at: nat, m: nat | at < SLOTS
      ensures Reads(loads[..n + 1], m, at) <==> Reads(loads[..n], m, at) || ReadsAt(l, m, at)
    {
      ReadsMore(loads, n, m, at);
    }
    if mode == 0 || l.location < VAR0 {
      forall at | 0 <= at < SLOTS
        ensures before[at] == Modes(Reads(loads[..n + 1], 1, at), Reads(loads[..n + 1], 2, at))
      {
      }
      return;
    }
    hide Reads;
    for slot := 0 to l.slots
      invariant forall at :: 0 <= at < SLOTS ==>
                  modes[at] ==
                  if l.location - VAR0 <= at < l.location - VAR0 + slot then Or(before[at], mode) else before[at]
    {
      var location := l.location - VAR0 + slot;
      if location < SLOTS { modes[location] := Or(modes[location], mode); }
    }
    forall at | 0 <= at < SLOTS ensures modes[at] == Modes(Reads(loads[..n + 1], 1, at), Reads(loads[..n + 1], 2, at)) {
      OrMode(Reads(loads[..n], 1, at), Reads(loads[..n], 2, at), mode);
    }
  }

  // ------------------------------------------------- splitting

  /** Locations below `n` that are read in both modes. */
  function MixedBelow(loads: seq<Load>, n: nat): (r: nat)
    ensures r <= n
  {
    if n == 0 then 0 else MixedBelow(loads, n - 1) + if Mixed(loads, n - 1) then 1 else 0
  }

  function MixedCount(loads: seq<Load>): (r: nat) {
    MixedBelow(loads, SLOTS)
  }

  /** The extra attribute that the flat reads of a mixed location get; `first` is the first extra one. */
  function Alias(loads: seq<Load>, first: nat, at: nat): (a: nat) {
    first + MixedBelow(loads, at)
  }

  /** remap_ps5_flat_input, with the primitive id moved to `primitive` if that is assigned. */
  function Remap(loads: seq<Load>, first: nat, primitive: nat, l: Load): (r: Load) {
    if Mode(l) != 1 then l
    else if l.location == PRIMITIVE_ID && primitive != UNASSIGNED then l.(base := primitive)
    else if l.location < VAR0 || l.slots != 1 then l
    else if l.location - VAR0 >= SLOTS || !Mixed(loads, l.location - VAR0) then l
    else l.(base := Alias(loads, first, l.location - VAR0))
  }

  function RemapAll(loads: seq<Load>, first: nat, primitive: nat, n: nat): (r: seq<Load>)
    requires n <= |loads|
    ensures |r| == n && forall i :: 0 <= i < n ==> r[i] == Remap(loads, first, primitive, loads[i])
  {
    if n == 0 then [] else RemapAll(loads, first, primitive, n - 1) + [Remap(loads, first, primitive, loads[n - 1])]
  }

  function One(b: bool): (n: nat) {
    if b then 1 else 0
  }

  /** The split finds room. */
  predicate Fits(loads: seq<Load>, inputs: nat, perPrimitive: bool) {
    (MixedCount(loads) == 0 && !perPrimitive) || (inputs >= One(perPrimitive) && inputs + MixedCount(loads) <= SLOTS)
  }

  /** The loads afterwards; `perPrimitive` says that the shader reads a per-primitive id. */
  function SplitLoads(loads: seq<Load>, inputs: nat, perPrimitive: bool): (r: seq<Load>)
    requires Fits(loads, inputs, perPrimitive)
    ensures |r| == |loads|
  {
    var mixed := MixedCount(loads);
    if mixed == 0 then loads
    else
      var first := inputs - One(perPrimitive);
      RemapAll(loads, first, if perPrimitive then first + mixed else UNASSIGNED, |loads|)
  }

  lemma {:induction false} MixedBelowMono(loads: seq<Load>, m: nat, n: nat)
    requires m <= n
    ensures MixedBelow(loads, m) <= MixedBelow(loads, n)
    decreases n
  {
    if m < n { MixedBelowMono(loads, m, n - 1); }
  }

  /** The loop that gives each mixed location an extra attribute; stops when they run out. */
  method Assign(loads: seq<Load>, modes: array<nat>, first: nat) returns (ok: bool, next: nat, flat: array<nat>)
    requires modes.Length == SLOTS && Classified(modes[..], loads)
    ensures ok <==> MixedCount(loads) == 0 || first + MixedCount(loads) <= SLOTS
    ensures ok ==> next == first + MixedCount(loads)
    ensures flat.Length == SLOTS
    ensures ok ==> forall at :: 0 <= at < SLOTS && Mixed(loads, at) ==> flat[at] == Alias(loads, first, at)
  {
    hide Reads;
    flat := new nat[SLOTS](_ => UNASSIGNED);
    next := first;
    for location := 0 to SLOTS
      invariant next == first + MixedBelow(loads, location)
      invariant MixedBelow(loads, location) > 0 ==> next <= SLOTS
      invariant forall at :: 0 <= at < location && Mixed(loads, at) ==> flat[at] == Alias(loads, first, at)
    {
      MixedBelowMono(loads, location + 1, SLOTS);
      if modes[location] == 3 {
        if next >= SLOTS { return false, next, flat; }
        flat[location] := next;
        next := next + 1;
      }
    }
    ok := true;
  }

  /** split_ps5_mixed_inputs; nothing when the attributes run out. */
  method Split(loads: seq<Load>, inputs: u32, perPrimitive: bool) returns (r: Option<(seq<Load>, nat)>)
    ensures r.Some? <==> Fits(loads, inputs, perPrimitive)
    ensures r.Some? ==> r.value == (SplitLoads(loads, inputs, perPrimitive), inputs + MixedCount(loads))
  {
    hide Mixed, Reads;
    var modes := Classify(loads);
    var first := (inputs - One(perPrimitive)) % 0x1_0000_0000;
    var ok, next, flat := Assign(loads, modes, first);
    if !ok { return None; }
    var primitive := UNASSIGNED;
    if perPrimitive {
      if next >= SLOTS { return None; }
      primitive := next;
      next := next + 1;
    }
    if next == inputs { return Some((loads, inputs)); }
    var out := [];
    for i := 0 to |loads|
      invariant out == RemapAll(loads, first, primitive, i)
    {
      out := out + [RemapWith(loads, first, primitive, flat[..], modes[..], loads[i])];
    }
    r := Some((out, next));
  }

  /** One instruction, from the tables. */
  function RemapWith(ghost loads: seq<Load>, ghost first: nat, primitive: nat, flat: seq<nat>, modes: seq<nat>,
                     l: Load): (r: Load)
    requires Classified(modes, loads) && |flat| == SLOTS
    requires forall at :: 0 <= at < SLOTS && Mixed(loads, at) ==> flat[at] == Alias(loads, first, at)
    ensures r == Remap(loads, first, primitive, l)
  {
    if Mode(l) != 1 then l
    else if l.location == PRIMITIVE_ID && primitive != UNASSIGNED then l.(base := primitive)
    else if l.location < VAR0 || l.slots != 1 then l
    else if l.location - VAR0 >= SLOTS || modes[l.location - VAR0] != 3 then l
    else l.(base := flat[l.location - VAR0])
  }

  // ------------------------------------------------- what the split achieves

  /** Loads that the semantic table can describe: one slot, a generic, primitive id or distance location. */
  predicate Describable(l: Load) {
    && l.slots == 1
    && (VAR0 <= l.location < VAR0 + SLOTS || (l.location == PRIMITIVE_ID && Mode(l) == 1)
        || l.location == CLIP_DIST0 || l.location == CLIP_DIST1)
  }

  predicate AllDescribable(loads: seq<Load>) {
    forall i :: 0 <= i < |loads| && Mode(loads[i]) != 0 ==> Describable(loads[i])
  }

  /**
   Inputs as the compiler hands them over, at whatever locations: loads have one slot, locations
   and bases correspond, and a per-primitive id is the last attribute.
   */
  ghost predicate Canonical(loads: seq<Load>, inputs: nat, perPrimitive: bool) {
    && (forall i :: 0 <= i < |loads| && Mode(loads[i]) != 0 ==> loads[i].slots == 1 && loads[i].base < inputs)
    && (forall i, j :: 0 <= i < |loads| && 0 <= j < |loads| && Mode(loads[i]) != 0 && Mode(loads[j]) != 0 ==>
          (loads[i].base == loads[j].base <==> loads[i].location == loads[j].location))
    && (perPrimitive ==>
          inputs > 0 && exists i :: 0 <= i < |loads| && IsPrimitive(loads[i]) && loads[i].base == inputs - 1)
  }

  /** Every attribute is read. */
  ghost predicate AllRead(loads: seq<Load>, inputs: nat) {
    forall a: nat :: a < inputs ==> ReadsBase(loads, a)
  }

  /** One of the locations that the split looks at. */
  predicate Generic(l: Load) {
    VAR0 <= l.location < VAR0 + SLOTS
  }

  predicate IsPrimitive(l: Load) {
    Mode(l) == 1 && l.location == PRIMITIVE_ID
  }

  ghost predicate ReadsBase(loads: seq<Load>, a: nat) {
    exists i :: 0 <= i < |loads| && Mode(loads[i]) != 0 && loads[i].base == a
  }

  /** An interpolated read of a per-primitive id, which stays where the id was. */
  predicate Stray(l: Load, perPrimitive: bool) {
    perPrimitive && Mode(l) == 2 && l.location == PRIMITIVE_ID
  }

  /** The flat reads of a mixed location. */
  predicate Moved(loads: seq<Load>, l: Load) {
    Mode(l) == 1 && Generic(l) && Mixed(loads, l.location - VAR0)
  }

  lemma {:induction false} AliasInjective(loads: seq<Load>, a: nat, b: nat)
    requires a < b && Mixed(loads, a)
    ensures MixedBelow(loads, a) < MixedBelow(loads, b)
  {
    hide Mixed;
    MixedBelowMono(loads, a + 1, b);
  }

  /** Where a load ends up: stays below the aliases, becomes an alias, or is the primitive id after them. */
  lemma NewBase(loads: seq<Load>, inputs: nat, perPrimitive: bool, i: nat)
    requires Canonical(loads, inputs, perPrimitive) && Fits(loads, inputs, perPrimitive)
    requires i < |loads| && Mode(loads[i]) != 0
    ensures var l, m := loads[i], SplitLoads(loads, inputs, perPrimitive)[i];
            var first := inputs - One(perPrimitive);
            && m.kind == l.kind && m.location == l.location && m.slots == l.slots
            && (Moved(loads, l) ==> m.base == Alias(loads, first, l.location - VAR0) < first + MixedCount(loads))
            && (perPrimitive && IsPrimitive(l) ==> m.base == inputs + MixedCount(loads) - 1)
            && (!Moved(loads, l) && !(perPrimitive && IsPrimitive(l)) ==>
                  m.base == l.base && if Stray(l, perPrimitive) then m.base == first else m.base < first)
  {
    hide Mixed, MixedBelow, Reads, ReadsBase;
    var l := loads[i];
    if perPrimitive {
      var p :| 0 <= p < |loads| && IsPrimitive(loads[p]) && loads[p].base == inputs - 1;
      assert loads[i].base == loads[p].base <==> loads[i].location == loads[p].location;
    }
    if Moved(loads, l) {
      AliasInjective(loads, l.location - VAR0, SLOTS);
    }
  }

  /**
   After the split no attribute is shared by two locations, and no generic attribute is read
   both flat and interpolated, as far as no interpolated per-primitive id is involved.
   */
  lemma NoMixedAttribute(loads: seq<Load>, inputs: nat, perPrimitive: bool, i: nat, j: nat)
    requires Canonical(loads, inputs, perPrimitive) && Fits(loads, inputs, perPrimitive)
    requires i < |loads| && j < |loads| && Mode(loads[i]) != 0 && Mode(loads[j]) != 0
    ensures var s := SplitLoads(loads, inputs, perPrimitive);
            s[i].base == s[j].base && !Stray(s[i], perPrimitive) && !Stray(s[j], perPrimitive) ==>
              s[i].location == s[j].location && (Generic(s[i]) ==> Mode(s[i]) == Mode(s[j]))
  {
    hide Fits, SplitLoads, Mixed, MixedBelow;
    NewBase(loads, inputs, perPrimitive, i);
    NewBase(loads, inputs, perPrimitive, j);
    var a, b := loads[i], loads[j];
    var s := SplitLoads(loads, inputs, perPrimitive);
    if s[i].base == s[j].base && !Stray(a, perPrimitive) && !Stray(b, perPrimitive) {
      if Moved(loads, a) && Moved(loads, b) {
        if a.location < b.location { AliasInjective(loads, a.location - VAR0, b.location - VAR0); }
        if b.location < a.location { AliasInjective(loads, b.location - VAR0, a.location - VAR0); }
      }
      if a.location == b.location && Mode(a) != Mode(b) && Generic(a) { BothModes(loads, i, j); }
    }
  }

  /** A location read in both modes is mixed. */
  lemma BothModes(loads: seq<Load>, i: nat, j: nat)
    requires i < |loads| && j < |loads| && Mode(loads[i]) != 0 && Mode(loads[j]) != 0
             && Mode(loads[i]) != Mode(loads[j])
    requires loads[i].slots == loads[j].slots == 1 && loads[i].location == loads[j].location && Generic(loads[i])
    ensures Mixed(loads, loads[i].location - VAR0)
  {
    var at := loads[i].location - VAR0;
    assert ReadsAt(loads[i], Mode(loads[i]), at) && ReadsAt(loads[j], Mode(loads[j]), at);
  }

  /** The mixed location that an extra attribute belongs to. */
  lemma {:induction false} MixedAt(loads: seq<Load>, n: nat, k: nat) returns (at: nat)
    requires k < MixedBelow(loads, n)
    ensures at < n && Mixed(loads, at) && MixedBelow(loads, at) == k
  {
    hide Mixed;
    if k < MixedBelow(loads, n - 1) {
      at := MixedAt(loads, n - 1, k);
    } else {
      at := n - 1;
    }
  }

  /** The attributes after the split are those that were read, the extra ones, and the id after them. */
  lemma AttributesFilled(loads: seq<Load>, inputs: nat, perPrimitive: bool, a: nat)
    requires Canonical(loads, inputs, perPrimitive) && Fits(loads, inputs, perPrimitive)
    ensures ReadsBase(SplitLoads(loads, inputs, perPrimitive), a) <==>
            a < inputs + MixedCount(loads) && (a < inputs - One(perPrimitive) ==> ReadsBase(loads, a))
  {
    hide Fits, SplitLoads, Mixed, MixedBelow;
    var s, first := SplitLoads(loads, inputs, perPrimitive), inputs - One(perPrimitive);
    forall i | 0 <= i < |loads| ensures Mode(s[i]) == Mode(loads[i]) { SameMode(loads, inputs, perPrimitive, i); }
    if ReadsBase(s, a) {
      var i :| 0 <= i < |s| && Mode(s[i]) != 0 && s[i].base == a;
      assert Mode(loads[i]) != 0;
      NewBase(loads, inputs, perPrimitive, i);
    }
    if a < first {
      if ReadsBase(loads, a) {
        var i := KeptAttribute(loads, inputs, perPrimitive, a);
        NewBase(loads, inputs, perPrimitive, i);
        assert s[i].base == a && Mode(s[i]) != 0;
      }
    } else if a < first + MixedCount(loads) {
      var i := AliasAttribute(loads, inputs, perPrimitive, a);
      assert s[i].base == a && Mode(s[i]) != 0;
    } else if a < inputs + MixedCount(loads) {
      var i :| 0 <= i < |loads| && IsPrimitive(loads[i]);
      NewBase(loads, inputs, perPrimitive, i);
      assert s[i].base == a && Mode(s[i]) != 0;
    }
  }

  lemma SameMode(loads: seq<Load>, inputs: nat, perPrimitive: bool, i: nat)
    requires Fits(loads, inputs, perPrimitive) && i < |loads|
    ensures var l := SplitLoads(loads, inputs, perPrimitive)[i];
            Mode(l) == Mode(loads[i]) && l.kind == loads[i].kind && l.location == loads[i].location
  {
  }

  /** An attribute below the aliases is still read by a load that did not move. */
  lemma KeptAttribute(loads: seq<Load>, inputs: nat, perPrimitive: bool, a: nat) returns (i: nat)
    requires Canonical(loads, inputs, perPrimitive) && a < inputs - One(perPrimitive) && ReadsBase(loads, a)
    ensures i < |loads| && Mode(loads[i]) != 0 && loads[i].base == a
    ensures !Moved(loads, loads[i]) && !(perPrimitive && IsPrimitive(loads[i]))
  {
    var k :| 0 <= k < |loads| && Mode(loads[k]) != 0 && loads[k].base == a;
    i := k;
    if Moved(loads, loads[k]) {
      var at := loads[k].location - VAR0;
      var j :| 0 <= j < |loads| && ReadsAt(loads[j], 2, at);
      assert loads[j].location == loads[k].location;
      i := j;
    }
    if perPrimitive {
      var p :| 0 <= p < |loads| && IsPrimitive(loads[p]) && loads[p].base == inputs - 1;
      assert loads[i].base == loads[p].base <==> loads[i].location == loads[p].location;
    }
  }

  lemma AliasAttribute(loads: seq<Load>, inputs: nat, perPrimitive: bool, a: nat) returns (i: nat)
    requires Canonical(loads, inputs, perPrimitive) && Fits(loads, inputs, perPrimitive)
    requires inputs - One(perPrimitive) <= a < inputs - One(perPrimitive) + MixedCount(loads)
    ensures i < |loads| && Mode(loads[i]) == 1 && Generic(loads[i])
    ensures SplitLoads(loads, inputs, perPrimitive)[i].base == a
  {
    hide Fits, SplitLoads, Mixed, MixedBelow, ReadsBase;
    var first := inputs - One(perPrimitive);
    var at := MixedAt(loads, SLOTS, a - first);
    i := FlatReader(loads, at);
    assert loads[i].slots == 1 && loads[i].location == VAR0 + at;
    NewBase(loads, inputs, perPrimitive, i);
  }

  lemma FlatReader(loads: seq<Load>, at: nat) returns (i: nat)
    requires Mixed(loads, at)
    ensures i < |loads| && ReadsAt(loads[i], 1, at)
  {
    var k :| 0 <= k < |loads| && ReadsAt(loads[k], 1, at);
    i := k;
  }

  /** A per-primitive id is the last attribute. */
  lemma PrimitiveLast(loads: seq<Load>, inputs: nat, i: nat)
    requires Canonical(loads, inputs, true) && Fits(loads, inputs, true) && i < |loads| && IsPrimitive(loads[i])
    ensures SplitLoads(loads, inputs, true)[i].base == inputs + MixedCount(loads) - 1
  {
    NewBase(loads, inputs, true, i);
  }

  // ------------------------------------------------- the semantic table

  /** What else build_input_semantics looks at. */
  datatype Shader = Shader(inputs: nat, idPerPrimitive: bool, distances: nat, plainMasks: bool)

  /** The word for one slot of a generic or primitive id load. */
  function SlotWord(l: Load, slot: nat, idPerPrimitive: bool): (w: nat)
    requires l.location == PRIMITIVE_ID || l.location >= VAR0
  {
    var id := l.location == PRIMITIVE_ID;
    var flat := Mode(l) == 1 && !(id && idPerPrimitive);
    (if id then 47 else 15 + l.location - VAR0 + slot) + (if flat then FLAT_BIT else 0)
  }

  /** The slot has a location and an attribute that the table can hold. */
  predicate SlotOk(l: Load, slot: nat, inputs: nat)
    requires l.location == PRIMITIVE_ID || l.location >= VAR0
  {
    (l.location == PRIMITIVE_ID || l.location - VAR0 + slot < SLOTS) && l.base + slot < inputs
  }

  /** The words of the first `n` slots, by attribute. */
  function SlotWrites(l: Load, n: nat, sh: Shader): (r: Option<seq<(nat, nat)>>)
    requires l.location == PRIMITIVE_ID || l.location >= VAR0
  {
    if n == 0 then Some([])
    else
      match SlotWrites(l, n - 1, sh)
      case None => None
      case Some(s) =>
        if !SlotOk(l, n - 1, sh.inputs) then None
        else Some(s + [(l.base + n - 1, SlotWord(l, n - 1, sh.idPerPrimitive))])
  }

  predicate Distance(l: Load) {
    l.location == CLIP_DIST0 || l.location == CLIP_DIST1
  }

  /** The key of a packed distance register. */
  function DistanceWord(l: Load): (w: nat)
    requires Distance(l)
  {
    48 + l.location - CLIP_DIST0
  }

  /** What a load writes into the table; nothing if it cannot be described. */
  function Writes(l: Load, sh: Shader): (r: Option<seq<(nat, nat)>>) {
    if Mode(l) == 0 then Some([])
    else if l.location == PRIMITIVE_ID && (l.slots != 1 || Mode(l) != 1) then None
    else if l.location == CULL_DIST0 || l.location == CULL_DIST1 then None
    else if Distance(l) then
      if l.slots != 1 || sh.distances == 0 || sh.distances > 8 || l.base >= sh.inputs then None
      else Some([(l.base, DistanceWord(l))])
    else if l.location != PRIMITIVE_ID && l.location < VAR0 then Some([])
    else SlotWrites(l, l.slots, sh)
  }

  /** The load writes word `w` for attribute `a`. */
  predicate Gives(l: Load, sh: Shader, a: nat, w: nat) {
    Writes(l, sh).Some? && (a, w) in Writes(l, sh).value
  }

  ghost predicate Given(loads: seq<Load>, sh: Shader, a: nat, w: nat) {
    exists i :: 0 <= i < |loads| && Gives(loads[i], sh, a, w)
  }

  ghost predicate HasWord(loads: seq<Load>, sh: Shader, a: nat) {
    exists w: nat :: Given(loads, sh, a, w)
  }

  /** Every load can be described, no attribute gets two words, and every attribute gets one. */
  ghost predicate Consistent(loads: seq<Load>, sh: Shader) {
    && (forall i :: 0 <= i < |loads| ==> Writes(loads[i], sh).Some?)
    && (forall a: nat, v: nat, w: nat :: Given(loads, sh, a, v) && Given(loads, sh, a, w) ==> v == w)
    && (forall a: nat :: a < sh.inputs ==> HasWord(loads, sh, a))
  }

  /** The attributes seen so far, and the words they got, are exactly those of `log`. */
  ghost predicate Holds(words: seq<nat>, seen: seq<bool>, log: iset<(nat, nat)>) {
    && |words| == SLOTS && |seen| == SLOTS
    && (forall a: nat, w: nat :: (a, w) in log ==> a < SLOTS && seen[a] && words[a] == w)
    && (forall a: nat :: a < SLOTS && seen[a] ==> (a, words[a]) in log)
  }

  /** One word; refused if the attribute already has another. */
  method PutWord(words: array<nat>, seen: array<bool>, a: nat, w: nat, ghost log: iset<(nat, nat)>) returns (ok: bool)
    requires Holds(words[..], seen[..], log) && a < SLOTS
    modifies words, seen
    ensures ok ==> Holds(words[..], seen[..], log + iset{(a, w)})
    ensures !ok ==> exists v: nat :: v != w && (a, v) in log
  {
    if seen[a] && words[a] != w { return false; }
    words[a] := w;
    seen[a] := true;
    return true;
  }

  /** The words that the loads so far, and `part` of the next one, write. */
  ghost predicate Logged(loads: seq<Load>, n: nat, sh: Shader, part: seq<(nat, nat)>, log: iset<(nat, nat)>)
    requires n <= |loads|
  {
    && (forall i :: 0 <= i < n ==> Writes(loads[i], sh).Some?)
    && (forall i, e :: 0 <= i < n && e in Writes(loads[i], sh).value ==> e in log)
    && (forall e :: e in part ==> e in log)
    && (forall e: (nat, nat) :: e in log ==> e in part || exists i :: 0 <= i < n && e in Writes(loads[i], sh).value)
  }

  /** The loop over the slots of one load. */
  method PutLoad(loads: seq<Load>, n: nat, sh: Shader, words: array<nat>, seen: array<bool>,
                 ghost log: iset<(nat, nat)>)
    returns (ok: bool, ghost log': iset<(nat, nat)>)
    requires n < |loads| && sh.inputs <= SLOTS && Holds(words[..], seen[..], log) && Logged(loads, n, sh, [], log)
    modifies words, seen
    ensures ok ==> Holds(words[..], seen[..], log') && Logged(loads, n + 1, sh, [], log')
    ensures !ok ==> !Consistent(loads, sh)
  {
    hide Consistent, Logged;
    var l := loads[n];
    log' := log;
    ok := true;
    if Writes(l, sh).None? { Undescribed(loads, n, sh); }
    if Mode(l) == 0 {
      LogLoad(loads, n, sh, [], log);
      return;
    }
    var id := l.location == PRIMITIVE_ID;
    if id && (l.slots != 1 || Mode(l) != 1) { return false, log; }
    if l.location == CULL_DIST0 || l.location == CULL_DIST1 { return false, log; }
    if Distance(l) {
      if l.slots != 1 || sh.distances == 0 || sh.distances > 8 || l.base >= sh.inputs { return false, log; }
      var word := DistanceWord(l);
      ok := PutWord(words, seen, l.base, word, log);
      if !ok { Clash(loads, n, sh, [], log, l.base, word); return; }
      log' := log + iset{(l.base, word)};
      LogMore(loads, n, sh, [], log, (l.base, word));
      assert [] + [(l.base, word)] == [(l.base, word)];
      LogLoad(loads, n, sh, [(l.base, word)], log');
      return;
    }
    if !id && l.location < VAR0 {
      LogLoad(loads, n, sh, [], log);
      return;
    }
    ghost var part: seq<(nat, nat)> := [];
    for slot := 0 to l.slots
      invariant SlotWrites(l, slot, sh) == Some(part)
      invariant Holds(words[..], seen[..], log') && Logged(loads, n, sh, part, log')
    {
      if !SlotOk(l, slot, sh.inputs) {
        SlotsStop(l, slot, l.slots, sh);
        return false, log';
      }
      var attribute, word := l.base + slot, SlotWord(l, slot, sh.idPerPrimitive);
      ok := PutWord(words, seen, attribute, word, log');
      if !ok {
        if Writes(l, sh).Some? { SlotsInclude(l, slot, l.slots, sh); }
        Clash(loads, n, sh, part, log', attribute, word);
        return;
      }
      LogMore(loads, n, sh, part, log', (attribute, word));
      log' := log' + iset{(attribute, word)};
      part := part + [(attribute, word)];
    }
    LogLoad(loads, n, sh, part, log');
    ok := true;
  }

  lemma Undescribed(loads: seq<Load>, n: nat, sh: Shader)
    requires n < |loads| && Writes(loads[n], sh).None?
    ensures !Consistent(loads, sh)
  {
    hide Writes, Given, HasWord;
  }

  lemma LogMore(loads: seq<Load>, n: nat, sh: Shader, part: seq<(nat, nat)>, log: iset<(nat, nat)>, e: (nat, nat))
    requires n <= |loads| && Logged(loads, n, sh, part, log)
    ensures Logged(loads, n, sh, part + [e], log + iset{e})
  {
    hide Writes;
  }

  lemma LogLoad(loads: seq<Load>, n: nat, sh: Shader, part: seq<(nat, nat)>, log: iset<(nat, nat)>)
    requires n < |loads| && Logged(loads, n, sh, part, log) && Writes(loads[n], sh) == Some(part)
    ensures Logged(loads, n + 1, sh, [], log)
  {
    hide Writes;
  }

  /** All slots of a load must be describable. */
  lemma {:induction false} SlotsStop(l: Load, slot: nat, n: nat, sh: Shader)
    requires (l.location == PRIMITIVE_ID || l.location >= VAR0) && slot < n && !SlotOk(l, slot, sh.inputs)
    ensures SlotWrites(l, n, sh).None?
    decreases n
  {
    if slot + 1 < n { SlotsStop(l, slot, n - 1, sh); }
  }

  lemma {:induction false} SlotsInclude(l: Load, slot: nat, n: nat, sh: Shader)
    requires (l.location == PRIMITIVE_ID || l.location >= VAR0) && slot < n && SlotWrites(l, n, sh).Some?
    ensures (l.base + slot, SlotWord(l, slot, sh.idPerPrimitive)) in SlotWrites(l, n, sh).value
    ensures SlotWrites(l, slot, sh).Some?
    ensures forall e :: e in SlotWrites(l, slot, sh).value ==> e in SlotWrites(l, n, sh).value
    decreases n
  {
    if slot + 1 < n { SlotsInclude(l, slot, n - 1, sh); }
  }

  /** A word that disagrees with the table makes the loads inconsistent. */
  lemma Clash(loads: seq<Load>, n: nat, sh: Shader, part: seq<(nat, nat)>, log: iset<(nat, nat)>, a: nat, w: nat)
    requires n < |loads| && Logged(loads, n, sh, part, log) && exists v: nat :: v != w && (a, v) in log
    requires Writes(loads[n], sh).Some? ==> Gives(loads[n], sh, a, w)
    requires Writes(loads[n], sh).Some? ==> forall e :: e in part ==> e in Writes(loads[n], sh).value
    ensures !Consistent(loads, sh)
  {
    hide Writes;
    var v: nat :| v != w && (a, v) in log;
    if Writes(loads[n], sh).Some? {
      assert Given(loads, sh, a, w);
      if (a, v) in part {
        assert Gives(loads[n], sh, a, v);
      } else {
        var i :| 0 <= i < n && (a, v) in Writes(loads[i], sh).value;
        assert Gives(loads[i], sh, a, v);
      }
      assert Given(loads, sh, a, v);
    }
  }

  /**
   build_input_semantics: succeeds iff there are at most 32 attributes, none of the special masks
   is set and the loads are consistent; the table then has the word of every attribute.
   */
  method BuildSemantics(loads: seq<Load>, sh: Shader) returns (r: Option<seq<nat>>)
    ensures r.Some? <==> sh.inputs <= SLOTS && sh.plainMasks && Consistent(loads, sh)
    ensures r.Some? ==> |r.value| == sh.inputs && forall a: nat :: a < sh.inputs ==> Given(loads, sh, a, r.value[a])
  {
    hide Given, Consistent, Logged;
    if sh.inputs > SLOTS || !sh.plainMasks { return None; }
    var words, seen := new nat[SLOTS](_ => 0), new bool[SLOTS](_ => false);
    ghost var log: iset<(nat, nat)> := iset{};
    LogNone(loads, sh);
    for n := 0 to |loads|
      invariant fresh(words) && fresh(seen) && Holds(words[..], seen[..], log) && Logged(loads, n, sh, [], log)
    {
      var ok;
      ok, log := PutLoad(loads, n, sh, words, seen, log);
      if !ok { return None; }
    }
    forall a: nat, w: nat ensures (a, w) in log <==> Given(loads, sh, a, w) { LogIsGiven(loads, sh, log, a, w); }
    var result := [];
    for attribute := 0 to sh.inputs
      invariant result == words[..attribute]
      invariant forall a: nat :: a < attribute ==> seen[a]
    {
      if !seen[attribute] {
        NotGiven(loads, sh, attribute);
        return None;
      }
      result := result + [words[attribute]];
    }
    AllGiven(loads, sh, log, words[..]);
    r := Some(result);
  }

  lemma LogNone(loads: seq<Load>, sh: Shader)
    ensures Logged(loads, 0, sh, [], iset{})
  {
  }

  lemma LogIsGiven(loads: seq<Load>, sh: Shader, log: iset<(nat, nat)>, a: nat, w: nat)
    requires Logged(loads, |loads|, sh, [], log)
    ensures (a, w) in log <==> Given(loads, sh, a, w)
  {
    hide Writes;
    if (a, w) in log {
      var i :| 0 <= i < |loads| && (a, w) in Writes(loads[i], sh).value;
      assert Gives(loads[i], sh, a, w);
    }
  }

  lemma NotGiven(loads: seq<Load>, sh: Shader, a: nat)
    requires a < sh.inputs && forall w: nat :: !Given(loads, sh, a, w)
    ensures !Consistent(loads, sh)
  {
    hide Given, Writes;
    assert !HasWord(loads, sh, a);
  }

  lemma AllGiven(loads: seq<Load>, sh: Shader, log: iset<(nat, nat)>, words: seq<nat>)
    requires Logged(loads, |loads|, sh, [], log) && sh.inputs <= |words|
    requires forall a: nat, w: nat :: (a, w) in log <==> Given(loads, sh, a, w)
    requires forall a: nat, w: nat :: (a, w) in log ==> a < |words| && words[a] == w
    requires forall a: nat :: a < sh.inputs ==> (a, words[a]) in log
    ensures Consistent(loads, sh)
  {
    hide Given, Writes;
    forall a: nat, v: nat, w: nat | Given(loads, sh, a, v) && Given(loads, sh, a, w) ensures v == w {
      assert (a, v) in log && (a, w) in log;
    }
    forall a: nat | a < sh.inputs ensures HasWord(loads, sh, a) {
      assert Given(loads, sh, a, words[a]);
    }
  }

  // ------------------------------------------------- the split makes the table

  /** The word that describes a load with one slot. */
  function Word(l: Load, idPerPrimitive: bool): (w: nat)
    requires Describable(l)
  {
    if Distance(l) then DistanceWord(l) else SlotWord(l, 0, idPerPrimitive)
  }

  lemma DescribedWrites(l: Load, sh: Shader)
    requires Mode(l) != 0 && Describable(l) && l.base < sh.inputs
    ensures Writes(l, sh) == if Distance(l) && !(0 < sh.distances <= 8) then None
                             else Some([(l.base, Word(l, sh.idPerPrimitive))])
  {
    if !Distance(l) {
      var w := SlotWord(l, 0, sh.idPerPrimitive);
      assert SlotWrites(l, 0, sh) == Some([]);
      assert [] + [(l.base, w)] == [(l.base, w)];
      assert SlotWrites(l, 1, sh) == Some([(l.base, w)]);
    }
  }

  /** `sh` is the shader after the split. */
  ghost predicate AfterSplit(loads: seq<Load>, inputs: nat, perPrimitive: bool, sh: Shader) {
    && Canonical(loads, inputs, perPrimitive) && Fits(loads, inputs, perPrimitive)
    && sh.inputs == inputs + MixedCount(loads)
  }

  /** Between one and eight distances are declared if any is read. */
  predicate DistancesDeclared(loads: seq<Load>, distances: nat) {
    forall i :: 0 <= i < |loads| && Mode(loads[i]) != 0 && Distance(loads[i]) ==> 0 < distances <= 8
  }

  lemma SplitWrites(loads: seq<Load>, inputs: nat, perPrimitive: bool, sh: Shader, i: nat)
    requires AfterSplit(loads, inputs, perPrimitive, sh) && i < |loads|
    ensures var l := SplitLoads(loads, inputs, perPrimitive)[i];
            && Mode(l) == Mode(loads[i]) && l.location == loads[i].location
            && (Mode(l) == 0 ==> Writes(l, sh) == Some([]))
            && (Mode(l) != 0 ==> l.slots == 1 && Describable(l) == Describable(loads[i]))
            && (Mode(l) != 0 && !Describable(l) ==> Writes(l, sh) == None || Writes(l, sh) == Some([]))
            && (Mode(l) != 0 && Describable(l) ==>
                  Writes(l, sh) == if Distance(l) && !(0 < sh.distances <= 8) then None
                                   else Some([(l.base, Word(l, sh.idPerPrimitive))]))
  {
    hide Fits, SplitLoads, Mixed, MixedBelow, Writes;
    var l := SplitLoads(loads, inputs, perPrimitive)[i];
    SameMode(loads, inputs, perPrimitive, i);
    if Mode(l) == 0 {
      NoWrites(l, sh);
    } else {
      NewBase(loads, inputs, perPrimitive, i);
      SplitReads(loads, inputs, perPrimitive, i);
      if Describable(l) { DescribedWrites(l, sh); } else { UndescribedWrites(l, sh); }
    }
  }

  /** A load that cannot be described is refused or skipped. */
  lemma UndescribedWrites(l: Load, sh: Shader)
    requires Mode(l) != 0 && l.slots == 1 && !Describable(l)
    ensures Writes(l, sh) ==
            if l.location < VAR0 && l.location !in {PRIMITIVE_ID, CULL_DIST0, CULL_DIST1} then Some([]) else None
  {
    if l.location >= VAR0 {
      assert SlotWrites(l, 0, sh) == Some([]);
      assert SlotWrites(l, 1, sh) == None;
    }
  }

  lemma NoWrites(l: Load, sh: Shader)
    requires Mode(l) == 0
    ensures Writes(l, sh) == Some([])
  {
  }

  lemma SplitReads(loads: seq<Load>, inputs: nat, perPrimitive: bool, i: nat)
    requires Canonical(loads, inputs, perPrimitive) && Fits(loads, inputs, perPrimitive) && i < |loads|
    requires Mode(SplitLoads(loads, inputs, perPrimitive)[i]) != 0
    ensures SplitLoads(loads, inputs, perPrimitive)[i].base < inputs + MixedCount(loads)
  {
    hide Canonical, Fits, SplitLoads, Mixed, MixedBelow;
    var s := SplitLoads(loads, inputs, perPrimitive);
    AttributesFilled(loads, inputs, perPrimitive, s[i].base);
    assert ReadsBase(s, s[i].base);
  }

  // ------------------------------------------------- what the words say

  /** The match key of the load's location. */
  function Key(l: Load): (k: nat)
    requires Describable(l)
    ensures k < 256
  {
    if l.location == PRIMITIVE_ID then 47
    else if l.location < VAR0 then 48 + (l.location - CLIP_DIST0)
    else 15 + (l.location - VAR0)
  }

  /** The load is to be shaded flat; a per-primitive id is constant anyway. */
  predicate WantsFlat(l: Load, idPerPrimitive: bool) {
    Mode(l) == 1 && !(l.location == PRIMITIVE_ID && idPerPrimitive)
  }

  /** Bit 22 of a semantic word selects flat shading. */
  predicate SaysFlat(w: nat) {
    Bit(w, 22)
  }

  lemma WordParts(l: Load, idPerPrimitive: bool)
    requires Mode(l) != 0 && Describable(l)
    ensures Word(l, idPerPrimitive) % 256 == Key(l)
    ensures SaysFlat(Word(l, idPerPrimitive)) <==> WantsFlat(l, idPerPrimitive) && !Distance(l)
  {
    hide Pow2, Bit;
    var up := if WantsFlat(l, idPerPrimitive) && !Distance(l) then 1 else 0;
    assert Word(l, idPerPrimitive) == Key(l) + FLAT_BIT * up;
    FlatBitAt(Key(l), up);
  }

  /** Bit 22 above an eight-bit key. */
  lemma FlatBitAt(k: nat, up: nat)
    requires k < 256 && up < 2
    ensures (k + FLAT_BIT * up) % 256 == k && (Bit(k + FLAT_BIT * up, 22) <==> up == 1)
  {
    var w := k + FLAT_BIT * up;
    assert Pow2(11) == 2048;
    Pow2Add(11, 11);
    hide Pow2;
    DivUnique(w, Pow2(22), up, k);
    DivUnique(w, 256, 16384 * up, k);
    BitDiv(w, up, 22, 0);
    BitOfZero(0);
  }

  /** The word of attribute `l.base` has the key of `l`, and the flat bit of `l` unless `l` reads a distance. */
  ghost predicate Describes(loads: seq<Load>, sh: Shader, l: Load)
    requires Describable(l)
  {
    exists w: nat :: Given(loads, sh, l.base, w) && w % 256 == Key(l)
                     && (SaysFlat(w) <==> WantsFlat(l, sh.idPerPrimitive) && !Distance(l))
  }

  lemma SplitGives(loads: seq<Load>, inputs: nat, perPrimitive: bool, sh: Shader, i: nat)
    requires AfterSplit(loads, inputs, perPrimitive, sh) && DistancesDeclared(loads, sh.distances) && i < |loads|
    requires Mode(loads[i]) != 0 && Describable(loads[i])
    ensures var s := SplitLoads(loads, inputs, perPrimitive);
            Describable(s[i]) && Given(s, sh, s[i].base, Word(s[i], sh.idPerPrimitive)) && Describes(s, sh, s[i])
  {
    hide Fits, SplitLoads, Mixed, MixedBelow, Writes, Canonical, SaysFlat, Word;
    SplitWrites(loads, inputs, perPrimitive, sh, i);
    var l := SplitLoads(loads, inputs, perPrimitive)[i];
    WordParts(l, sh.idPerPrimitive);
    assert Gives(l, sh, l.base, Word(l, sh.idPerPrimitive));
  }

  /** What the table needs of the loads before the split. */
  ghost predicate CanDescribe(loads: seq<Load>, inputs: nat, distances: nat) {
    AllDescribable(loads) && DistancesDeclared(loads, distances) && AllRead(loads, inputs)
  }

  /**
   After the split the semantic table can be built iff every load is at a location that it can
   describe, the distances that are read are declared, and every attribute is read.  The word of
   every attribute then has the key of the loads that read it, and their flat bit unless they
   read a distance.
   */
  lemma SplitIsDescribed(loads: seq<Load>, inputs: nat, perPrimitive: bool, sh: Shader)
    requires AfterSplit(loads, inputs, perPrimitive, sh)
    ensures var s := SplitLoads(loads, inputs, perPrimitive);
            && (Consistent(s, sh) <==> CanDescribe(loads, inputs, sh.distances))
            && (Consistent(s, sh) ==>
                  forall i :: 0 <= i < |s| && Mode(s[i]) != 0 ==> Describable(s[i]) && Describes(s, sh, s[i]))
  {
    hide Fits, SplitLoads, Mixed, MixedBelow, Writes, Given, Canonical, SaysFlat, Describable, Consistent, Describes;
    var s := SplitLoads(loads, inputs, perPrimitive);
    if !AllDescribable(loads) {
      var i :| 0 <= i < |loads| && Mode(loads[i]) != 0 && !Describable(loads[i]);
      UndescribedRefused(loads, inputs, perPrimitive, sh, i);
    } else if !DistancesDeclared(loads, sh.distances) {
      var i :| 0 <= i < |loads| && Mode(loads[i]) != 0 && Distance(loads[i]) && !(0 < sh.distances <= 8);
      SplitWrites(loads, inputs, perPrimitive, sh, i);
      Undescribed(s, i, sh);
    } else if !AllRead(loads, inputs) {
      var a: nat :| a < inputs && !ReadsBase(loads, a);
      UnreadRefused(loads, inputs, perPrimitive, sh, a);
    } else {
      forall i | 0 <= i < |s| && Mode(s[i]) != 0 ensures Describable(s[i]) && Describes(s, sh, s[i]) {
        SameMode(loads, inputs, perPrimitive, i);
        SplitGives(loads, inputs, perPrimitive, sh, i);
      }
      DescribedIsConsistent(loads, inputs, perPrimitive, sh);
    }
  }

  /** A load at another location is refused, or skipped, and then its attribute has no word. */
  lemma UndescribedRefused(loads: seq<Load>, inputs: nat, perPrimitive: bool, sh: Shader, i: nat)
    requires AfterSplit(loads, inputs, perPrimitive, sh)
    requires i < |loads| && Mode(loads[i]) != 0 && !Describable(loads[i])
    ensures !Consistent(SplitLoads(loads, inputs, perPrimitive), sh)
  {
    hide Fits, SplitLoads, Mixed, MixedBelow, Writes, Consistent;
    var s := SplitLoads(loads, inputs, perPrimitive);
    SplitWrites(loads, inputs, perPrimitive, sh, i);
    UndescribedWrites(s[i], sh);
    if Writes(s[i], sh).None? {
      Undescribed(s, i, sh);
    } else {
      SplitReads(loads, inputs, perPrimitive, i);
      forall w: nat ensures !Given(s, sh, s[i].base, w) {
        if Given(s, sh, s[i].base, w) {
          var j :| 0 <= j < |s| && Gives(s[j], sh, s[i].base, w);
          SplitWrites(loads, inputs, perPrimitive, sh, j);
          NoMixedAttribute(loads, inputs, perPrimitive, i, j);
        }
      }
      NotGiven(s, sh, s[i].base);
    }
  }

  /** An attribute that no load reads has no word. */
  lemma UnreadRefused(loads: seq<Load>, inputs: nat, perPrimitive: bool, sh: Shader, a: nat)
    requires AfterSplit(loads, inputs, perPrimitive, sh) && a < inputs && !ReadsBase(loads, a)
    ensures !Consistent(SplitLoads(loads, inputs, perPrimitive), sh)
  {
    hide Fits, SplitLoads, Mixed, MixedBelow, Writes, Consistent;
    var s := SplitLoads(loads, inputs, perPrimitive);
    AttributesFilled(loads, inputs, perPrimitive, a);
    forall w: nat ensures !Given(s, sh, a, w) {
      if Given(s, sh, a, w) {
        var j :| 0 <= j < |s| && Gives(s[j], sh, a, w);
        SplitWrites(loads, inputs, perPrimitive, sh, j);
      }
    }
    NotGiven(s, sh, a);
  }

  lemma DescribedIsConsistent(loads: seq<Load>, inputs: nat, perPrimitive: bool, sh: Shader)
    requires AfterSplit(loads, inputs, perPrimitive, sh) && CanDescribe(loads, inputs, sh.distances)
    ensures Consistent(SplitLoads(loads, inputs, perPrimitive), sh)
  {
    hide Fits, SplitLoads, Mixed, MixedBelow, Writes, Given, Canonical, Describes;
    var s := SplitLoads(loads, inputs, perPrimitive);
    forall i | 0 <= i < |s| ensures Writes(s[i], sh).Some? { SplitWrites(loads, inputs, perPrimitive, sh, i); }
    forall a: nat, v: nat, w: nat | Given(s, sh, a, v) && Given(s, sh, a, w) ensures v == w {
      OneWord(loads, inputs, perPrimitive, sh, a, v, w);
    }
    forall a: nat | a < sh.inputs ensures HasWord(s, sh, a) {
      AttributesFilled(loads, inputs, perPrimitive, a);
      assert ReadsBase(s, a);
      var i :| 0 <= i < |s| && Mode(s[i]) != 0 && s[i].base == a;
      SameMode(loads, inputs, perPrimitive, i);
      SplitGives(loads, inputs, perPrimitive, sh, i);
    }
  }

  /** Loads of the same attribute have the same word. */
  lemma OneWord(loads: seq<Load>, inputs: nat, perPrimitive: bool, sh: Shader, a: nat, v: nat, w: nat)
    requires AfterSplit(loads, inputs, perPrimitive, sh)
    requires var s := SplitLoads(loads, inputs, perPrimitive); Given(s, sh, a, v) && Given(s, sh, a, w)
    ensures v == w
  {
    hide Fits, SplitLoads, Mixed, MixedBelow, Writes;
    var s := SplitLoads(loads, inputs, perPrimitive);
    var i :| 0 <= i < |s| && Gives(s[i], sh, a, v);
    var j :| 0 <= j < |s| && Gives(s[j], sh, a, w);
    SplitWrites(loads, inputs, perPrimitive, sh, i);
    SplitWrites(loads, inputs, perPrimitive, sh, j);
    NoMixedAttribute(loads, inputs, perPrimitive, i, j);
  }

  // ------------------------------------------------- other locations are never split

  /** No attribute is read in both modes. */
  predicate OneModeEach(loads: seq<Load>) {
    forall i, j :: 0 <= i < |loads| && 0 <= j < |loads| && Mode(loads[i]) != 0 && Mode(loads[j]) != 0 ==>
      (loads[i].base == loads[j].base ==> Mode(loads[i]) == Mode(loads[j]))
  }

  /** No location but the generic ones is read in both modes. */
  predicate OneModeElsewhere(loads: seq<Load>) {
    forall i, j :: 0 <= i < |loads| && 0 <= j < |loads| && Mode(loads[i]) != 0 && Mode(loads[j]) != 0 ==>
      (!Generic(loads[i]) && loads[i].location == loads[j].location ==> Mode(loads[i]) == Mode(loads[j]))
  }

  /** After the split no attribute is read both flat and interpolated, iff no other location is. */
  lemma OneModeIff(loads: seq<Load>, inputs: nat, perPrimitive: bool)
    requires Canonical(loads, inputs, perPrimitive) && Fits(loads, inputs, perPrimitive)
    ensures OneModeEach(SplitLoads(loads, inputs, perPrimitive)) <==> OneModeElsewhere(loads)
  {
    hide Fits, SplitLoads, Mixed, MixedBelow, Canonical;
    var s := SplitLoads(loads, inputs, perPrimitive);
    forall i | 0 <= i < |s| ensures Mode(s[i]) == Mode(loads[i]) { SameMode(loads, inputs, perPrimitive, i); }
    if OneModeElsewhere(loads) {
      forall i, j | 0 <= i < |s| && 0 <= j < |s| && Mode(s[i]) != 0 && Mode(s[j]) != 0 && s[i].base == s[j].base
        ensures Mode(s[i]) == Mode(s[j])
      {
        OneModePair(loads, inputs, perPrimitive, i, j);
      }
    } else {
      var i, j :| && 0 <= i < |loads| && 0 <= j < |loads| && Mode(loads[i]) != 0 && Mode(loads[j]) != 0
                  && !Generic(loads[i]) && loads[i].location == loads[j].location && Mode(loads[i]) != Mode(loads[j]);
      var a, b := TwoModes(loads, inputs, perPrimitive, i, j);
      assert s[a].base == s[b].base && Mode(s[a]) != Mode(s[b]);
    }
  }

  lemma OneModePair(loads: seq<Load>, inputs: nat, perPrimitive: bool, i: nat, j: nat)
    requires Canonical(loads, inputs, perPrimitive) && Fits(loads, inputs, perPrimitive) && OneModeElsewhere(loads)
    requires i < |loads| && j < |loads| && Mode(loads[i]) != 0 && Mode(loads[j]) != 0
    requires var s := SplitLoads(loads, inputs, perPrimitive); s[i].base == s[j].base
    ensures Mode(loads[i]) == Mode(loads[j])
  {
    hide Fits, SplitLoads, Mixed, MixedBelow;
    NoStray(loads, inputs, perPrimitive, i);
    NoStray(loads, inputs, perPrimitive, j);
    SameMode(loads, inputs, perPrimitive, i);
    SameMode(loads, inputs, perPrimitive, j);
    NoMixedAttribute(loads, inputs, perPrimitive, i, j);
  }

  /** A stray id is read in both modes. */
  lemma NoStray(loads: seq<Load>, inputs: nat, perPrimitive: bool, i: nat)
    requires Canonical(loads, inputs, perPrimitive) && i < |loads| && OneModeElsewhere(loads)
    ensures !Stray(loads[i], perPrimitive)
  {
  }

  /** Two loads of one attribute in different modes, for a location that is not split. */
  lemma TwoModes(loads: seq<Load>, inputs: nat, perPrimitive: bool, i: nat, j: nat) returns (a: nat, b: nat)
    requires Canonical(loads, inputs, perPrimitive) && Fits(loads, inputs, perPrimitive)
    requires i < |loads| && j < |loads| && Mode(loads[i]) != 0 && Mode(loads[j]) != 0
    requires !Generic(loads[i]) && loads[i].location == loads[j].location && Mode(loads[i]) != Mode(loads[j])
    ensures a < |loads| && b < |loads| && Mode(loads[a]) != 0 && Mode(loads[b]) != 0 && Mode(loads[a]) != Mode(loads[b])
    ensures var s := SplitLoads(loads, inputs, perPrimitive); s[a].base == s[b].base
  {
    hide Fits, SplitLoads, Mixed, MixedBelow;
    NewBase(loads, inputs, perPrimitive, i);
    NewBase(loads, inputs, perPrimitive, j);
    a, b := i, j;
    if perPrimitive && loads[i].location == PRIMITIVE_ID && MixedCount(loads) > 0 {
      if Mode(loads[i]) == 1 { a := j; }
      b := AliasAttribute(loads, inputs, perPrimitive, inputs - 1);
    }
  }

  // ------------------------------------------------- one location each

  ghost predicate OneLocationEach(loads: seq<Load>) {
    forall i, j :: 0 <= i < |loads| && 0 <= j < |loads| && Mode(loads[i]) != 0 && Mode(loads[j]) != 0 ==>
      (loads[i].base == loads[j].base ==> loads[i].location == loads[j].location)
  }

  predicate HasStray(loads: seq<Load>, perPrimitive: bool) {
    exists i :: 0 <= i < |loads| && Stray(loads[i], perPrimitive)
  }

  /** After the split no attribute belongs to two locations, iff nothing is split or no id strays. */
  lemma OneLocationIff(loads: seq<Load>, inputs: nat, perPrimitive: bool)
    requires Canonical(loads, inputs, perPrimitive) && Fits(loads, inputs, perPrimitive)
    ensures OneLocationEach(SplitLoads(loads, inputs, perPrimitive)) <==>
            MixedCount(loads) == 0 || !HasStray(loads, perPrimitive)
  {
    hide Fits, SplitLoads, Mixed, MixedBelow, Canonical;
    var s := SplitLoads(loads, inputs, perPrimitive);
    forall i | 0 <= i < |s| ensures Mode(s[i]) == Mode(loads[i]) && s[i].location == loads[i].location {
      SameMode(loads, inputs, perPrimitive, i);
    }
    if MixedCount(loads) == 0 {
      NothingSplit(loads, inputs, perPrimitive);
    } else if !HasStray(loads, perPrimitive) {
      forall i, j | 0 <= i < |s| && 0 <= j < |s| && Mode(s[i]) != 0 && Mode(s[j]) != 0 && s[i].base == s[j].base
        ensures s[i].location == s[j].location
      {
        assert !Stray(loads[i], perPrimitive) && !Stray(loads[j], perPrimitive);
        NoMixedAttribute(loads, inputs, perPrimitive, i, j);
      }
    } else {
      var i :| 0 <= i < |loads| && Stray(loads[i], perPrimitive);
      NewBase(loads, inputs, perPrimitive, i);
      var b := AliasAttribute(loads, inputs, perPrimitive, inputs - 1);
      assert s[i].base == s[b].base && Generic(s[b]);
    }
  }

  lemma NothingSplit(loads: seq<Load>, inputs: nat, perPrimitive: bool)
    requires Canonical(loads, inputs, perPrimitive) && Fits(loads, inputs, perPrimitive) && MixedCount(loads) == 0
    ensures SplitLoads(loads, inputs, perPrimitive) == loads && OneLocationEach(loads)
  {
  }

  // ------------------------------------------------- distances are never flat

  /** Every word has the flat bit that the loads of its attribute ask for. */
  ghost predicate FlatBitsRight(loads: seq<Load>, sh: Shader) {
    forall i, w: nat :: 0 <= i < |loads| && Mode(loads[i]) != 0 && Given(loads, sh, loads[i].base, w) ==>
      (SaysFlat(w) <==> WantsFlat(loads[i], sh.idPerPrimitive))
  }

  predicate NoFlatDistance(loads: seq<Load>) {
    forall i :: 0 <= i < |loads| && Distance(loads[i]) ==> Mode(loads[i]) != 1
  }

  /** Wherever the table can be built, its flat bits are right iff no distance register is read flat. */
  lemma FlatBitsIff(loads: seq<Load>, inputs: nat, perPrimitive: bool, sh: Shader)
    requires AfterSplit(loads, inputs, perPrimitive, sh) && Consistent(SplitLoads(loads, inputs, perPrimitive), sh)
    ensures FlatBitsRight(SplitLoads(loads, inputs, perPrimitive), sh) <==> NoFlatDistance(loads)
  {
    hide Fits, SplitLoads, Mixed, MixedBelow, Writes, Given, Canonical, SaysFlat, Consistent, Word;
    var s := SplitLoads(loads, inputs, perPrimitive);
    SplitIsDescribed(loads, inputs, perPrimitive, sh);
    forall i | 0 <= i < |s| ensures Mode(s[i]) == Mode(loads[i]) { SameMode(loads, inputs, perPrimitive, i); }
    forall i, w: nat | 0 <= i < |s| && Mode(s[i]) != 0 && Given(s, sh, s[i].base, w)
      ensures SaysFlat(w) <==> WantsFlat(s[i], sh.idPerPrimitive) && !Distance(loads[i])
    {
      FlatBitOf(loads, inputs, perPrimitive, sh, i, w);
    }
    if FlatBitsRight(s, sh) {
      forall i | 0 <= i < |loads| && Distance(loads[i]) ensures Mode(loads[i]) != 1 {
        FlatDistance(loads, inputs, perPrimitive, sh, i);
      }
    }
  }

  lemma FlatBitOf(loads: seq<Load>, inputs: nat, perPrimitive: bool, sh: Shader, i: nat, w: nat)
    requires AfterSplit(loads, inputs, perPrimitive, sh) && DistancesDeclared(loads, sh.distances) && i < |loads|
    requires Mode(loads[i]) != 0 && Describable(loads[i])
    requires var s := SplitLoads(loads, inputs, perPrimitive); Given(s, sh, s[i].base, w)
    ensures var l := SplitLoads(loads, inputs, perPrimitive)[i];
            && Describable(l) && w % 256 == Key(l)
            && (SaysFlat(w) <==> WantsFlat(l, sh.idPerPrimitive) && !Distance(loads[i]))
  {
    hide Fits, SplitLoads, Mixed, MixedBelow, Writes, Given, Canonical, SaysFlat, Word;
    var l := SplitLoads(loads, inputs, perPrimitive)[i];
    SplitWrites(loads, inputs, perPrimitive, sh, i);
    SplitGives(loads, inputs, perPrimitive, sh, i);
    OneWord(loads, inputs, perPrimitive, sh, l.base, w, Word(l, sh.idPerPrimitive));
    WordParts(l, sh.idPerPrimitive);
  }

  /** A distance that is read flat gets a word without the flat bit. */
  lemma FlatDistance(loads: seq<Load>, inputs: nat, perPrimitive: bool, sh: Shader, i: nat)
    requires AfterSplit(loads, inputs, perPrimitive, sh) && DistancesDeclared(loads, sh.distances) && i < |loads|
    requires Distance(loads[i]) && (Mode(loads[i]) != 0 ==> Describable(loads[i]))
    ensures Mode(loads[i]) == 1 ==> !FlatBitsRight(SplitLoads(loads, inputs, perPrimitive), sh)
  {
    hide Fits, SplitLoads, Mixed, MixedBelow, Writes, Given, Canonical, SaysFlat, Word;
    if Mode(loads[i]) == 1 {
      var l := SplitLoads(loads, inputs, perPrimitive)[i];
      SplitWrites(loads, inputs, perPrimitive, sh, i);
      SplitGives(loads, inputs, perPrimitive, sh, i);
      FlatBitOf(loads, inputs, perPrimitive, sh, i, Word(l, sh.idPerPrimitive));
    }
  }

  /** One distance register, read flat or in both modes. */
  function FlatClip(): (s: seq<Load>) {
    [Load(Flat, CLIP_DIST0, 1, 0)]
  }

  function MixedClip(): (s: seq<Load>) {
    [Load(Flat, CLIP_DIST0, 1, 0), Load(Interpolated, CLIP_DIST0, 1, 0)]
  }

  lemma {:induction false} NothingMixed(loads: seq<Load>, n: nat)
    requires forall i :: 0 <= i < |loads| ==> loads[i].location < VAR0
    ensures MixedBelow(loads, n) == 0
  {
    if n > 0 { NothingMixed(loads, n - 1); }
  }

  /** A shader that reads a distance flat: its word does not say so. */
  lemma FlatDistanceLosesBit(distances: nat)
    requires 0 < distances <= 8
    ensures var loads, sh := FlatClip(), Shader(1, false, distances, true);
            && AfterSplit(loads, 1, false, sh) && SplitLoads(loads, 1, false) == loads
            && Given(loads, sh, 0, 48) && !SaysFlat(48) && WantsFlat(loads[0], false)
  {
    var loads, sh := FlatClip(), Shader(1, false, distances, true);
    NothingMixed(loads, SLOTS);
    assert ReadsBase(loads, 0) by { assert loads[0].base == 0; }
    assert Gives(loads[0], sh, 0, 48);
    WordParts(loads[0], false);
  }

  /** A shader that reads a distance in both modes: the split leaves it so. */
  lemma MixedDistanceStays()
    ensures var loads := MixedClip();
            && Canonical(loads, 1, false) && Fits(loads, 1, false) && SplitLoads(loads, 1, false) == loads
            && loads[0].base == loads[1].base && Mode(loads[0]) != Mode(loads[1])
  {
    var loads := MixedClip();
    NothingMixed(loads, SLOTS);
    assert ReadsBase(loads, 0) by { assert loads[0].base == 0; }
  }

  // ------------------------------------------------- inputs that the passes do not handle

  /** A shader that reads the viewport index, the only input at location 23. */
  function ViewportIndex(): (s: seq<Load>) {
    [Load(Flat, 23, 1, 0)]
  }

  /** Its attribute is counted and never described, so that the table is refused. */
  lemma ViewportRefused(distances: nat)
    ensures var loads, sh := ViewportIndex(), Shader(1, false, distances, true);
            && AfterSplit(loads, 1, false, sh) && AllRead(loads, 1) && DistancesDeclared(loads, distances)
            && SplitLoads(loads, 1, false) == loads && !Consistent(loads, sh)
  {
    var loads, sh := ViewportIndex(), Shader(1, false, distances, true);
    NothingMixed(loads, SLOTS);
    assert ReadsBase(loads, 0) by { assert loads[0].base == 0; }
    UndescribedRefused(loads, 1, false, sh, 0);
  }

  /** A shader with a mixed location and a per-primitive id that is read in both modes. */
  function StrayId(): (s: seq<Load>) {
    [Load(Flat, VAR0, 1, 0), Load(Interpolated, VAR0, 1, 0),
     Load(Flat, PRIMITIVE_ID, 1, 1), Load(Interpolated, PRIMITIVE_ID, 1, 1)]
  }

  /** The extra attribute is the one that the interpolated id still reads. */
  lemma StrayIdShares()
    ensures var loads := StrayId();
            && Canonical(loads, 2, true) && Fits(loads, 2, true)
            && !OneLocationEach(SplitLoads(loads, 2, true)) && !OneModeEach(SplitLoads(loads, 2, true))
  {
    hide SplitLoads, OneLocationEach, OneModeEach, OneModeElsewhere, HasStray, Canonical, MixedBelow, StrayId;
    StrayIdCanonical();
    StrayIdMixed();
    OneLocationIff(StrayId(), 2, true);
    OneModeIff(StrayId(), 2, true);
  }

  lemma StrayIdCanonical()
    ensures Canonical(StrayId(), 2, true) && HasStray(StrayId(), true) && !OneModeElsewhere(StrayId())
  {
    var loads := StrayId();
    assert IsPrimitive(loads[2]) && Stray(loads[3], true);
    assert Mode(loads[2]) != Mode(loads[3]) && !Generic(loads[2]);
  }

  lemma StrayIdMixed()
    ensures MixedCount(StrayId()) == 1
  {
    var loads := StrayId();
    assert ReadsAt(loads[0], 1, 0) && ReadsAt(loads[1], 2, 0);
    OnlyFirstMixed(loads, SLOTS);
  }

  lemma {:induction false} OnlyFirstMixed(loads: seq<Load>, n: nat)
    requires forall i :: 0 <= i < |loads| ==> loads[i].location + loads[i].slots <= VAR0 + 1
    requires Mixed(loads, 0) && n > 0
    ensures MixedBelow(loads, n) == 1
  {
    if n == 1 {
      assert MixedBelow(loads, 0) == 0;
    } else {
      OnlyFirstMixed(loads, n - 1);
      assert !Mixed(loads, n - 1);
    }
  }

  // ------------------------------------------------- both passes

  /**
   The two passes together, on inputs as the compiler hands them over.  They succeed iff the
   attributes fit, no special mask is set, and the loads can be described; every load then reads
   an attribute whose word has its key, and its flat bit unless it reads a distance.
   */
  method SplitAndDescribe(loads: seq<Load>, inputs: u32, perPrimitive: bool, idPerPrimitive: bool, distances: nat,
                          plainMasks: bool)
    returns (r: Option<(seq<Load>, seq<nat>)>)
    requires Canonical(loads, inputs, perPrimitive)
    ensures r.Some? <==>
            inputs + MixedCount(loads) <= SLOTS && plainMasks && CanDescribe(loads, inputs, distances)
    ensures r.Some? ==>
              var (s, words) := r.value;
              && |s| == |loads| && |words| == inputs + MixedCount(loads)
              && forall i :: 0 <= i < |s| && Mode(s[i]) != 0 ==>
                   && s[i].location == loads[i].location && s[i].kind == loads[i].kind
                   && Describable(s[i]) && s[i].base < |words| && words[s[i].base] % 256 == Key(s[i])
                   && (SaysFlat(words[s[i].base]) <==> WantsFlat(s[i], idPerPrimitive) && !Distance(s[i]))
  {
    hide SplitLoads, Mixed, MixedBelow, Writes, Given, Consistent, Word, SaysFlat, Describes;
    var split := Split(loads, inputs, perPrimitive);
    if split.None? { return None; }
    var (s, count) := split.value;
    var sh := Shader(count, idPerPrimitive, distances, plainMasks);
    SplitIsDescribed(loads, inputs, perPrimitive, sh);
    var words := BuildSemantics(s, sh);
    if words.None? { return None; }
    forall i | 0 <= i < |s| && Mode(s[i]) != 0
      ensures s[i].location == loads[i].location && s[i].kind == loads[i].kind && Describable(s[i]) && s[i].base < count
      ensures words.value[s[i].base] % 256 == Key(s[i])
      ensures SaysFlat(words.value[s[i].base]) <==> WantsFlat(s[i], idPerPrimitive) && !Distance(s[i])
    {
      SameMode(loads, inputs, perPrimitive, i);
      NewBase(loads, inputs, perPrimitive, i);
      SplitReads(loads, inputs, perPrimitive, i);
      FlatBitOf(loads, inputs, perPrimitive, sh, i, words.value[s[i].base]);
    }
    r := Some((s, words.value));
  }
}
