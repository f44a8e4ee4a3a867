/**
 Static descriptor use (libpsbc/psbc_compile.c): which bindings of a pipeline stage, or of two
 merged stages that share one table, must be treated as used.
 */
module DescriptorUse {
  import opened Words

  const SETS: nat := 4
  const BINDINGS: nat := 64

  /** A variable that a dereference leads to. */
  datatype Resource = Resource(set_: nat, binding: nat)

  /** The instructions that the walk looks at; a source that leads nowhere is `None`. */
  datatype Instr =
    | ResourceIndex(resource: Resource)
    | ImageAccess(image: Option<Resource>)
    | Texture(sources: seq<Option<Resource>>)
    | Unrelated

  /** The resources of one instruction, in the order they are recorded. */
  function Sources(i: Instr): (s: seq<Option<Resource>>) {
    match i
    case ResourceIndex(r) => [Some(r)]
    case ImageAccess(r) => [r]
    case Texture(s) => s
    case Unrelated => []
  }

  /** Some instruction names binding `b` of set `s`. */
  ghost predicate Names(code: seq<Instr>, s: nat, b: nat) {
    exists i, k :: 0 <= i < |code| && 0 <= k < |Sources(code[i])| && Sources(code[i])[k] == Some(Resource(s, b))
  }

  /** Some instruction names a binding of set `s` that the mask can hold. */
  ghost predicate NamesAny(code: seq<Instr>, s: nat) {
    exists b: nat :: b < BINDINGS && Names(code, s, b)
  }

  ghost predicate UsesSet(code: seq<Instr>, s: nat) {
    exists b: nat :: Names(code, s, b)
  }

  // ------------------------------------------------- recording

  lemma OrBit(m: nat, k: nat, i: nat)
    ensures Bit(Or(m, Pow2(k)), i) == (Bit(m, i) || i == k)
  {
    BitOr(m, Pow2(k), i);
    BitPow2(k, i);
  }

  /** The state of the walk: the sets and bindings recorded are those named so far. */
  ghost predicate Recorded(sets: nat, masks: seq<nat>, uses: iset<(nat, nat)>) {
    && |masks| == SETS
    && (forall s: nat :: s < SETS ==> (Bit(sets, s) <==> exists b: nat :: (s, b) in uses))
    && (forall s: nat, b: nat :: s < SETS ==> (Bit(masks[s], b) <==> b < BINDINGS && (s, b) in uses))
  }

  /** record_descriptor_use */
  method Record(r: Resource, sets: nat, masks: array<nat>, ghost uses: iset<(nat, nat)>) returns (sets': nat)
    requires Recorded(sets, masks[..], uses)
    modifies masks
    ensures Recorded(sets', masks[..], uses + iset{(r.set_, r.binding)})
  {
    ghost var more := uses + iset{(r.set_, r.binding)};
    sets' := sets;
    if r.set_ >= SETS {
      forall s: nat | s < SETS ensures Bit(sets, s) <==> exists b: nat :: (s, b) in more {
        if Bit(sets, s) { var b: nat :| (s, b) in uses; assert (s, b) in more; }
      }
      return;
    }
    sets' := Or(sets, Pow2(r.set_));
    if r.binding < BINDINGS { masks[r.set_] := Or(masks[r.set_], Pow2(r.binding)); }
    forall s: nat | s < SETS ensures Bit(sets', s) <==> exists b: nat :: (s, b) in more {
      OrBit(sets, r.set_, s);
      if Bit(sets, s) { var b: nat :| (s, b) in uses; assert (s, b) in more; }
      assert (r.set_, r.binding) in more;
    }
    forall s: nat, b: nat | s < SETS ensures Bit(masks[s], b) <==> b < BINDINGS && (s, b) in more {
      OrBit(old(masks[r.set_]), r.binding, b);
    }
  }

  /** gather_static_descriptor_use, starting from empty masks. */
  method Gather(code: seq<Instr>) returns (sets: nat, masks: array<nat>)
    ensures fresh(masks) && masks.Length == SETS
    ensures forall s: nat :: s < SETS ==> (Bit(sets, s) <==> UsesSet(code, s))
    ensures forall s: nat, b: nat :: s < SETS ==> (Bit(masks[s], b) <==> b < BINDINGS && Names(code, s, b))
  {
    hide Recorded, OnlyNamed, AllNamed, Names, UsesSet, Sources;
    sets := 0;
    masks := new nat[SETS](_ => 0);
    ghost var uses: iset<(nat, nat)> := iset{};
    NothingRecorded(masks[..]);
    NothingNamed(code);
    for n := 0 to |code|
      invariant fresh(masks) && Recorded(sets, masks[..], uses)
      invariant OnlyNamed(code, uses) && AllNamed(code, n, uses)
    {
      var sources := Sources(code[n]);
      for k := 0 to |sources|
        invariant fresh(masks) && Recorded(sets, masks[..], uses)
        invariant OnlyNamed(code, uses) && AllNamed(code, n, uses)
        invariant forall j :: 0 <= j < k && sources[j].Some? ==>
                    (sources[j].value.set_, sources[j].value.binding) in uses
      {
        if sources[k].Some? {
          var r := sources[k].value;
          OneMoreNamed(code, n, k, uses);
          sets := Record(r, sets, masks, uses);
          uses := uses + iset{(r.set_, r.binding)};
        }
      }
      AllOfOne(code, n, uses);
    }
    GatheredMeans(code, sets, masks[..], uses);
  }

  ghost predicate OnlyNamed(code: seq<Instr>, uses: iset<(nat, nat)>) {
    forall u :: u in uses ==> Names(code, u.0, u.1)
  }

  ghost predicate AllNamed(code: seq<Instr>, n: nat, uses: iset<(nat, nat)>)
    requires n <= |code|
  {
    forall i, j :: 0 <= i < n && 0 <= j < |Sources(code[i])| && Sources(code[i])[j].Some? ==>
      (Sources(code[i])[j].value.set_, Sources(code[i])[j].value.binding) in uses
  }

  lemma NothingNamed(code: seq<Instr>)
    ensures OnlyNamed(code, iset{}) && AllNamed(code, 0, iset{})
  {
  }

  lemma OneMoreNamed(code: seq<Instr>, n: nat, k: nat, uses: iset<(nat, nat)>)
    requires n < |code| && OnlyNamed(code, uses) && AllNamed(code, n, uses)
    requires k < |Sources(code[n])| && Sources(code[n])[k].Some?
    ensures var r := Sources(code[n])[k].value;
            var more := uses + iset{(r.set_, r.binding)}; OnlyNamed(code, more) && AllNamed(code, n, more)
  {
    hide Sources;
    var r := Sources(code[n])[k].value;
    assert Names(code, r.set_, r.binding) by { assert Sources(code[n])[k] == Some(Resource(r.set_, r.binding)); }
  }

  lemma AllOfOne(code: seq<Instr>, n: nat, uses: iset<(nat, nat)>)
    requires n < |code| && AllNamed(code, n, uses)
    requires forall j :: 0 <= j < |Sources(code[n])| && Sources(code[n])[j].Some? ==>
               (Sources(code[n])[j].value.set_, Sources(code[n])[j].value.binding) in uses
    ensures AllNamed(code, n + 1, uses)
  {
    hide Sources;
  }

  lemma NothingRecorded(masks: seq<nat>)
    requires |masks| == SETS && forall s: nat :: s < SETS ==> masks[s] == 0
    ensures Recorded(0, masks, iset{})
  {
    forall s: nat, b: nat | s < SETS ensures !Bit(masks[s], b) { BitOfZero(b); }
    forall s: nat | s < SETS ensures !Bit(0, s) { BitOfZero(s); }
  }

  lemma UsesAll(code: seq<Instr>, uses: iset<(nat, nat)>, s: nat, b: nat)
    requires OnlyNamed(code, uses) && AllNamed(code, |code|, uses)
    ensures (s, b) in uses <==> Names(code, s, b)
  {
    if Names(code, s, b) {
      var i, k :| 0 <= i < |code| && 0 <= k < |Sources(code[i])| && Sources(code[i])[k] == Some(Resource(s, b));
      assert Sources(code[i])[k].value == Resource(s, b);
    }
  }

  lemma GatheredMeans(code: seq<Instr>, sets: nat, masks: seq<nat>, uses: iset<(nat, nat)>)
    requires Recorded(sets, masks, uses) && OnlyNamed(code, uses) && AllNamed(code, |code|, uses)
    ensures forall s: nat :: s < SETS ==> (Bit(sets, s) <==> UsesSet(code, s))
    ensures forall s: nat, b: nat :: s < SETS ==> (Bit(masks[s], b) <==> b < BINDINGS && Names(code, s, b))
  {
    hide Names, OnlyNamed, AllNamed;
    forall s: nat, b: nat ensures (s, b) in uses <==> Names(code, s, b) { UsesAll(code, uses, s, b); }
  }

  // ------------------------------------------------- merging the halves

  lemma ClearBit(w: u32, k: nat, i: nat)
    requires k < 32 && i < 32
    ensures Pow2(k) < 0x1_0000_0000 && Bit(And(w, Not(Pow2(k))), i) == (Bit(w, i) && i != k)
  {
    Pow2At32();
    Pow2Mono(k, 31);
    BitAnd(w, Not(Pow2(k)), i);
    BitNot(Pow2(k), i);
    BitPow2(k, i);
  }

  ghost predicate HasBit(m: nat, b: nat) {
    Bit(m, b)
  }

  lemma ZeroMask(m: nat)
    ensures m == 0 <==> forall b: nat :: !HasBit(m, b)
  {
    if m == 0 {
      forall b: nat ensures !HasBit(m, b) { BitOfZero(b); }
    } else {
      var b := SomeBit(m);
      assert HasBit(m, b);
    }
  }

  /** Sets that are used, but of which no binding is recorded. */
  method UnknownSets(used: u32, masks: array<nat>) returns (unknown: u32)
    requires masks.Length == SETS
    ensures forall s: nat :: s < SETS ==> (Bit(unknown, s) <==> Bit(used, s) && masks[s] == 0)
  {
    unknown := used;
    for set_ := 0 to SETS
      invariant forall s: nat :: s < SETS ==> (Bit(unknown, s) <==> Bit(used, s) && (s < set_ ==> masks[s] == 0))
    {
      if masks[set_] != 0 {
        ghost var before := unknown;
        Pow2At32();
        Pow2Mono(set_, 31);
        unknown := And(unknown, Not(Pow2(set_)));
        forall s: nat | s < SETS ensures Bit(unknown, s) == (Bit(before, s) && s != set_) { ClearBit(before, set_, s); }
      }
    }
  }

  /** One half of a pipeline: its instructions and the mask of sets it uses. */
  datatype Half = Half(code: seq<Instr>, used: u32)

  /** The half uses set `s` without naming any of its bindings. */
  ghost predicate Unknown(h: Half, s: nat) {
    Bit(h.used, s) && !NamesAny(h.code, s)
  }

  /** Binding `b` of set `s` must be treated as used. */
  ghost predicate Needed(h: Half, previous: Option<Half>, declared: seq<Resource>, s: nat, b: nat) {
    || Names(h.code, s, b)
    || (previous.Some? && Names(previous.value.code, s, b))
    || (Resource(s, b) in declared && (Unknown(h, s) || (previous.Some? && Unknown(previous.value, s))))
  }

  lemma MaskIsZero(code: seq<Instr>, m: nat, s: nat)
    requires forall b: nat :: (Bit(m, b) <==> b < BINDINGS && Names(code, s, b))
    ensures m == 0 <==> !NamesAny(code, s)
  {
    hide Names;
    ZeroMask(m);
    if m != 0 {
      var b: nat :| HasBit(m, b);
      assert Bit(m, b) && b < BINDINGS && Names(code, s, b);
    } else {
      forall b: nat | b < BINDINGS ensures !Names(code, s, b) { assert !HasBit(m, b); }
    }
  }

  /** The masks of one half, and the sets it uses without naming a binding. */
  method HalfMasks(h: Half) returns (masks: array<nat>, unknown: u32)
    ensures fresh(masks) && masks.Length == SETS
    ensures forall s: nat, b: nat :: s < SETS ==> (Bit(masks[s], b) <==> b < BINDINGS && Names(h.code, s, b))
    ensures forall s: nat :: s < SETS ==> (Bit(unknown, s) <==> Unknown(h, s))
  {
    var sets;
    sets, masks := Gather(h.code);
    unknown := UnknownSets(h.used, masks);
    forall s: nat | s < SETS ensures masks[s] == 0 <==> !NamesAny(h.code, s) { MaskIsZero(h.code, masks[s], s); }
  }

  /**
   The mask that the pipeline gets: bit (s, b) is set iff some half names it, or it is declared
   and some half uses the set without naming any of its bindings.
   */
  method Merge(h: Half, previous: Option<Half>, declared: seq<Resource>) returns (masks: array<nat>)
    ensures Merged(masks[..], h, previous, declared)
  {
    var unknown;
    masks, unknown := HalfMasks(h);
    if previous.Some? {
      var others, unknown' := HalfMasks(previous.value);
      ghost var own := masks[..];
      for set_ := 0 to SETS
        invariant fresh(masks) && fresh(others) && masks != others
        invariant forall s: nat, b: nat :: s < SETS ==>
                    (Bit(others[s], b) <==> b < BINDINGS && Names(previous.value.code, s, b))
        invariant forall s: nat, b: nat :: s < SETS ==>
                    (Bit(masks[s], b) <==> Bit(own[s], b) || (s < set_ && Bit(others[s], b)))
      {
        ghost var before := masks[set_];
        forall b: nat ensures Bit(Or(before, others[set_]), b) == (Bit(before, b) || Bit(others[set_], b)) {
          BitOr(before, others[set_], b);
        }
        masks[set_] := Or(masks[set_], others[set_]);
      }
      ghost var mine := unknown;
      unknown := Or32(unknown, unknown');
      forall s: nat | s < SETS ensures Bit(unknown, s) <==> Unknown(h, s) || Unknown(previous.value, s) {
        BitOr(mine, unknown', s);
      }
    }
    Fallback(h, previous, declared, unknown, masks);
  }

  /** Sets that could not be resolved get their whole declaration. */
  method Fallback(ghost h: Half, ghost previous: Option<Half>, declared: seq<Resource>, unknown: u32, masks: array<nat>)
    requires masks.Length == SETS
    requires forall s: nat :: s < SETS ==>
               (Bit(unknown, s) <==> Unknown(h, s) || (previous.Some? && Unknown(previous.value, s)))
    requires forall s: nat, b: nat :: s < SETS ==>
               (Bit(masks[s], b) <==>
                  b < BINDINGS && (Names(h.code, s, b) || (previous.Some? && Names(previous.value.code, s, b))))
    modifies masks
    ensures Merged(masks[..], h, previous, declared)
  {
    ghost var named := masks[..];
    for i := 0 to |declared|
      invariant forall s: nat, b: nat :: s < SETS ==>
                  (Bit(masks[s], b) <==>
                   Bit(named[s], b) || (b < BINDINGS && Bit(unknown, s) && Resource(s, b) in declared[..i]))
    {
      var d := declared[i];
      assert declared[..i + 1] == declared[..i] + [d];
      if d.set_ < SETS && d.binding < BINDINGS && Bit(unknown, d.set_) {
        ghost var before := masks[d.set_];
        forall b: nat ensures Bit(Or(before, Pow2(d.binding)), b) == (Bit(before, b) || b == d.binding) {
          OrBit(before, d.binding, b);
        }
        masks[d.set_] := Or(masks[d.set_], Pow2(d.binding));
      }
    }
    assert declared[..|declared|] == declared;
    forall s: nat, b: nat | s < SETS && b < BINDINGS ensures Bit(masks[s], b) <==> Needed(h, previous, declared, s, b) {
      assert Bit(named[s], b) <==> (Names(h.code, s, b) || (previous.Some? && Names(previous.value.code, s, b)));
    }
  }

  /** The masks of a pipeline, as numbers below 2^64. */
  ghost predicate Merged(masks: seq<nat>, h: Half, previous: Option<Half>, declared: seq<Resource>) {
    && |masks| == SETS
    && (forall s: nat, b: nat :: s < SETS ==>
          (Bit(masks[s], b) <==> b < BINDINGS && Needed(h, previous, declared, s, b)))
  }

  lemma {:induction false} BitsDecide(x: nat, y: nat)
    requires forall b: nat :: Bit(x, b) <==> Bit(y, b)
    ensures x == y
    decreases x + y
  {
    if x == 0 {
      forall b: nat ensures !HasBit(y, b) { BitOfZero(b); assert Bit(x, b) <==> Bit(y, b); }
      ZeroMask(y);
    } else if y == 0 {
      forall b: nat ensures !HasBit(x, b) { BitOfZero(b); assert Bit(x, b) <==> Bit(y, b); }
      ZeroMask(x);
    } else {
      var lowest: nat := 0;
      assert Bit(x, lowest) <==> Bit(y, lowest);
      forall b: nat ensures Bit(x / 2, b) <==> Bit(y / 2, b) { assert Bit(x, b + 1) <==> Bit(y, b + 1); }
      BitsDecide(x / 2, y / 2);
    }
  }

  /** It does not matter which half comes first. */
  lemma HalvesCommute(h: Half, g: Half, declared: seq<Resource>, masks: seq<nat>, masks': seq<nat>)
    requires Merged(masks, h, Some(g), declared) && Merged(masks', g, Some(h), declared)
    ensures masks == masks'
  {
    hide Names, Unknown;
    forall s: nat | s < SETS ensures masks[s] == masks'[s] {
      forall b: nat ensures Bit(masks[s], b) <==> Bit(masks'[s], b) {
        assert Needed(h, Some(g), declared, s, b) <==> Needed(g, Some(h), declared, s, b);
      }
      BitsDecide(masks[s], masks'[s]);
    }
  }

  /** The masks of two halves are, set by set, the union of what each half gets by itself. */
  lemma MergeIsUnion(h: Half, g: Half, declared: seq<Resource>, masks: seq<nat>, one: seq<nat>, other: seq<nat>, s: nat)
    requires Merged(masks, h, Some(g), declared) && Merged(one, h, None, declared) && Merged(other, g, None, declared)
    requires s < SETS
    ensures masks[s] == Or(one[s], other[s])
  {
    hide Names, Unknown, Bit, Or;
    forall b: nat ensures Bit(masks[s], b) <==> Bit(Or(one[s], other[s]), b) { BitOr(one[s], other[s], b); }
    BitsDecide(masks[s], Or(one[s], other[s]));
  }
}
