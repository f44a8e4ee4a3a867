/**
 GLSL types as trees.  `Tree` unfolds a reference through the cache; interning makes reference
 identity and tree equality the same thing.  The layout modules work on these trees.
 */
module TypeTrees {
  import opened GlslTypes
  import opened TypeCache

  /** A type with its parts.  Scalars, vectors and matrices, explicit or not, are all `Basic`. */
  datatype Type =
    | Basic(base: Base, rows: nat, cols: nat, stride: nat, align: nat, rowMajor: bool)
    | Handle(kind: OpaqueKind, dim: Dim, shadow: bool, arrayed: bool, sampled: Sampled)
    | Atomic
    | NoType
    | Broken
    | Array(elem: Type, length: nat, stride: nat)
    | Coop(desc: Cmat)
    | Struct(name: Name, packed: bool, align: nat, fields: seq<Member>)
    | Interface(name: Name, packing: nat, rowMajor: bool, fields: seq<Member>)
    | Routine(name: Name)

  /** A field with its type unfolded; `rest` are its qualifiers other than the offset. */
  datatype Member = Member(typ: Type, offset: int, rest: Field)

  function MemberOf(t: Type, f: Field): (m: Member) {
    Member(t, f.offset, FieldKey(f).(typ := Null, offset := 0))
  }

  function Rank(r: Ref): (n: nat) {
    match r case Interned(i) => i + 1 case _ => 0
  }

  predicate Acyclic(c: Cache) {
    forall i :: 0 <= i < |c.arena| ==> RecordOk(c.arena[i], i)
  }

  function Tree(c: Cache, r: Ref): (t: Type)
    requires Acyclic(c) && RefOk(r, |c.arena|)
    decreases Rank(r), 1
  {
    match r
    case Static(Vec(base, n)) => Basic(base, n, 1, 0, 0, false)
    case Static(Mat(base, rows, cols)) => Basic(base, rows, cols, 0, 0, false)
    case Static(Opaque(kind, d, shadow, arrayed, s)) => Handle(kind, d, shadow, arrayed, s)
    case Static(AtomicUint) => Atomic
    case Static(Void) => NoType
    case Static(ErrorType) => Broken
    case Interned(i) =>
      match c.arena[i]
      case ExplicitRec(base, rows, cols, stride, align, rowMajor) => Basic(base, rows, cols, stride, align, rowMajor)
      case ArrayRec(elem, length, stride) => Array(Tree(c, elem), length, stride)
      case CmatRec(d) => Coop(d)
      case StructRec(name, packed, align, fields) => Struct(name, packed, align, Members(c, fields, |fields|, i))
      case InterfaceRec(name, packing, rowMajor, fields) =>
        Interface(name, packing, rowMajor, Members(c, fields, |fields|, i))
      case SubroutineRec(name) => Routine(name)
  }

  /** The first `n` fields of the record at position `i`. */
  function Members(c: Cache, fields: seq<Field>, n: nat, i: nat): (m: seq<Member>)
    requires Acyclic(c) && n <= |fields| && FieldsOk(fields, i) && i < |c.arena|
    ensures |m| == n
    ensures forall k :: 0 <= k < n ==>
              RefOk(fields[k].typ, |c.arena|) && m[k] == MemberOf(Tree(c, fields[k].typ), fields[k])
    decreases i + 1, 0, n
  {
    if n == 0 then []
    else Members(c, fields, n - 1, i) + [MemberOf(Tree(c, fields[n - 1].typ), fields[n - 1])]
  }

  /** References are equal iff the types they stand for are. */
  lemma {:induction false} Sharing(c: Cache, r: Ref, s: Ref)
    requires Inv(c) && RefOk(r, |c.arena|) && RefOk(s, |c.arena|)
    ensures Tree(c, r) == Tree(c, s) <==> r == s
    decreases Rank(r), 2
  {
    if Tree(c, r) == Tree(c, s) {
      if r.Interned? && s.Interned? { SharingInterned(c, r.index, s.index); }
    }
  }

  lemma {:induction false} SharingInterned(c: Cache, i: nat, j: nat)
    requires Inv(c) && i < |c.arena| && j < |c.arena| && Tree(c, Interned(i)) == Tree(c, Interned(j))
    ensures i == j
    decreases i + 1, 1
  {
    var a, b := c.arena[i], c.arena[j];
    assert RecordOk(a, i) && RecordOk(b, j);
    match a {
      case ArrayRec(elem, _, _) =>
        Sharing(c, elem, b.elem);
      case StructRec(_, _, _, fields) =>
        SharingFields(c, fields, b.fields, i, j);
      case InterfaceRec(_, _, _, fields) =>
        SharingFields(c, fields, b.fields, i, j);
      case _ =>
    }
    assert SameKey(a, b);
    KeysAreUnique(c, i, j);
  }

  lemma SameParts(f: Field, g: Field)
    requires f.typ == g.typ && f.offset == g.offset
             && FieldKey(f).(typ := Null, offset := 0) == FieldKey(g).(typ := Null, offset := 0)
    ensures SameField(f, g)
  {
    SameFieldIsSameKey(f, g);
  }

  lemma {:induction false} SharingFields(c: Cache, f: seq<Field>, g: seq<Field>, i: nat, j: nat)
    requires Inv(c) && FieldsOk(f, i) && FieldsOk(g, j) && i < |c.arena| && j < |c.arena|
    requires Members(c, f, |f|, i) == Members(c, g, |g|, j)
    ensures SameFields(f, g)
    decreases i + 1, 0
  {
    assert Acyclic(c);
    hide SameField, FieldKey, Inv;
    var m, n := Members(c, f, |f|, i), Members(c, g, |g|, j);
    assert |f| == |m| == |n| == |g|;
    forall k | 0 <= k < |f| ensures SameField(f[k], g[k]) {
      assert m[k] == n[k];
      Sharing(c, f[k].typ, g[k].typ);
      SameParts(f[k], g[k]);
    }
  }

  /** Types keep their meaning while the cache grows. */
  lemma {:induction false} TreeStable(c: Cache, d: Cache, r: Ref)
    requires Acyclic(c) && Acyclic(d) && c.arena <= d.arena && RefOk(r, |c.arena|)
    ensures Tree(d, r) == Tree(c, r)
    decreases Rank(r), 1
  {
    if r.Interned? {
      var i := r.index;
      assert RecordOk(c.arena[i], i) && d.arena[i] == c.arena[i];
      match c.arena[i] {
        case ArrayRec(elem, _, _) => TreeStable(c, d, elem);
        case StructRec(_, _, _, fields) => MembersStable(c, d, fields, |fields|, i);
        case InterfaceRec(_, _, _, fields) => MembersStable(c, d, fields, |fields|, i);
        case _ =>
      }
    }
  }

  lemma {:induction false} MembersStable(c: Cache, d: Cache, fields: seq<Field>, n: nat, i: nat)
    requires Acyclic(c) && Acyclic(d) && c.arena <= d.arena
    requires n <= |fields| && FieldsOk(fields, i) && i < |c.arena|
    ensures Members(d, fields, n, i) == Members(c, fields, n, i)
    decreases i + 1, 0, n
  {
    if n > 0 {
      MembersStable(c, d, fields, n - 1, i);
      TreeStable(c, d, fields[n - 1].typ);
    }
  }
}
