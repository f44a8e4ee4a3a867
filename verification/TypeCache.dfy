/**
 The glsl_type_cache of src/compiler/glsl_types.c: reference-counted tables that intern every
 type built at run time, so that types can be compared by identity.  Each section the original
 runs under its mutex is one step here.
 */
module TypeCache {
  import opened Words
  import opened GlslTypes

  datatype MatrixKey = MatrixKey(bare: Builtin, stride: u32, align: u32, rowMajor: bool)
  datatype ArrayKey = ArrayKey(elem: Ref, length: u32, stride: u32)

  /** A hash_entry: the stored hash and the type that is both key and data. */
  datatype Entry = Entry(hash: nat, index: nat)

  /** The cache.  `arena` holds the allocated types in order; `address` is the allocator's choice. */
  datatype Cache = Cache(users: nat, arena: seq<Record>, address: Ref -> nat,
                         matrices: map<MatrixKey, nat>, arrays: map<ArrayKey, nat>, cmats: map<nat, nat>,
                         structs: seq<Entry>, interfaces: seq<Entry>, subroutines: map<Name, nat>)

  // ------------------------------------------------- keys

  predicate CmatOk(d: Cmat) {
    d.rows < 0x1_0000 && d.cols < 0x1_0000 && d.element < 0x1_0000 && d.scope < 0x100 && d.use < 0x100
  }

  /** The 64-bit key of glsl_cmat_type. */
  function CmatKey(d: Cmat): (r: nat) {
    d.rows + d.cols * 0x1_0000 + d.element * 0x1_0000_0000 + d.scope * 0x1_0000_0000_0000 + d.use * 0x100_0000_0000_0000
  }

  lemma CmatKeyInjective(a: Cmat, b: Cmat)
    requires CmatOk(a) && CmatOk(b)
    ensures CmatKey(a) == CmatKey(b) <==> a == b
  {
    if CmatKey(a) == CmatKey(b) {
      SameDigits(0x1_0000, a.rows, a.cols + 0x1_0000 * (a.element + 0x1_0000 * (a.scope + 0x100 * a.use)),
                 b.rows, b.cols + 0x1_0000 * (b.element + 0x1_0000 * (b.scope + 0x100 * b.use)));
      SameDigits(0x1_0000, a.cols, a.element + 0x1_0000 * (a.scope + 0x100 * a.use),
                 b.cols, b.element + 0x1_0000 * (b.scope + 0x100 * b.use));
      SameDigits(0x1_0000, a.element, a.scope + 0x100 * a.use, b.element, b.scope + 0x100 * b.use);
      SameDigits(0x100, a.scope, a.use, b.scope, b.use);
    }
  }

  function MatrixKeyOf(r: Record): (k: MatrixKey)
    requires r.ExplicitRec?
  {
    MatrixKey(SimpleType(r.base, r.rows, r.cols), r.stride, r.align, r.rowMajor)
  }

  function ArrayKeyOf(r: Record): (k: ArrayKey)
    requires r.ArrayRec?
  {
    ArrayKey(r.elem, r.length, r.stride)
  }

  // ------------------------------------------------- well-formedness

  /** A reference to a type: a builtin, or something allocated before position `bound`. */
  predicate RefOk(r: Ref, bound: nat) {
    match r
    case Null => false
    case Static(b) => InBuiltinTable(b)
    case Interned(i) => i < bound
  }

  predicate FieldsOk(fields: seq<Field>, bound: nat) {
    |fields| < 0x1_0000_0000 && forall i :: 0 <= i < |fields| ==> RefOk(fields[i].typ, bound)
  }

  /** What get_explicit_matrix_instance asserts of its arguments. */
  predicate ExplicitAsserted(r: Record)
    requires r.ExplicitRec?
  {
    && (r.stride > 0 || r.align > 0) && AlignmentOk(r.align) && (r.align > 0 ==> r.stride % r.align == 0)
    && (r.cols > 1 || (r.rows > 1 && !r.rowMajor))
  }

  /** What the constructors assert of their arguments. */
  predicate RecordOk(r: Record, bound: nat) {
    match r
    case ExplicitRec(_, _, _, _, _, _) => ExplicitAsserted(r)
    case ArrayRec(elem, _, _) => RefOk(elem, bound)
    case CmatRec(d) => CmatOk(d)
    case StructRec(_, _, align, fields) => AlignmentOk(align) && FieldsOk(fields, bound)
    case InterfaceRec(_, packing, _, fields) => packing < 4 && FieldsOk(fields, bound)
    case SubroutineRec(_) => true
  }

  /** The type at position `i` is the one its table finds under its key. */
  ghost predicate Registered(c: Cache, i: nat)
    requires i < |c.arena|
  {
    var r := c.arena[i];
    match r
    case ExplicitRec(_, _, _, _, _, _) => MatrixKeyOf(r) in c.matrices && c.matrices[MatrixKeyOf(r)] == i
    case ArrayRec(_, _, _) => ArrayKeyOf(r) in c.arrays && c.arrays[ArrayKeyOf(r)] == i
    case CmatRec(d) => CmatKey(d) in c.cmats && c.cmats[CmatKey(d)] == i
    case StructRec(_, _, _, _) => exists e :: e in c.structs && e.index == i
    case InterfaceRec(_, _, _, _) => exists e :: e in c.interfaces && e.index == i
    case SubroutineRec(name) => name in c.subroutines && c.subroutines[name] == i
  }

  ghost predicate EntryOk(c: Cache, e: Entry, struct: bool) {
    && e.index < |c.arena|
    && (if struct then c.arena[e.index].StructRec? else c.arena[e.index].InterfaceRec?)
    && e.hash == RecordHash(c.address, c.arena[e.index].fields)
  }

  /** No two entries of a record table compare equal. */
  ghost predicate TableOk(c: Cache, t: seq<Entry>, struct: bool) {
    && (forall a :: 0 <= a < |t| ==> EntryOk(c, t[a], struct))
    && (forall a, b :: 0 <= a < b < |t| ==> !SameRecord(c.arena[t[a].index], c.arena[t[b].index]))
  }

  ghost predicate MatricesOk(c: Cache) {
    forall k :: k in c.matrices ==> c.matrices[k] < |c.arena| && c.arena[c.matrices[k]].ExplicitRec?
                                    && MatrixKeyOf(c.arena[c.matrices[k]]) == k
  }

  ghost predicate ArraysOk(c: Cache) {
    forall k :: k in c.arrays ==> c.arrays[k] < |c.arena| && c.arena[c.arrays[k]].ArrayRec?
                                  && ArrayKeyOf(c.arena[c.arrays[k]]) == k
  }

  ghost predicate CmatsOk(c: Cache) {
    forall k :: k in c.cmats ==> c.cmats[k] < |c.arena| && c.arena[c.cmats[k]].CmatRec?
                                 && CmatKey(c.arena[c.cmats[k]].desc) == k
  }

  ghost predicate SubroutinesOk(c: Cache) {
    forall k :: k in c.subroutines ==> c.subroutines[k] < |c.arena| && c.arena[c.subroutines[k]] == SubroutineRec(k)
  }

  ghost predicate KeyedTablesOk(c: Cache) {
    MatricesOk(c) && ArraysOk(c) && CmatsOk(c) && SubroutinesOk(c)
  }

  ghost predicate RecordsOk(c: Cache) {
    forall i :: 0 <= i < |c.arena| ==> RecordOk(c.arena[i], i)
  }

  /** Every type is found under its key, and only there; an unused cache is empty. */
  ghost predicate Filed(c: Cache) {
    && (forall i :: 0 <= i < |c.arena| ==> Registered(c, i))
    && KeyedTablesOk(c) && TableOk(c, c.structs, true) && TableOk(c, c.interfaces, false)
    && (c.users == 0 ==> c == Empty(c.address))
  }

  /** The cache invariant. */
  ghost predicate Inv(c: Cache) {
    Filed(c) && RecordsOk(c)
  }

  function Empty(address: Ref -> nat): (c: Cache) {
    Cache(0, [], address, map[], map[], map[], [], [], map[])
  }

  // ------------------------------------------------- steps

  /** glsl_type_singleton_init_or_ref */
  function AddUser(c: Cache): (r: Cache) {
    c.(users := c.users + 1)
  }

  /** glsl_type_singleton_decref */
  function DropUser(c: Cache): (r: Cache)
    requires c.users > 0
  {
    if c.users > 1 then c.(users := c.users - 1) else Empty(c.address)
  }

  /** get_explicit_matrix_instance */
  function ExplicitType(c: Cache, rec: Record): (r: (Cache, Ref))
    requires rec.ExplicitRec?
  {
    var k := MatrixKeyOf(rec);
    if k in c.matrices then (c, Interned(c.matrices[k]))
    else (c.(arena := c.arena + [rec], matrices := c.matrices[k := |c.arena|]), Interned(|c.arena|))
  }

  /** glsl_array_type */
  function ArrayType(c: Cache, rec: Record): (r: (Cache, Ref))
    requires rec.ArrayRec?
  {
    var k := ArrayKeyOf(rec);
    if k in c.arrays then (c, Interned(c.arrays[k]))
    else (c.(arena := c.arena + [rec], arrays := c.arrays[k := |c.arena|]), Interned(|c.arena|))
  }

  /** glsl_cmat_type */
  function CmatType(c: Cache, rec: Record): (r: (Cache, Ref))
    requires rec.CmatRec?
  {
    var k := CmatKey(rec.desc);
    if k in c.cmats then (c, Interned(c.cmats[k]))
    else (c.(arena := c.arena + [rec], cmats := c.cmats[k := |c.arena|]), Interned(|c.arena|))
  }

  /** glsl_subroutine_type */
  function SubroutineType(c: Cache, rec: Record): (r: (Cache, Ref))
    requires rec.SubroutineRec?
  {
    if rec.name in c.subroutines then (c, Interned(c.subroutines[rec.name]))
    else (c.(arena := c.arena + [rec], subroutines := c.subroutines[rec.name := |c.arena|]), Interned(|c.arena|))
  }

  /** _mesa_hash_table_search_pre_hashed: an entry with this hash whose key compares equal. */
  function Search(arena: seq<Record>, t: seq<Entry>, hash: nat, key: Record): (r: Option<nat>)
    ensures r.Some? ==> Entry(hash, r.value) in t && r.value < |arena| && SameRecord(key, arena[r.value])
    ensures r.None? ==> forall e :: e in t && e.hash == hash && e.index < |arena| ==> !SameRecord(key, arena[e.index])
  {
    if t == [] then None
    else if t[0].hash == hash && t[0].index < |arena| && SameRecord(key, arena[t[0].index]) then Some(t[0].index)
    else Search(arena, t[1..], hash, key)
  }

  /** glsl_struct_type_with_explicit_alignment */
  function StructType(c: Cache, rec: Record): (r: (Cache, Ref))
    requires rec.StructRec?
  {
    var h := RecordHash(c.address, rec.fields);
    match Search(c.arena, c.structs, h, rec)
    case Some(i) => (c, Interned(i))
    case None => (c.(arena := c.arena + [rec], structs := c.structs + [Entry(h, |c.arena|)]), Interned(|c.arena|))
  }

  /** glsl_interface_type */
  function InterfaceType(c: Cache, rec: Record): (r: (Cache, Ref))
    requires rec.InterfaceRec?
  {
    var h := RecordHash(c.address, rec.fields);
    match Search(c.arena, c.interfaces, h, rec)
    case Some(i) => (c, Interned(i))
    case None => (c.(arena := c.arena + [rec], interfaces := c.interfaces + [Entry(h, |c.arena|)]), Interned(|c.arena|))
  }

  /** The constructor that the kind of record selects. */
  function Intern(c: Cache, rec: Record): (r: (Cache, Ref)) {
    match rec
    case ExplicitRec(_, _, _, _, _, _) => ExplicitType(c, rec)
    case ArrayRec(_, _, _) => ArrayType(c, rec)
    case CmatRec(_) => CmatType(c, rec)
    case StructRec(_, _, _, _) => StructType(c, rec)
    case InterfaceRec(_, _, _, _) => InterfaceType(c, rec)
    case SubroutineRec(_) => SubroutineType(c, rec)
  }

  /** Two requests that the cache answers with one type. */
  predicate SameKey(a: Record, b: Record) {
    match a
    case ExplicitRec(_, _, _, _, _, _) => b.ExplicitRec? && MatrixKeyOf(a) == MatrixKeyOf(b)
    case CmatRec(desc) => b.CmatRec? && CmatKey(desc) == CmatKey(b.desc)
    case StructRec(_, _, _, _) => SameRecord(a, b)
    case InterfaceRec(_, _, _, _) => SameRecord(a, b)
    case _ => a == b
  }

  /** Apart from structures and interfaces, requests with the same key are equal if their shapes are real. */
  lemma SameKeyIsEqual(a: Record, b: Record)
    requires !a.StructRec? && !a.InterfaceRec?
    requires a.ExplicitRec? && b.ExplicitRec? ==> RealShape(a.base, a.rows, a.cols) && RealShape(b.base, b.rows, b.cols)
    requires a.CmatRec? && b.CmatRec? ==> CmatOk(a.desc) && CmatOk(b.desc)
    ensures SameKey(a, b) <==> a == b
  {
    hide CmatKey, CmatOk;
    if a.CmatRec? && b.CmatRec? { CmatKeyInjective(a.desc, b.desc); }
  }

  lemma SameKeyReflexive(a: Record)
    ensures SameKey(a, a)
  {
    if a.StructRec? || a.InterfaceRec? { SameFieldsIsSameKeys(a.fields, a.fields); }
  }

  lemma SameKeyTransitive(a: Record, b: Record, d: Record)
    requires SameKey(a, b)
    ensures SameKey(b, d) <==> SameKey(a, d)
  {
    if a.StructRec? || a.InterfaceRec? {
      SameFieldsIsSameKeys(a.fields, b.fields);
      if d.StructRec? || d.InterfaceRec? {
        SameFieldsIsSameKeys(b.fields, d.fields);
        SameFieldsIsSameKeys(a.fields, d.fields);
      }
    }
  }

  // ------------------------------------------------- the invariant holds along every step

  /** `d` has every type of `c` at the same place. */
  ghost predicate Extends(c: Cache, d: Cache) {
    c.arena <= d.arena && c.address == d.address
  }

  /** Real shapes are found again from their key. */
  lemma MatrixKeyInjective(a: Record, b: Record)
    requires a.ExplicitRec? && b.ExplicitRec? && RealShape(a.base, a.rows, a.cols) && RealShape(b.base, b.rows, b.cols)
    ensures MatrixKeyOf(a) == MatrixKeyOf(b) <==> a == b
  {
  }

  /** The record that a key spells out, if its bare type has a shape. */
  function SpelledOut(k: MatrixKey): (r: Option<Record>) {
    match k.bare
    case Vec(base, n) => Some(ExplicitRec(base, n, 1, k.stride, k.align, k.rowMajor))
    case Mat(base, rows, cols) => Some(ExplicitRec(base, rows, cols, k.stride, k.align, k.rowMajor))
    case _ => None
  }

  /** The key spells out the record it was made from iff the shape is real. */
  lemma KeySpellsOut(a: Record)
    requires a.ExplicitRec?
    ensures SpelledOut(MatrixKeyOf(a)) == Some(a) <==> RealShape(a.base, a.rows, a.cols)
  {
  }

  /**
   Every request that passes the asserts with a shape outside the tables has the key of a
   different request, which is then answered with its type: the asserts after the lookup fire.
   */
  lemma UnrealShapesCollide(c: Cache, a: Record) returns (b: Record)
    requires a.ExplicitRec? && ExplicitAsserted(a) && !RealShape(a.base, a.rows, a.cols)
    requires MatrixKeyOf(a) !in c.matrices
    ensures b.ExplicitRec? && ExplicitAsserted(b) && b != a && MatrixKeyOf(b) == MatrixKeyOf(a)
    ensures var (d, r) := Intern(c, a);
            r.Interned? && r.index < |d.arena| && d.arena[r.index] == a && Intern(d, b) == (d, r)
  {
    hide Intern;
    b := Colliding(a);
    SameAnswer(c, a, b);
  }

  /** The shape that the bare type of the key has, or another one without a bare type. */
  lemma Colliding(a: Record) returns (b: Record)
    requires a.ExplicitRec? && ExplicitAsserted(a) && !RealShape(a.base, a.rows, a.cols)
    ensures b.ExplicitRec? && ExplicitAsserted(b) && b != a && MatrixKeyOf(b) == MatrixKeyOf(a)
    ensures SimpleType(a.base, a.rows, a.cols) != ErrorType ==> RealShape(b.base, b.rows, b.cols)
  {
    match SimpleType(a.base, a.rows, a.cols)
    case Vec(_, n) => b := a.(rows := n);
    case Mat(_, rows, cols) => b := a.(rows := rows, cols := cols);
    case _ => b := a.(base := Uint, rows := if a.rows == 5 then 6 else 5, cols := 2);
  }

  lemma SameAnswer(c: Cache, a: Record, b: Record)
    requires a.ExplicitRec? && b.ExplicitRec? && MatrixKeyOf(a) == MatrixKeyOf(b) && MatrixKeyOf(a) !in c.matrices
    ensures var (d, r) := Intern(c, a);
            r.Interned? && r.index < |d.arena| && d.arena[r.index] == a && Intern(d, b) == (d, r)
  {
    hide MatrixKeyOf;
  }

  /** Vectors of 6 and of 8 elements share their key, and so do all integer matrices. */
  lemma SharedKeys(stride: u32)
    requires stride > 0
    ensures var six, eight := ExplicitRec(Float, 6, 1, stride, 0, false), ExplicitRec(Float, 8, 1, stride, 0, false);
            ExplicitAsserted(six) && ExplicitAsserted(eight) && MatrixKeyOf(six) == MatrixKeyOf(eight)
    ensures var two, three := ExplicitRec(Int, 2, 2, stride, 0, false), ExplicitRec(Int, 3, 3, stride, 0, false);
            ExplicitAsserted(two) && ExplicitAsserted(three) && MatrixKeyOf(two) == MatrixKeyOf(three)
  {
  }

  /** No table loses an entry. */
  lemma TablesGrow(c: Cache, rec: Record)
    ensures var d := Intern(c, rec).0; c.structs <= d.structs && c.interfaces <= d.interfaces && c.arena <= d.arena
  {
    hide RecordHash, Search, MatrixKeyOf, ArrayKeyOf, CmatKey;
  }

  ghost predicate Grows<K>(m: map<K, nat>, n: map<K, nat>) {
    forall k :: k in m ==> k in n && n[k] == m[k]
  }

  lemma KeyedTablesGrow(c: Cache, rec: Record)
    ensures var d := Intern(c, rec).0;
            && Grows(c.matrices, d.matrices) && Grows(c.arrays, d.arrays)
            && Grows(c.cmats, d.cmats) && Grows(c.subroutines, d.subroutines)
  {
    hide RecordHash, Search, MatrixKeyOf, ArrayKeyOf, CmatKey;
  }

  lemma OldStaysRegistered(c: Cache, rec: Record, i: nat)
    requires i < |c.arena| && Registered(c, i)
    ensures i < |Intern(c, rec).0.arena| && Registered(Intern(c, rec).0, i)
  {
    hide RecordHash, Search, MatrixKeyOf, ArrayKeyOf, CmatKey, KeyedTablesOk, TableOk, RecordOk, Intern;
    TablesGrow(c, rec);
    KeyedTablesGrow(c, rec);
    var d := Intern(c, rec).0;
    assert d.arena[i] == c.arena[i] && Registered(c, i);
    if c.arena[i].StructRec? {
      var e :| e in c.structs && e.index == i;
      assert e in d.structs;
    }
    if c.arena[i].InterfaceRec? {
      var e :| e in c.interfaces && e.index == i;
      assert e in d.interfaces;
    }
  }

  lemma NewIsRegistered(c: Cache, rec: Record)
    requires |Intern(c, rec).0.arena| > |c.arena|
    ensures Registered(Intern(c, rec).0, |c.arena|) && Intern(c, rec).0.arena == c.arena + [rec]
  {
    var d := Intern(c, rec).0;
    if rec.StructRec? { assert d.structs[|c.structs|].index == |c.arena|; }
    if rec.InterfaceRec? { assert d.interfaces[|c.interfaces|].index == |c.arena|; }
  }

  /** A record with a new key goes at the end of the arena and into its table. */
  lemma InternKeepsRegistered(c: Cache, rec: Record, i: nat)
    requires forall k :: 0 <= k < |c.arena| ==> Registered(c, k)
    requires i < |Intern(c, rec).0.arena|
    ensures Registered(Intern(c, rec).0, i)
  {
    hide Intern, Registered;
    if i < |c.arena| {
      OldStaysRegistered(c, rec, i);
    } else {
      InternAppends(c, rec);
      NewIsRegistered(c, rec);
    }
  }

  lemma InternAppends(c: Cache, rec: Record)
    ensures var d := Intern(c, rec).0; d.arena == c.arena || d.arena == c.arena + [rec]
  {
    hide RecordHash, Search, MatrixKeyOf, ArrayKeyOf, CmatKey;
  }

  /** Growing the arena leaves the keyed tables right. */
  lemma KeyedTablesExtend(c: Cache, d: Cache)
    requires c.arena <= d.arena
    ensures MatricesOk(c) && d.matrices == c.matrices ==> MatricesOk(d)
    ensures ArraysOk(c) && d.arrays == c.arrays ==> ArraysOk(d)
    ensures CmatsOk(c) && d.cmats == c.cmats ==> CmatsOk(d)
    ensures SubroutinesOk(c) && d.subroutines == c.subroutines ==> SubroutinesOk(d)
  {
  }

  lemma ExplicitKeepsTables(c: Cache, rec: Record)
    requires KeyedTablesOk(c) && rec.ExplicitRec?
    ensures KeyedTablesOk(ExplicitType(c, rec).0)
  {
    hide MatrixKeyOf;
    KeyedTablesExtend(c, ExplicitType(c, rec).0);
  }

  lemma ArrayKeepsTables(c: Cache, rec: Record)
    requires KeyedTablesOk(c) && rec.ArrayRec?
    ensures KeyedTablesOk(ArrayType(c, rec).0)
  {
    KeyedTablesExtend(c, ArrayType(c, rec).0);
  }

  lemma CmatKeepsTables(c: Cache, rec: Record)
    requires KeyedTablesOk(c) && rec.CmatRec?
    ensures KeyedTablesOk(CmatType(c, rec).0)
  {
    hide CmatKey;
    KeyedTablesExtend(c, CmatType(c, rec).0);
  }

  lemma SubroutineKeepsTables(c: Cache, rec: Record)
    requires KeyedTablesOk(c) && rec.SubroutineRec?
    ensures KeyedTablesOk(SubroutineType(c, rec).0)
  {
    KeyedTablesExtend(c, SubroutineType(c, rec).0);
  }

  lemma InternKeepsKeyedTables(c: Cache, rec: Record)
    requires KeyedTablesOk(c)
    ensures KeyedTablesOk(Intern(c, rec).0)
  {
    hide ExplicitType, ArrayType, CmatType, SubroutineType, KeyedTablesOk, Search, RecordHash;
    match rec
    case ExplicitRec(_, _, _, _, _, _) => ExplicitKeepsTables(c, rec);
    case ArrayRec(_, _, _) => ArrayKeepsTables(c, rec);
    case CmatRec(_) => CmatKeepsTables(c, rec);
    case SubroutineRec(_) => SubroutineKeepsTables(c, rec);
    case _ => RecordTypeKeepsTables(c, rec);
  }

  lemma RecordTypeKeepsTables(c: Cache, rec: Record)
    requires KeyedTablesOk(c) && (rec.StructRec? || rec.InterfaceRec?)
    ensures KeyedTablesOk(Intern(c, rec).0)
  {
    hide MatricesOk, ArraysOk, CmatsOk, SubroutinesOk, RecordHash;
    KeyedTablesExtend(c, Intern(c, rec).0);
  }

  lemma InternKeepsTable(c: Cache, d: Cache, rec: Record, t: seq<Entry>, u: seq<Entry>, struct: bool)
    requires TableOk(c, t, struct) && Extends(c, d)
    requires if struct then rec.StructRec? else rec.InterfaceRec?
    requires u == t || (d.arena == c.arena + [rec] && u == t + [Entry(RecordHash(c.address, rec.fields), |c.arena|)]
                        && Search(c.arena, t, RecordHash(c.address, rec.fields), rec).None?)
    ensures TableOk(d, u, struct)
  {
    forall a | 0 <= a < |u| ensures EntryOk(d, u[a], struct) {
      if a < |t| { assert EntryOk(c, t[a], struct); }
    }
    forall a, b | 0 <= a < b < |u| ensures !SameRecord(d.arena[u[a].index], d.arena[u[b].index]) {
      assert u[a] == t[a] && EntryOk(c, t[a], struct);
      var ra := c.arena[u[a].index];
      if b < |t| {
        assert u[b] == t[b] && EntryOk(c, t[b], struct);
      } else if SameRecord(ra, rec) {
        SameFieldsHash(c.address, ra.fields, rec.fields);
        SameKeyTransitive(ra, rec, ra);
        SameKeyReflexive(ra);
      }
    }
  }

  /** Whatever is asked for, types stay filed and where they are. */
  lemma InternKeepsFiled(c: Cache, rec: Record)
    requires Filed(c) && c.users > 0
    ensures Filed(Intern(c, rec).0) && Extends(c, Intern(c, rec).0)
  {
    hide KeyedTablesOk, TableOk, RecordHash, Search, Registered, Intern;
    var d := Intern(c, rec).0;
    forall i | 0 <= i < |d.arena| ensures Registered(d, i) { InternKeepsRegistered(c, rec, i); }
    InternKeepsKeyedTables(c, rec);
    var srec := if rec.StructRec? then rec else StructRec([], false, 0, []);
    var irec := if rec.InterfaceRec? then rec else InterfaceRec([], 0, false, []);
    InternTables(c, rec);
    InternKeepsTable(c, d, srec, c.structs, d.structs, true);
    InternKeepsTable(c, d, irec, c.interfaces, d.interfaces, false);
  }

  /** Every constructor keeps the invariant and leaves every existing type where it is. */
  lemma InternKeepsInv(c: Cache, rec: Record)
    requires Inv(c) && c.users > 0 && RecordOk(rec, |c.arena|)
    ensures Inv(Intern(c, rec).0) && Extends(c, Intern(c, rec).0)
  {
    hide RecordOk, Filed, Intern;
    InternKeepsFiled(c, rec);
    InternAppends(c, rec);
  }

  /** What a constructor does to the record tables and the arena. */
  lemma InternTables(c: Cache, rec: Record)
    ensures var d := Intern(c, rec).0;
            && Extends(c, d) && d.users == c.users
            && (d.structs == c.structs ||
                (rec.StructRec? && d.arena == c.arena + [rec]
                 && d.structs == c.structs + [Entry(RecordHash(c.address, rec.fields), |c.arena|)]
                 && Search(c.arena, c.structs, RecordHash(c.address, rec.fields), rec).None?))
            && (d.interfaces == c.interfaces ||
                (rec.InterfaceRec? && d.arena == c.arena + [rec]
                 && d.interfaces == c.interfaces + [Entry(RecordHash(c.address, rec.fields), |c.arena|)]
                 && Search(c.arena, c.interfaces, RecordHash(c.address, rec.fields), rec).None?))
  {
    hide RecordHash, Search, MatrixKeyOf, ArrayKeyOf, CmatKey;
  }

  /** The answer to a request is an allocated type whose record has the requested key. */
  lemma InternAnswers(c: Cache, rec: Record)
    requires Filed(c)
    ensures var (d, r) := Intern(c, rec);
            r.Interned? && r.index < |d.arena| && SameKey(rec, d.arena[r.index])
  {
    hide RecordHash, MatrixKeyOf, CmatKey, Registered;
    SameKeyReflexive(rec);
  }

  /** A cooperative matrix is answered with exactly the requested description. */
  lemma CmatAnswers(c: Cache, desc: Cmat)
    requires Inv(c) && CmatOk(desc)
    ensures var (d, r) := Intern(c, CmatRec(desc));
            r.Interned? && r.index < |d.arena| && d.arena[r.index] == CmatRec(desc)
  {
    hide CmatKey, CmatOk, Registered, TableOk;
    var (d, r) := Intern(c, CmatRec(desc));
    if d == c {
      assert RecordOk(c.arena[r.index], r.index);
      CmatKeyInjective(desc, c.arena[r.index].desc);
    }
  }

  /** Types with the same key are the same type. */
  lemma KeysAreUnique(c: Cache, i: nat, j: nat)
    requires Filed(c) && i < |c.arena| && j < |c.arena| && SameKey(c.arena[i], c.arena[j])
    ensures i == j
  {
    assert Registered(c, i) && Registered(c, j);
    hide MatrixKeyOf, CmatKey;
    var r := c.arena[i];
    match r
    case StructRec(_, _, _, _) => EntriesAreUnique(c, c.structs, true, i, j);
    case InterfaceRec(_, _, _, _) => EntriesAreUnique(c, c.interfaces, false, i, j);
    case _ =>
  }

  lemma EntriesAreUnique(c: Cache, t: seq<Entry>, struct: bool, i: nat, j: nat)
    requires TableOk(c, t, struct) && i < |c.arena| && j < |c.arena| && SameRecord(c.arena[i], c.arena[j])
    requires (exists e :: e in t && e.index == i) && (exists e :: e in t && e.index == j)
    ensures i == j
  {
    var e :| e in t && e.index == i;
    var f :| f in t && f.index == j;
    var a :| 0 <= a < |t| && t[a] == e;
    var b :| 0 <= b < |t| && t[b] == f;
    SameKeyReflexive(c.arena[i]);
    SameKeyTransitive(c.arena[i], c.arena[j], c.arena[i]);
  }

  /** In one cache, two requests get the same type iff their keys are the same. */
  lemma InternMeets(c: Cache, i: nat, rec: Record)
    requires Filed(c) && c.users > 0 && i < |c.arena|
    ensures Intern(c, rec).1 == Interned(i) <==> SameKey(rec, c.arena[i])
    ensures SameKey(rec, c.arena[i]) ==> Intern(c, rec).0 == c
  {
    hide Filed, SameKey;
    var (d, r) := Intern(c, rec);
    InternAnswers(c, rec);
    InternKeepsFiled(c, rec);
    assert d.arena[i] == c.arena[i];
    if SameKey(rec, c.arena[i]) {
      SameKeyTransitive(rec, d.arena[r.index], d.arena[i]);
      KeysAreUnique(d, r.index, i);
      Unchanged(c, rec);
    }
  }

  /** A request that is answered with an existing type changes nothing. */
  lemma Unchanged(c: Cache, rec: Record)
    requires Intern(c, rec).1.Interned? && Intern(c, rec).1.index < |c.arena|
    ensures Intern(c, rec).0 == c
  {
    hide RecordHash, MatrixKeyOf, ArrayKeyOf, CmatKey;
  }

  // ------------------------------------------------- shapes outside the tables

  /** Every explicit type has a shape of the tables. */
  predicate Real(c: Cache) {
    forall i :: 0 <= i < |c.arena| && c.arena[i].ExplicitRec? ==>
      RealShape(c.arena[i].base, c.arena[i].rows, c.arena[i].cols)
  }

  /**
   In a cache of real shapes, a request for any shape that passes the asserts gets a type with the
   requested parts iff its own shape is real or nothing has its key yet.  Otherwise the asserts
   after the lookup fire.
   */
  lemma ExplicitAnswersIff(c: Cache, rec: Record)
    requires Inv(c) && Real(c) && rec.ExplicitRec? && ExplicitAsserted(rec)
    ensures var (d, r) := Intern(c, rec);
            && r.Interned? && r.index < |d.arena|
            && (d.arena[r.index] == rec <==> RealShape(rec.base, rec.rows, rec.cols) || MatrixKeyOf(rec) !in c.matrices)
  {
    hide RecordHash, Search, MatrixKeyOf, ArrayKeyOf, CmatKey, TableOk, RealShape, Registered, RecordOk;
    if MatrixKeyOf(rec) in c.matrices {
      var b := c.arena[c.matrices[MatrixKeyOf(rec)]];
      if RealShape(rec.base, rec.rows, rec.cols) { MatrixKeyInjective(rec, b); }
    }
  }
}
