/** Whole runs of the type cache: what any sequence of calls keeps and what it can return. */
module TypeCacheRuns {
  import opened GlslTypes
  import opened TypeCache

  /** A call into the cache: a new user, a user leaving, or a request for a type. */
  datatype Op = Init | Decref | Get(rec: Record)

  /** The asserts at the start of each function. */
  ghost predicate Enabled(c: Cache, op: Op) {
    match op
    case Init => true
    case Decref => c.users > 0
    case Get(rec) => c.users > 0 && RecordOk(rec, |c.arena|)
  }

  function Step(c: Cache, op: Op): (r: (Cache, Ref))
    requires op.Decref? ==> c.users > 0
  {
    match op
    case Init => (AddUser(c), Null)
    case Decref => (DropUser(c), Null)
    case Get(rec) => Intern(c, rec)
  }

  ghost predicate EnabledRun(c: Cache, ops: seq<Op>)
    decreases |ops|
  {
    ops == [] || (Enabled(c, ops[0]) && EnabledRun(Step(c, ops[0]).0, ops[1..]))
  }

  ghost function After(c: Cache, ops: seq<Op>): (r: Cache)
    requires EnabledRun(c, ops)
    decreases |ops|
  {
    if ops == [] then c else After(Step(c, ops[0]).0, ops[1..])
  }

  /** Some user stays all along. */
  ghost predicate StaysInUse(c: Cache, ops: seq<Op>)
    requires EnabledRun(c, ops)
    decreases |ops|
  {
    c.users > 0 && (ops == [] || StaysInUse(Step(c, ops[0]).0, ops[1..]))
  }

  lemma StepKeepsInv(c: Cache, op: Op)
    requires Inv(c) && Enabled(c, op)
    ensures Inv(Step(c, op).0)
    ensures Extends(c, Step(c, op).0) || (op == Decref && c.users == 1)
  {
    if op.Get? {
      InternKeepsInv(c, op.rec);
    } else {
      var d := Step(c, op).0;
      if d.arena == c.arena {
        KeyedTablesExtend(c, d);
        forall i | 0 <= i < |d.arena| ensures Registered(d, i) { assert Registered(c, i); }
        assert TableOk(c, c.structs, true) && TableOk(c, c.interfaces, false);
        SameTable(c, d, c.structs, true);
        SameTable(c, d, c.interfaces, false);
      }
    }
  }

  lemma SameTable(c: Cache, d: Cache, t: seq<Entry>, struct: bool)
    requires TableOk(c, t, struct) && d.arena == c.arena && d.address == c.address
    ensures TableOk(d, t, struct)
  {
    forall a | 0 <= a < |t| ensures EntryOk(d, t[a], struct) { assert EntryOk(c, t[a], struct); }
  }

  /** The invariant holds after every run. */
  lemma {:induction false} RunKeepsInv(c: Cache, ops: seq<Op>)
    requires Inv(c) && EnabledRun(c, ops)
    ensures Inv(After(c, ops))
    decreases |ops|
  {
    if ops != [] {
      StepKeepsInv(c, ops[0]);
      RunKeepsInv(Step(c, ops[0]).0, ops[1..]);
    }
  }

  /** While some user stays, no type moves or goes away. */
  lemma {:induction false} RunKeepsTypes(c: Cache, ops: seq<Op>)
    requires Inv(c) && EnabledRun(c, ops) && StaysInUse(c, ops)
    ensures Extends(c, After(c, ops)) && After(c, ops).users > 0
    decreases |ops|
  {
    if ops != [] {
      var d := Step(c, ops[0]).0;
      StepKeepsInv(c, ops[0]);
      RunKeepsTypes(d, ops[1..]);
      assert c.users == 1 && ops[0] == Decref ==> d.users == 0;
    }
  }

  function Balance(ops: seq<Op>): (r: int) {
    if ops == [] then 0
    else (match ops[0] case Init => 1 case Decref => -1 case Get(_) => 0) + Balance(ops[1..])
  }

  lemma InternKeepsUsers(c: Cache, rec: Record)
    ensures Intern(c, rec).0.users == c.users
  {
  }

  /** The counter is the number of users, and the tables are empty once nobody is left. */
  lemma {:induction false} UsersAreCounted(c: Cache, ops: seq<Op>)
    requires Inv(c) && EnabledRun(c, ops)
    ensures After(c, ops).users == c.users + Balance(ops)
    ensures c.users + Balance(ops) == 0 ==> After(c, ops) == Empty(After(c, ops).address)
    decreases |ops|
  {
    if ops != [] {
      StepKeepsInv(c, ops[0]);
      if ops[0].Get? { InternKeepsUsers(c, ops[0].rec); }
      UsersAreCounted(Step(c, ops[0]).0, ops[1..]);
    }
  }

  /**
   Hash-consing: a later request, after any calls that keep the cache in use, is answered with
   the very same type iff its key compares equal to the earlier one.
   */
  lemma HashConsing(c: Cache, a: Record, calls: seq<Op>, b: Record)
    requires Inv(c) && Enabled(c, Get(a))
    requires EnabledRun(Intern(c, a).0, calls) && StaysInUse(Intern(c, a).0, calls)
    requires Enabled(After(Intern(c, a).0, calls), Get(b))
    ensures Intern(c, a).1 == Intern(After(Intern(c, a).0, calls), b).1 <==> SameKey(a, b)
  {
    var (d, r) := Intern(c, a);
    var e := After(d, calls);
    InternKeepsInv(c, a);
    InternAnswers(c, a);
    RunKeepsInv(d, calls);
    RunKeepsTypes(d, calls);
    assert e.arena[r.index] == d.arena[r.index];
    InternMeets(e, r.index, b);
    SameKeyTransitive(a, d.arena[r.index], b);
    SameKeySymmetric(b, e.arena[r.index]);
  }

  lemma SameKeySymmetric(a: Record, b: Record)
    ensures SameKey(a, b) <==> SameKey(b, a)
  {
    SameKeyReflexive(a);
    SameKeyReflexive(b);
    if SameKey(a, b) { SameKeyTransitive(a, b, a); }
    if SameKey(b, a) { SameKeyTransitive(b, a, b); }
  }

  /** Two structures that differ in a qualifier that is not compared. */
  function PlainStruct(): (r: Record) {
    StructRec([], false, 0, [Field(Static(Vec(Float, 1)), [], 0, 0, 0, 0, 0, 0, 0)])
  }

  function MarkedStruct(): (r: Record) {
    StructRec([], false, 0, [Field(Static(Vec(Float, 1)), [], 0, 0, 0, 0, 0, 0, 0x400)])
  }

  /** In every cache in use the two are interned as one type. */
  lemma ConflatedFields(c: Cache)
    requires Inv(c) && c.users > 0
    ensures PlainStruct() != MarkedStruct()
    ensures var (d, r) := Intern(c, PlainStruct()); Intern(d, MarkedStruct()) == (d, r)
  {
    var a, b := PlainStruct(), MarkedStruct();
    assert a.fields[0].flags != b.fields[0].flags;
    ConflatedKeys();
    hide PlainStruct, MarkedStruct, Inv, Intern, SameKey;
    var (d, r) := Intern(c, a);
    InternKeepsInv(c, a);
    InternKeepsUsers(c, a);
    InternAnswers(c, a);
    SameKeySymmetric(a, b);
    SameKeyTransitive(a, d.arena[r.index], b);
    SameKeySymmetric(d.arena[r.index], b);
    InternMeets(d, r.index, b);
  }

  lemma ConflatedKeys()
    ensures SameKey(PlainStruct(), MarkedStruct())
    ensures forall n: nat :: RecordOk(PlainStruct(), n) && RecordOk(MarkedStruct(), n)
  {
    assert SameField(PlainStruct().fields[0], MarkedStruct().fields[0]);
  }
}
