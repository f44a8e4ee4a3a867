/** Decoding in another cache, as when a blob outlives the process that wrote it. */
module TypeBlobTrees {
  import opened GlslTypes
  import opened TypeCache
  import opened TypeCacheRuns
  import opened TypeTrees
  import opened Blobs
  import opened TypeBlob

  ghost predicate MembersMatch(c: Cache, ms: seq<Member>, fields: seq<Field>)
    requires Acyclic(c)
  {
    && |ms| == |fields|
    && forall k :: 0 <= k < |fields| ==>
         RefOk(fields[k].typ, |c.arena|) && ms[k] == MemberOf(Tree(c, fields[k].typ), fields[k])
  }

  /** `t` is the tree of a type that `rec` describes in the cache `c`. */
  ghost predicate Describes(c: Cache, rec: Record, t: Type)
    requires Acyclic(c)
  {
    match rec
    case ExplicitRec(base, rows, cols, stride, align, rowMajor) => t == Basic(base, rows, cols, stride, align, rowMajor)
    case ArrayRec(elem, length, stride) => RefOk(elem, |c.arena|) && t == Array(Tree(c, elem), length, stride)
    case CmatRec(desc) => t == Coop(desc)
    case StructRec(name, packed, align, fields) =>
      t.Struct? && t.name == name && t.packed == packed && t.align == align && MembersMatch(c, t.fields, fields)
    case InterfaceRec(name, packing, rowMajor, fields) =>
      && t.Interface? && t.name == name && t.packing == packing && t.rowMajor == rowMajor
      && MembersMatch(c, t.fields, fields)
    case SubroutineRec(name) => t == Routine(name)
  }

  lemma InternedDescribed(c: Cache, i: nat)
    requires Acyclic(c) && i < |c.arena|
    ensures Describes(c, c.arena[i], Tree(c, Interned(i)))
  {
    hide MemberOf, AlignmentOk;
    assert RecordOk(c.arena[i], i);
  }

  /** Records that compare equal, and are equal where a key can be shared, describe the same tree. */
  lemma SameKeyDescribes(c: Cache, a: Record, b: Record, t: Type)
    requires Acyclic(c) && SameKey(a, b) && Describes(c, b, t)
    requires a.ExplicitRec? || a.CmatRec? ==> a == b
    ensures Describes(c, a, t)
  {
    if a.StructRec? || a.InterfaceRec? {
      hide SameField, FieldKey, Tree;
      forall k | 0 <= k < |a.fields|
        ensures RefOk(a.fields[k].typ, |c.arena|) && t.fields[k] == MemberOf(Tree(c, a.fields[k].typ), a.fields[k])
      {
        SameMember(a.fields[k], b.fields[k], Tree(c, b.fields[k].typ));
      }
    }
  }

  lemma SameMember(f: Field, g: Field, t: Type)
    requires SameField(f, g)
    ensures f.typ == g.typ && MemberOf(t, f) == MemberOf(t, g)
  {
    SameFieldIsSameKey(f, g);
  }

  lemma InvAcyclic(c: Cache)
    requires Inv(c)
    ensures Acyclic(c)
  {
  }

  // ------------------------------------------------- shapes that share a key

  /** No explicit type of `s` shares its key with a different one of `t`. */
  predicate Agreeing(s: seq<Record>, t: seq<Record>) {
    forall i, j :: 0 <= i < |s| && 0 <= j < |t| && s[i].ExplicitRec? && t[j].ExplicitRec? ==>
      (MatrixKeyOf(s[i]) == MatrixKeyOf(t[j]) ==> s[i] == t[j])
  }

  /** Types can go from `c` to `d`. */
  predicate Compatible(c: Cache, d: Cache) {
    Agreeing(c.arena, c.arena) && Agreeing(c.arena, d.arena)
  }

  /** Caches of real shapes are compatible. */
  lemma RealIsCompatible(c: Cache, d: Cache)
    requires Real(c) && Real(d)
    ensures Compatible(c, d)
  {
    RealAgree(c.arena, c.arena, c, c);
    RealAgree(c.arena, d.arena, c, d);
  }

  lemma RealAgree(s: seq<Record>, t: seq<Record>, c: Cache, d: Cache)
    requires Real(c) && Real(d) && s == c.arena && t == d.arena
    ensures Agreeing(s, t)
  {
    hide MatrixKeyOf, RealShape;
    forall i, j | 0 <= i < |s| && 0 <= j < |t| && s[i].ExplicitRec? && t[j].ExplicitRec?
      ensures MatrixKeyOf(s[i]) == MatrixKeyOf(t[j]) ==> s[i] == t[j]
    {
      MatrixKeyInjective(s[i], t[j]);
    }
  }

  /** Nothing else has the key of `rec`. */
  predicate Unclaimed(c: Cache, rec: Record) {
    rec.ExplicitRec? ==> Agreeing([rec], c.arena)
  }

  /** What a constructor returns has the tree that was asked for, if nothing else has its key. */
  lemma InternTree(c: Cache, rec: Record)
    requires Inv(c) && c.users > 0 && RecordOk(rec, |c.arena|) && Unclaimed(c, rec)
    ensures var (d, r) := Intern(c, rec);
            && Inv(d) && Acyclic(d) && d.users == c.users && Extends(c, d) && RefOk(r, |d.arena|)
            && Describes(d, rec, Tree(d, r))
  {
    hide *;
    var (d, r) := Intern(c, rec);
    InternKeepsInv(c, rec);
    InvFiled(c);
    InternAnswers(c, rec);
    InternKeepsUsers(c, rec);
    InvAcyclic(d);
    InternedOk(d, r.index);
    InternedDescribed(d, r.index);
    AnswerIsEqual(c, rec);
    SameKeyDescribes(d, rec, d.arena[r.index], Tree(d, r));
  }

  lemma InvFiled(c: Cache)
    requires Inv(c)
    ensures Filed(c)
  {
  }

  lemma AnswerIsEqual(c: Cache, rec: Record)
    requires Inv(c) && RecordOk(rec, |c.arena|) && Unclaimed(c, rec)
    ensures var (d, r) := Intern(c, rec);
            && r.Interned? && r.index < |d.arena|
            && (rec.ExplicitRec? || rec.CmatRec? ==> rec == d.arena[r.index])
  {
    hide MatrixKeyOf, CmatKey, Inv, Intern;
    InvFiled(c);
    InternAnswers(c, rec);
    var (d, r) := Intern(c, rec);
    if rec.CmatRec? { CmatAnswers(c, rec.desc); }
    if rec.ExplicitRec? {
      InternAppends(c, rec);
      if r.index < |c.arena| {
        var s := [rec];
        assert Agreeing(s, c.arena) && s[0] == rec && d.arena[r.index] == c.arena[r.index];
      }
    }
  }

  lemma InternedOk(c: Cache, i: nat)
    requires i < |c.arena|
    ensures RefOk(Interned(i), |c.arena|)
  {
  }

  // ------------------------------------------------- rebuilding

  /** The tree is the same, and the other cache has only grown. */
  ghost predicate Rebuilt(c: Cache, d: Cache, r: Ref, e: Cache, ref: Ref)
    requires Acyclic(c) && RefOk(r, |c.arena|)
  {
    && Inv(e) && Acyclic(e) && e.users == d.users && Extends(d, e) && RefOk(ref, |e.arena|)
    && Tree(e, ref) == Tree(c, r) && Compatible(c, e)
  }

  lemma {:induction false} RebuildKeepsTree(c: Cache, d: Cache, r: Ref)
    requires Acyclic(c) && RefOk(r, |c.arena|) && Inv(d) && d.users > 0 && Compatible(c, d)
    ensures var (e, ref) := Rebuild(c, d, r); Rebuilt(c, d, r, e, ref)
    decreases Rank(r), 1
  {
    hide Inv, Intern, AlignmentOk, Members, MemberOf, Compatible, Unclaimed, ExplicitAsserted;
    InvAcyclic(d);
    if r.Interned? {
      var i := r.index;
      var rec := c.arena[i];
      assert RecordOk(rec, i);
      match rec {
        case ArrayRec(elem, length, stride) =>
          RebuildKeepsTree(c, d, elem);
          ArrayRebuilt(c, d, i);
        case StructRec(_, _, _, fields) =>
          RebuildFieldsKeep(c, d, fields, |fields|, i);
          RecordRebuilt(c, d, i);
        case InterfaceRec(_, _, _, fields) =>
          RebuildFieldsKeep(c, d, fields, |fields|, i);
          RecordRebuilt(c, d, i);
        case _ =>
          RecordOkAnywhere(rec, i, |d.arena|);
          FromCompatible(c, d, i);
          InternTree(d, rec);
      }
    }
  }

  /** What comes from a compatible cache meets nothing else under its key, and leaves the caches compatible. */
  lemma FromCompatible(c: Cache, d: Cache, i: nat)
    requires Compatible(c, d) && i < |c.arena|
    ensures Unclaimed(d, c.arena[i]) && Compatible(c, Intern(d, c.arena[i]).0)
  {
    hide MatrixKeyOf, Intern;
    InternAppends(d, c.arena[i]);
  }

  /** Other types have no such key. */
  lemma StillCompatible(c: Cache, d: Cache, rec: Record)
    requires Compatible(c, d) && !rec.ExplicitRec?
    ensures Unclaimed(d, rec) && Compatible(c, Intern(d, rec).0)
  {
    hide MatrixKeyOf, Intern;
    InternAppends(d, rec);
  }

  lemma RecordOkAnywhere(r: Record, i: nat, n: nat)
    requires RecordOk(r, i) && (r.ExplicitRec? || r.CmatRec? || r.SubroutineRec?)
    ensures RecordOk(r, n)
  {
  }

  lemma ArrayRebuilt(c: Cache, d: Cache, i: nat)
    requires Acyclic(c) && i < |c.arena| && c.arena[i].ArrayRec? && RefOk(c.arena[i].elem, i) && d.users > 0
    requires var (e, elem) := Rebuild(c, d, c.arena[i].elem); Rebuilt(c, d, c.arena[i].elem, e, elem)
    ensures var (e, ref) := Rebuild(c, d, Interned(i)); Rebuilt(c, d, Interned(i), e, ref)
  {
    hide Inv, Intern, Compatible, Unclaimed;
    var ArrayRec(elem, length, stride) := c.arena[i];
    var (e, elem') := Rebuild(c, d, elem);
    var rec := ArrayRec(elem', length, stride);
    StillCompatible(c, e, rec);
    InternTree(e, rec);
    TreeStable(e, Intern(e, rec).0, elem');
  }

  /** The fields stand for the same trees. */
  ghost predicate SameTrees(c: Cache, fields: seq<Field>, e: Cache, rebuilt: seq<Field>, i: nat)
    requires Acyclic(c) && i < |c.arena| && FieldsOk(fields, i)
  {
    && Acyclic(e) && |rebuilt| <= |fields|
    && forall k :: 0 <= k < |rebuilt| ==>
         && rebuilt[k] == fields[k].(typ := rebuilt[k].typ)
         && RefOk(rebuilt[k].typ, |e.arena|) && Tree(e, rebuilt[k].typ) == Tree(c, fields[k].typ)
  }

  lemma SameTreesLater(c: Cache, fields: seq<Field>, e: Cache, e': Cache, rebuilt: seq<Field>, i: nat)
    requires Acyclic(c) && i < |c.arena| && FieldsOk(fields, i)
    requires SameTrees(c, fields, e, rebuilt, i) && Acyclic(e') && e.arena <= e'.arena
    ensures SameTrees(c, fields, e', rebuilt, i)
  {
    hide Acyclic, Tree;
    forall k | 0 <= k < |rebuilt|
      ensures RefOk(rebuilt[k].typ, |e'.arena|) && Tree(e', rebuilt[k].typ) == Tree(c, fields[k].typ)
    {
      TreeStable(e, e', rebuilt[k].typ);
    }
  }

  lemma {:induction false} RebuildFieldsKeep(c: Cache, d: Cache, fields: seq<Field>, n: nat, i: nat)
    requires Acyclic(c) && i < |c.arena| && FieldsOk(fields, i) && n <= |fields|
    requires Inv(d) && d.users > 0 && Compatible(c, d)
    ensures var (e, rebuilt) := RebuildFields(c, d, fields, n, i);
            Inv(e) && e.users == d.users && Extends(d, e) && Compatible(c, e) && SameTrees(c, fields, e, rebuilt, i)
    decreases i + 1, 0, n
  {
    hide Inv, Acyclic, Rebuild, Tree, Compatible;
    InvAcyclic(d);
    if n > 0 {
      RebuildFieldsKeep(c, d, fields, n - 1, i);
      var (e, before) := RebuildFields(c, d, fields, n - 1, i);
      RebuildKeepsTree(c, e, fields[n - 1].typ);
      var (e', typ) := Rebuild(c, e, fields[n - 1].typ);
      SameTreesLater(c, fields, e, e', before, i);
      assert RebuildFields(c, d, fields, n, i) == (e', before + [fields[n - 1].(typ := typ)]);
    }
  }

  /** Equal trees and qualifiers give equal members. */
  lemma MembersRebuilt(c: Cache, ms: seq<Member>, fields: seq<Field>, e: Cache, ns: seq<Member>, rebuilt: seq<Field>,
                       i: nat)
    requires Acyclic(c) && i < |c.arena| && FieldsOk(fields, i)
    requires SameTrees(c, fields, e, rebuilt, i) && |rebuilt| == |fields|
    requires MembersMatch(c, ms, fields) && MembersMatch(e, ns, rebuilt)
    ensures ms == ns
  {
    hide Tree, Acyclic, FieldKey, ComparedFlags;
    forall k | 0 <= k < |ms| ensures ms[k] == ns[k] {
      MemberTyp(Tree(c, fields[k].typ), fields[k], rebuilt[k].typ);
    }
  }

  lemma MemberTyp(t: Type, f: Field, typ: Ref)
    ensures MemberOf(t, f.(typ := typ)) == MemberOf(t, f)
  {
  }

  lemma RecordRebuilt(c: Cache, d: Cache, i: nat)
    requires Acyclic(c) && i < |c.arena| && d.users > 0 && RecordOk(c.arena[i], i)
    requires c.arena[i].StructRec? || c.arena[i].InterfaceRec?
    requires var fields := c.arena[i].fields;
             var (e, rebuilt) := RebuildFields(c, d, fields, |fields|, i);
             Inv(e) && e.users == d.users && Extends(d, e) && Compatible(c, e) && SameTrees(c, fields, e, rebuilt, i)
    ensures var (e, ref) := Rebuild(c, d, Interned(i)); Rebuilt(c, d, Interned(i), e, ref)
  {
    hide Inv, Acyclic, Intern, AlignmentOk, Tree, RebuildFields, SameTrees, MembersMatch, Compatible, Unclaimed;
    var rec := c.arena[i];
    var (e, rebuilt) := RebuildFields(c, d, rec.fields, |rec.fields|, i);
    var rec' := rec.(fields := rebuilt);
    RebuiltOk(c, rec.fields, e, rebuilt, i);
    StillCompatible(c, e, rec');
    InternTree(e, rec');
    var (e', ref) := Intern(e, rec');
    assert Rebuild(c, d, Interned(i)) == (e', ref);
    SameTreesLater(c, rec.fields, e, e', rebuilt, i);
    InternedDescribed(c, i);
    MembersRebuilt(c, Tree(c, Interned(i)).fields, rec.fields, e', Tree(e', ref).fields, rebuilt, i);
  }

  lemma RebuiltOk(c: Cache, fields: seq<Field>, e: Cache, rebuilt: seq<Field>, i: nat)
    requires Acyclic(c) && i < |c.arena| && FieldsOk(fields, i) && SameTrees(c, fields, e, rebuilt, i)
    ensures FieldsOk(rebuilt, |e.arena|) && Acyclic(e)
  {
  }

  /**
   Decoding into any compatible cache in use: the result has the same tree, the other types of that
   cache stay where they are, and exactly what was written is consumed.
   */
  lemma DecodeElsewhere(c: Cache, d: Cache, b: seq<byte>, r: Ref, data: seq<byte>)
    requires Acyclic(c) && RefOk(r, |c.arena|) && Encodable(c, r) && Encode(c, b, r) <= data
    requires Inv(d) && d.users > 0 && Compatible(c, d)
    ensures var res := Decode(d, At(data, b));
            res.Some? && res.value.rest == At(data, Encode(c, b, r)) && Rebuilt(c, d, r, res.value.cache, res.value.ref)
  {
    hide *;
    DecodeRebuilds(c, d, b, r, data);
    RebuildKeepsTree(c, d, r);
  }

  /** Between incompatible caches some type changes: one whose key is taken by a different shape. */
  lemma ClashDiffers(c: Cache, d: Cache, b: seq<byte>, i: nat, j: nat, data: seq<byte>)
    requires Acyclic(c) && i < |c.arena| && Inv(d) && d.users > 0 && j < |d.arena|
    requires c.arena[i].ExplicitRec? && d.arena[j].ExplicitRec? && c.arena[i] != d.arena[j]
    requires MatrixKeyOf(c.arena[i]) == MatrixKeyOf(d.arena[j])
    requires Encodable(c, Interned(i)) && Encode(c, b, Interned(i)) <= data
    ensures var res := Decode(d, At(data, b));
            && res.Some? && res.value.ref == Interned(j) && res.value.cache == d
            && Acyclic(d) && Tree(d, Interned(j)) != Tree(c, Interned(i))
  {
    hide Inv, Intern, Encode, Decode, MatrixKeyOf;
    InvAcyclic(d);
    InvFiled(d);
    InternMeets(d, j, c.arena[i]);
    DecodeExplicit(c, d, b, i, data);
  }
}
