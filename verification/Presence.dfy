/** What a decoded struct can tell of a member that is missing. */
module Presence {
  import opened Options
  import opened Schemas
  import opened GoTypes
  import opened Widening
  import opened Declarations
  import opened ProtocolTypes
  import opened TaggedUnions

  /** A field of a decoded struct: a nil pointer, or a value. */
  datatype Slot = Nil | Held(value: Json)

  predicate Scalar(typ: GoType) {
    typ.Str? || typ.Bool? || typ.Int64? || typ.Uint64? || typ.Float64?
  }

  function Zero(typ: GoType): Json
    requires Scalar(typ)
  {
    match typ
    case Str => JString("")
    case Bool => JBool(false)
    case _ => JInteger(0)
  }

  /** What the field holds before decoding. */
  function Initial(f: Field): Slot
    requires Scalar(f.typ)
  {
    if f.pointer then Nil else Held(Zero(f.typ))
  }

  /** encoding/json: null makes a pointer nil and leaves any other scalar as it is. */
  function Stored(f: Field, was: Slot, v: Json): Slot {
    if !v.JNull? then Held(v) else if f.pointer then Nil else was
  }

  /** The i-th field after decoding the members, one after the other. */
  function SlotOf(fields: seq<Field>, i: nat, members: seq<Member>): Slot
    requires i < |fields| && Scalar(fields[i].typ)
  {
    if members == [] then Initial(fields[i])
    else
      var n := |members| - 1;
      var before := SlotOf(fields, i, members[..n]);
      if Meets(Keys(fields), members[n].name) == Some(i) then Stored(fields[i], before, members[n].value) else before
  }

  /** No member is decoded into the i-th field. */
  predicate Unmet(fields: seq<Field>, i: nat, members: seq<Member>) {
    forall m :: m in members ==> Meets(Keys(fields), m.name) != Some(i)
  }

  lemma {:induction false} UnmetIsInitial(fields: seq<Field>, i: nat, members: seq<Member>)
    requires i < |fields| && Scalar(fields[i].typ) && Unmet(fields, i, members)
    ensures SlotOf(fields, i, members) == Initial(fields[i])
  {
    if members != [] {
      UnmetIsInitial(fields, i, members[..|members| - 1]);
    }
  }

  /** With one more member, for that field. */
  lemma OneMoreMember(fields: seq<Field>, i: nat, members: seq<Member>, m: Member)
    requires i < |fields| && Scalar(fields[i].typ) && Meets(Keys(fields), m.name) == Some(i)
    ensures SlotOf(fields, i, members + [m]) == Stored(fields[i], SlotOf(fields, i, members), m.value)
  {
    assert (members + [m])[..|members|] == members;
  }

  function ZeroMember(f: Field): Member
    requires Scalar(f.typ)
  {
    Member(f.json, Zero(f.typ))
  }

  /** Whatever else the object holds, a missing member and a null one can be told from one that is zero. */
  ghost predicate TellsMissing(fields: seq<Field>, i: nat)
    requires i < |fields| && Scalar(fields[i].typ)
  {
    forall members :: Unmet(fields, i, members) ==>
      SlotOf(fields, i, members) != SlotOf(fields, i, members + [ZeroMember(fields[i])]) &&
      SlotOf(fields, i, members + [Member(fields[i].json, JNull)]) != SlotOf(fields, i, members + [ZeroMember(fields[i])])
  }

  /** What a field holds without a member, with a null one, and with a zero one. */
  lemma ThreeWays(fields: seq<Field>, i: nat, members: seq<Member>)
    requires i < |fields| && Scalar(fields[i].typ) && Meets(Keys(fields), fields[i].json) == Some(i)
    requires Unmet(fields, i, members)
    ensures SlotOf(fields, i, members) == Initial(fields[i])
    ensures SlotOf(fields, i, members + [Member(fields[i].json, JNull)]) == Initial(fields[i])
    ensures SlotOf(fields, i, members + [ZeroMember(fields[i])]) == Held(Zero(fields[i].typ))
  {
    UnmetIsInitial(fields, i, members);
    OneMoreMember(fields, i, members, Member(fields[i].json, JNull));
    OneMoreMember(fields, i, members, ZeroMember(fields[i]));
  }

  lemma PointersTell(fields: seq<Field>, i: nat)
    requires i < |fields| && Scalar(fields[i].typ) && Meets(Keys(fields), fields[i].json) == Some(i)
    ensures TellsMissing(fields, i) <==> fields[i].pointer
  {
    if fields[i].pointer {
      forall members | Unmet(fields, i, members)
        ensures SlotOf(fields, i, members) != SlotOf(fields, i, members + [ZeroMember(fields[i])])
        ensures SlotOf(fields, i, members + [Member(fields[i].json, JNull)]) !=
                SlotOf(fields, i, members + [ZeroMember(fields[i])])
      {
        ThreeWays(fields, i, members);
      }
    } else {
      assert Unmet(fields, i, []);
      ThreeWays(fields, i, []);
    }
  }

  lemma ScalarFieldPoints(naming: Naming, owner: string, f: Field, p: Property, required: set<string>)
    requires IsFieldOf(naming, owner, f, p, required) && Scalar(f.typ)
    ensures p.name == f.json && (f.pointer <==> MayBeMissing(p, required))
  {
  }

  lemma PropertyOfField(naming: Naming, owner: string, fields: seq<Field>, ps: seq<Property>, required: set<string>, f: Field)
    returns (p: Property)
    requires AreFieldsOf(naming, owner, fields, ps, required) && f in fields
    ensures p in ps && IsFieldOf(naming, owner, f, p, required)
  {
    assert HasProperty(naming, owner, f, ps, required);
    p :| p in ps && IsFieldOf(naming, owner, f, p, required);
  }

  /**
    A scalar field of a struct tells a missing or null member from a zero exactly where the schema lets
    the member be missing or null: a missing exit code is not exit code 0, and a required one needs no
    pointer to say so.
   */
  lemma StructTellsMissing(naming: Naming, owner: string, fields: seq<Field>, ps: seq<Property>, required: set<string>,
                           i: nat)
    returns (p: Property)
    requires fields == FieldsOf(ps, Under(naming, owner), required)
    requires i < |fields| && Scalar(fields[i].typ) && Meets(Keys(fields), fields[i].json) == Some(i)
    ensures p in ps && p.name == fields[i].json && (TellsMissing(fields, i) <==> MayBeMissing(p, required))
  {
    FieldsAreRight(naming, owner, ps, required, fields);
    p := PropertyOfField(naming, owner, fields, ps, required, fields[i]);
    ScalarFieldPoints(naming, owner, fields[i], p, required);
    PointersTell(fields, i);
  }

  /** In a flattened union every scalar field but the tag does, since it belongs to some arms only. */
  lemma UnionTellsMissing(naming: Naming, kind: GoType -> Kind, d: Decl, name: string, s: Schema, tag: string, i: nat)
    requires FlatStruct(naming, kind, d, name, s, tag) && 0 < i < |d.fields| && Scalar(d.fields[i].typ)
    ensures TellsMissing(d.fields, i)
  {
    FieldMeetsItself(naming, kind, d, name, s, tag, i);
    assert d.fields[1..][i - 1] == d.fields[i];
    PointersTell(d.fields, i);
  }
}
