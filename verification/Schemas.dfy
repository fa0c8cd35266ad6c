/** The part of JSON Schema draft-07 that the protocol generator reads. */
module Schemas {
  import opened Options

  /** The seven type names of draft-07, and any other word. */
  datatype JsonType = NullType | StringType | BooleanType | IntegerType | NumberType | ArrayType | ObjectType | OtherType

  datatype Member = Member(name: string, value: Json)

  /** A JSON value; the digits of a number that is not whole do not matter here. */
  datatype Json =
    | JNull
    | JBool(truth: bool)
    | JString(text: string)
    | JInteger(whole: int)
    | JFraction
    | JArray(elems: seq<Json>)
    | JObject(members: seq<Member>)

  /** `additionalProperties`: absent, a bare boolean (or unreadable), or a schema. */
  datatype Additional = NoAdditional | AnyAdditional | Additional(schema: Schema)

  datatype Property = Property(name: string, schema: Schema)

  /**
    A schema; a bare `true` or `false` is one with every part missing. `types` is what the type
    keyword declares, and `properties` are in sorted order.
   */
  datatype Schema = Schema(
    ref: string,
    types: seq<JsonType>,
    enum: seq<Json>,
    properties: seq<Property>,
    required: set<string>,
    items: Option<Schema>,
    additional: Additional,
    oneOf: seq<Schema>,
    anyOf: seq<Schema>,
    allOf: seq<Schema>,
    format: string)

  const PERMISSIVE := Schema("", [], [], [], {}, None, NoAdditional, [], [], [], "")

  predicate OnlyNull(s: Schema) {
    s.types == [NullType]
  }

  predicate Nullable(s: Schema) {
    NullType in s.types || exists arm :: arm in s.anyOf && NullType in arm.types
  }

  /** The arms of an anyOf that are not the null arm. */
  function Concrete(arms: seq<Schema>): (r: seq<Schema>)
    ensures forall arm :: arm in r ==> arm in arms
  {
    if arms == [] then []
    else if OnlyNull(arms[0]) then Concrete(arms[1..])
    else [arms[0]] + Concrete(arms[1..])
  }

  /** The schema of the value itself: without the null arm, and without a wrapper of one allOf arm. */
  function Base(s: Schema): (b: Schema)
    ensures b == s || b in s.anyOf || b in s.allOf
  {
    if |Concrete(s.anyOf)| == 1 then Concrete(s.anyOf)[0]
    else if |s.allOf| == 1 && s.ref == "" && s.properties == [] then s.allOf[0]
    else s
  }

  /** The i-th arm is the only one that is not the null arm. */
  predicate OnlyConcrete(arms: seq<Schema>, i: nat) {
    i < |arms| && arms[i].types != [NullType] && forall j :: 0 <= j < |arms| && j != i ==> arms[j].types == [NullType]
  }

  lemma {:induction false} NoneConcrete(arms: seq<Schema>)
    ensures Concrete(arms) == [] <==> forall j :: 0 <= j < |arms| ==> arms[j].types == [NullType]
  {
    if arms != [] {
      NoneConcrete(arms[1..]);
      if forall j :: 0 <= j < |arms[1..]| ==> arms[1..][j].types == [NullType] {
        assert forall j :: 0 < j < |arms| ==> arms[j] == arms[1..][j - 1];
      }
      assert forall j :: 0 <= j < |arms[1..]| ==> arms[1..][j] == arms[j + 1];
    }
  }

  lemma {:induction false} OnlyConcreteIsFound(arms: seq<Schema>, i: nat)
    requires OnlyConcrete(arms, i)
    ensures Concrete(arms) == [arms[i]]
  {
    assert forall j :: 0 <= j < |arms[1..]| ==> arms[1..][j] == arms[j + 1];
    if i == 0 {
      NoneConcrete(arms[1..]);
    } else {
      OnlyConcreteIsFound(arms[1..], i - 1);
    }
  }

  lemma {:induction false} FoundIsOnlyConcrete(arms: seq<Schema>) returns (i: nat)
    requires |Concrete(arms)| == 1
    ensures OnlyConcrete(arms, i)
  {
    if OnlyNull(arms[0]) {
      var k := FoundIsOnlyConcrete(arms[1..]);
      i := k + 1;
      assert forall j :: 0 < j < |arms| ==> arms[j] == arms[1..][j - 1];
    } else {
      NoneConcrete(arms[1..]);
      i := 0;
      assert forall j :: 0 < j < |arms| ==> arms[j] == arms[1..][j - 1];
    }
  }

  /**
    What is stripped, exactly: an anyOf whose other arms are all null is its one arm; else a wrapper of one
    allOf arm, with neither a reference nor properties, is that arm; anything else is itself.
   */
  lemma BaseIs(s: Schema)
    ensures forall i: nat :: OnlyConcrete(s.anyOf, i) ==> Base(s) == s.anyOf[i]
    ensures (forall i: nat :: !OnlyConcrete(s.anyOf, i)) ==>
      Base(s) == if |s.allOf| == 1 && s.ref == "" && s.properties == [] then s.allOf[0] else s
  {
    forall i: nat | OnlyConcrete(s.anyOf, i)
      ensures Concrete(s.anyOf) == [s.anyOf[i]]
    {
      OnlyConcreteIsFound(s.anyOf, i);
    }
    if |Concrete(s.anyOf)| == 1 {
      var i := FoundIsOnlyConcrete(s.anyOf);
    }
  }

  function Arms(s: Schema): seq<Schema> {
    if s.oneOf != [] then s.oneOf else s.anyOf
  }

  /** A union whose every arm is a string enum. */
  predicate EnumUnion(s: Schema) {
    Arms(s) != [] &&
    forall arm :: arm in Arms(s) ==> arm.enum != [] && forall t :: t in arm.types ==> t == StringType || t == NullType
  }

  predicate IsStringEnum(s: Schema) {
    StringType in s.types ||
    (s.types == [] && s.enum != [] && forall v :: v in s.enum ==> v.JString?)
  }

  /** The first declared type other than null; OtherType when there is none. */
  function ConcreteType(types: seq<JsonType>): JsonType {
    if types == [] then OtherType
    else if types[0] != NullType then types[0]
    else ConcreteType(types[1..])
  }

  // ---------- size and references ----------

  function Size(s: Schema): (n: nat)
    ensures n > 0
    decreases s
  {
    1 + SizeOfProperties(s.properties) + SizeOfAll(s.oneOf) + SizeOfAll(s.anyOf) + SizeOfAll(s.allOf) +
    (if s.items.Some? then Size(s.items.value) else 0) +
    (if s.additional.Additional? then Size(s.additional.schema) else 0)
  }

  function SizeOfAll(ss: seq<Schema>): nat
    decreases ss
  {
    if ss == [] then 0 else Size(ss[0]) + SizeOfAll(ss[1..])
  }

  function SizeOfProperties(ps: seq<Property>): nat
    decreases ps
  {
    if ps == [] then 0 else Size(ps[0].schema) + SizeOfProperties(ps[1..])
  }

  /** Every reference written anywhere in the schema satisfies `known`. */
  predicate Resolves(s: Schema, known: string -> bool)
    decreases s
  {
    (s.ref != "" ==> known(s.ref)) &&
    PropertiesResolve(s.properties, known) && AllResolve(s.oneOf, known) && AllResolve(s.anyOf, known) && AllResolve(s.allOf, known) &&
    (s.items.Some? ==> Resolves(s.items.value, known)) &&
    (s.additional.Additional? ==> Resolves(s.additional.schema, known))
  }

  predicate AllResolve(ss: seq<Schema>, known: string -> bool)
    decreases ss
  {
    ss == [] || (Resolves(ss[0], known) && AllResolve(ss[1..], known))
  }

  predicate PropertiesResolve(ps: seq<Property>, known: string -> bool)
    decreases ps
  {
    ps == [] || (Resolves(ps[0].schema, known) && PropertiesResolve(ps[1..], known))
  }

  lemma {:induction false} OneOfAll(ss: seq<Schema>, s: Schema, known: string -> bool)
    requires s in ss
    ensures Size(s) <= SizeOfAll(ss) && (AllResolve(ss, known) ==> Resolves(s, known))
  {
    if s != ss[0] {
      assert s in ss[1..];
      OneOfAll(ss[1..], s, known);
    }
  }

  /** A part of a schema is no larger than it, and resolves when it does. */
  predicate PartOf(part: Schema, s: Schema, known: string -> bool) {
    Size(part) <= Size(s) && (Resolves(s, known) ==> Resolves(part, known))
  }

  lemma BaseIsPart(s: Schema, known: string -> bool)
    ensures PartOf(Base(s), s, known)
  {
    if Base(s) in s.anyOf {
      OneOfAll(s.anyOf, Base(s), known);
    } else if Base(s) in s.allOf {
      OneOfAll(s.allOf, Base(s), known);
    }
  }

  lemma ChildIsPart(s: Schema, part: Schema, known: string -> bool)
    requires part in s.allOf || s.items == Some(part) || s.additional == Additional(part)
    ensures PartOf(part, s, known)
  {
    if part in s.allOf {
      OneOfAll(s.allOf, part, known);
    }
  }
}
