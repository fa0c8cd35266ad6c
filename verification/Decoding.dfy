/**
  What the generated types are for: every JSON value a schema admits can be decoded into the Go type
  the generator gives it.
 */
module Decoding {
  import opened Names
  import opened Options
  import opened Schemas
  import opened GoTypes
  import opened Widening
  import opened Declarations

  // ---------- what a schema admits ----------

  predicate HasType(v: Json, t: JsonType) {
    match t
    case NullType => v.JNull?
    case StringType => v.JString?
    case BooleanType => v.JBool?
    case IntegerType => v.JInteger?
    case NumberType => v.JInteger? || v.JFraction?
    case ArrayType => v.JArray?
    case ObjectType => v.JObject?
    case OtherType => true
  }

  predicate Possible(types: seq<JsonType>, v: Json) {
    types == [] || exists t :: t in types && HasType(v, t)
  }

  /** Which values the definition behind a reference admits. */
  type Referred = (string, Json) -> bool

  /**
    Validity by draft-07, read generously: `required`, the uniqueness in oneOf, and a bare `false`
    are not held against a value. Next to a reference every other keyword is ignored, as section 8.3
    of draft-handrews-json-schema-01 demands.
   */
  predicate Admits(s: Schema, v: Json, refs: Referred)
    decreases s
  {
    if s.ref != "" then refs(s.ref, v)
    else
      && Possible(s.types, v)
      && (s.enum == [] || v in s.enum)
      && (v.JObject? ==>
            forall p, m :: p in s.properties && m in v.members && m.name == p.name ==> Admits(p.schema, m.value, refs))
      && (v.JObject? && s.properties == [] && s.additional.Additional? ==>
            forall m :: m in v.members ==> Admits(s.additional.schema, m.value, refs))
      && (v.JArray? && s.items.Some? ==> forall e :: e in v.elems ==> Admits(s.items.value, e, refs))
      && (forall arm :: arm in s.allOf ==> Admits(arm, v, refs))
      && (s.anyOf == [] || exists arm :: arm in s.anyOf && Admits(arm, v, refs))
      && (s.oneOf == [] || exists arm :: arm in s.oneOf && Admits(arm, v, refs))
  }

  // ---------- what a Go type decodes ----------

  /** Which values the named types decode. */
  type NamedTypes = (string, Json) -> bool

  /** encoding/json, kinds of values aside from ranges: null leaves any target as it is. */
  predicate Decodes(named: NamedTypes, typ: GoType, v: Json)
    decreases typ
  {
    v.JNull? ||
    match typ
    case Str => v.JString?
    case Bool => v.JBool?
    case Int64 => v.JInteger?
    case Uint64 => v.JInteger?
    case Float64 => v.JInteger? || v.JFraction?
    case Raw => true
    case Slice(elem) => v.JArray? && forall e :: e in v.elems ==> Decodes(named, elem, e)
    case MapOf(elem) => v.JObject? && forall m :: m in v.members ==> Decodes(named, elem, m.value)
    case Named(name) => named(name, v)
  }

  // ---------- members and fields ----------

  /** The member of that name is decoded into the field of this property. */
  predicate Met(place: Placing, ps: seq<Property>, p: Property, name: string) {
    var met := Meets(PropertyKeys(Shown(ps, place)), name);
    met.Some? && Shown(ps, place)[met.value] == p
  }

  /** Whether a property's name gives a field; where does not matter. */
  function AnyPlace(naming: Naming): Placing {
    Under(naming, "")
  }

  /**
    No member is taken for a property of another case, down to where the type ends, unless its value
    is one that property admits: encoding/json decodes "X" into a field of key "x".
   */
  predicate Keyed(naming: Naming, s: Schema, v: Json, refs: Referred)
    decreases s
  {
    var b := Base(s);
    if InnerOf(b).Some? then
      match InnerOf(b).value.wrapper
      case Itself => Keyed(naming, InnerOf(b).value.part, v, refs)
      case AsSlice => v.JArray? ==> forall e :: e in v.elems ==> Keyed(naming, InnerOf(b).value.part, e, refs)
      case AsMap => v.JObject? ==> forall m :: m in v.members ==> Keyed(naming, InnerOf(b).value.part, m.value, refs)
    else
      IsObject(b) && v.JObject? ==>
        forall p, m :: p in b.properties && m in v.members && Met(AnyPlace(naming), b.properties, p, m.name) ==>
          Admits(p.schema, m.value, refs) && Keyed(naming, p.schema, m.value, refs)
  }

  /** The same for the members of an object that has a struct of its own. */
  predicate KeyedMembers(naming: Naming, ps: seq<Property>, members: seq<Member>, refs: Referred) {
    forall p, m :: p in ps && m in members && Met(AnyPlace(naming), ps, p, m.name) ==>
      Admits(p.schema, m.value, refs) && Keyed(naming, p.schema, m.value, refs)
  }

  /** A value that an object schema admits and whose members meet their own properties. */
  predicate FitsObject(naming: Naming, s: Schema, v: Json, refs: Referred) {
    Admits(s, v, refs) && (v.JObject? ==> KeyedMembers(naming, s.properties, v.members, refs))
  }

  // ---------- the schemas goType is right about ----------

  /** A value of type t decodes into the Go type for c. */
  predicate Fits(c: JsonType, t: JsonType) {
    t == NullType || t == c || (c == NumberType && t == IntegerType)
  }

  /** The first type other than null takes in all the others. */
  predicate OneType(types: seq<JsonType>) {
    forall t :: t in types ==> Fits(ConcreteType(types), t)
  }

  /** Of an enum's values the types leave only strings and null. */
  predicate TextOnly(types: seq<JsonType>, enum: seq<Json>) {
    forall v :: v in enum && Possible(types, v) ==> v.JString? || v.JNull?
  }

  predicate TextUnion(s: Schema) {
    forall arm :: arm in Arms(s) ==> arm.ref == "" && TextOnly(arm.types, arm.enum)
  }

  /** What goType makes of a base without a further part: raw JSON is always right, other types need not be. */
  predicate LeafFits(b: Schema) {
    b.ref != "" ||
    if b.enum != [] then TextOnly(b.types, b.enum)
    else
      match ConcreteType(b.types)
      case OtherType => EnumUnion(b) ==> TextUnion(b)
      case ObjectType => b.additional.AnyAdditional? ==> OneType(b.types)
      case _ => OneType(b.types)
  }

  predicate InnerFits(b: Schema) {
    InnerOf(b).Some? && (InnerOf(b).value.wrapper.Itself? || OneType(b.types))
  }

  /** Stripping null loses nothing else. */
  predicate StripFits(s: Schema) {
    |Concrete(s.anyOf)| == 1 ==> s.ref == "" && forall arm :: arm in s.anyOf && OnlyNull(arm) ==> arm.ref == ""
  }

  /** A check on the parts that the type is made from. */
  predicate WellTyped(s: Schema)
    decreases s
  {
    StripFits(s) &&
    if InnerOf(Base(s)).Some? then InnerFits(Base(s)) && WellTyped(InnerOf(Base(s)).value.part)
    else IsObject(Base(s)) || LeafFits(Base(s))
  }

  // ---------- goType is sound ----------

  lemma {:induction false} ConcreteOrNull(arms: seq<Schema>, arm: Schema)
    requires arm in arms
    ensures OnlyNull(arm) || arm in Concrete(arms)
  {
    if arm != arms[0] {
      assert arm in arms[1..];
      ConcreteOrNull(arms[1..], arm);
    }
  }

  lemma NullAdmitsNull(arm: Schema, v: Json, refs: Referred)
    requires OnlyNull(arm) && arm.ref == "" && Admits(arm, v, refs)
    ensures v.JNull?
  {
    var t :| t in arm.types && HasType(v, t);
  }

  lemma SomeArmAdmits(s: Schema, v: Json, refs: Referred) returns (arm: Schema)
    requires Admits(s, v, refs) && s.ref == "" && s.anyOf != []
    ensures arm in s.anyOf && Admits(arm, v, refs)
  {
    arm :| arm in s.anyOf && Admits(arm, v, refs);
  }

  lemma SingleConcrete(arms: seq<Schema>, arm: Schema)
    requires arm in arms && !OnlyNull(arm) && |Concrete(arms)| == 1
    ensures Concrete(arms)[0] == arm
  {
    ConcreteOrNull(arms, arm);
  }

  /** Without its null arm an anyOf of one arm still admits every value but null. */
  lemma OnlyArmAdmits(s: Schema, v: Json, refs: Referred)
    requires StripFits(s) && Admits(s, v, refs) && |Concrete(s.anyOf)| == 1
    ensures v.JNull? || Admits(Concrete(s.anyOf)[0], v, refs)
  {
    var arm := SomeArmAdmits(s, v, refs);
    if OnlyNull(arm) {
      NullAdmitsNull(arm, v, refs);
    } else {
      SingleConcrete(s.anyOf, arm);
    }
  }

  lemma WrapperAdmits(s: Schema, v: Json, refs: Referred)
    requires Admits(s, v, refs) && s.ref == "" && |s.allOf| == 1
    ensures Admits(s.allOf[0], v, refs)
  {
  }

  /** Stripping null and wrappers loses no value but null. */
  lemma BaseAdmits(s: Schema, v: Json, refs: Referred)
    requires StripFits(s) && Admits(s, v, refs)
    ensures v.JNull? || Admits(Base(s), v, refs)
  {
    if |Concrete(s.anyOf)| == 1 {
      OnlyArmAdmits(s, v, refs);
    } else if |s.allOf| == 1 && s.ref == "" && s.properties == [] {
      WrapperAdmits(s, v, refs);
    }
  }

  /** A value of one of the types has the first one, or is null. */
  lemma HasFirstType(types: seq<JsonType>, v: Json)
    requires OneType(types) && types != [] && Possible(types, v) && !v.JNull?
    ensures HasType(v, ConcreteType(types))
  {
    var t :| t in types && HasType(v, t);
  }

  lemma {:induction false} FirstTypeIsDeclared(types: seq<JsonType>)
    requires ConcreteType(types) != OtherType
    ensures ConcreteType(types) in types && ConcreteType(types) != NullType
  {
    if types[0] == NullType {
      FirstTypeIsDeclared(types[1..]);
    }
  }

  /** An enum union admits strings and null only. */
  lemma EnumUnionAdmits(b: Schema, v: Json, refs: Referred)
    requires EnumUnion(b) && TextUnion(b) && Admits(b, v, refs) && b.ref == ""
    ensures v.JString? || v.JNull?
  {
    var arm :| arm in Arms(b) && Admits(arm, v, refs);
  }

  /** A type a base determines outright decodes what the base admits. */
  lemma KnownIsSound(b: Schema, v: Json, refs: Referred, named: NamedTypes)
    requires LeafFits(b) && Admits(b, v, refs) && InnerOf(b).None? && !IsObject(b)
    requires forall ref, w :: refs(ref, w) ==> named(RefName(ref), w)
    ensures Decodes(named, Known(b), v)
  {
    if b.ref == "" && !v.JNull? && b.enum == [] {
      if ConcreteType(b.types) != OtherType {
        FirstTypeIsDeclared(b.types);
        if OneType(b.types) {
          HasFirstType(b.types, v);
        }
      } else if EnumUnion(b) {
        EnumUnionAdmits(b, v, refs);
      }
    }
  }

  /** The value itself, its elements or its members belong to the part the type goes on to. */
  lemma InnerAdmits(b: Schema, v: Json, refs: Referred)
    requires InnerFits(b) && Admits(b, v, refs) && !v.JNull?
    ensures var inner := InnerOf(b).value;
      match inner.wrapper
      case Itself => Admits(inner.part, v, refs)
      case AsSlice => v.JArray? && forall e :: e in v.elems ==> Admits(inner.part, e, refs)
      case AsMap => v.JObject? && forall m :: m in v.members ==> Admits(inner.part, m.value, refs)
  {
    if !InnerOf(b).value.wrapper.Itself? {
      FirstTypeIsDeclared(b.types);
      HasFirstType(b.types, v);
    }
  }

  /** A slice or map decodes what its elements' type decodes elementwise. */
  lemma WrapDecodes(named: NamedTypes, typ: GoType, wrapper: Wrapper, v: Json)
    requires match wrapper
      case Itself => Decodes(named, typ, v)
      case AsSlice => v.JArray? && forall e :: e in v.elems ==> Decodes(named, typ, e)
      case AsMap => v.JObject? && forall m :: m in v.members ==> Decodes(named, typ, m.value)
    ensures Decodes(named, Wrap(typ, wrapper), v)
  {
  }

  /** Named types decode what their definitions admit, and so does the name of an unnamed object. */
  ghost predicate NamesDecode(naming: Naming, named: NamedTypes, refs: Referred, inline: Option<Inline>) {
    (forall ref, w :: refs(ref, w) ==> named(RefName(ref), w)) &&
    (inline.Some? ==> forall w :: FitsObject(naming, inline.value.schema, w, refs) ==> named(inline.value.name, w))
  }

  /** Where the type goes on to a part of the base. */
  lemma {:induction false} InnerIsSound(naming: Naming, s: Schema, name: string, v: Json, refs: Referred, named: NamedTypes)
    requires var b := Base(s); InnerFits(b) && WellTyped(InnerOf(b).value.part) && Admits(b, v, refs) && !v.JNull?
    requires Keyed(naming, s, v, refs)
    requires NamesDecode(naming, named, refs, GoTypeOf(InnerOf(Base(s)).value.part, name).inline)
    ensures var inner := InnerOf(Base(s)).value;
      Decodes(named, Wrap(GoTypeOf(inner.part, name).typ, inner.wrapper), v)
    decreases s, 0
  {
    InnerAdmits(Base(s), v, refs);
    var inner := InnerOf(Base(s)).value;
    var typ := GoTypeOf(inner.part, name).typ;
    forall w | Admits(inner.part, w, refs) && Keyed(naming, inner.part, w, refs)
      ensures Decodes(named, typ, w)
    {
      GoTypeIsSound(naming, inner.part, name, w, refs, named);
    }
    WrapDecodes(named, typ, inner.wrapper, v);
  }

  /**
    goType is sound: if named types decode what their definitions admit, and an unnamed object's
    type decodes what that object admits, then the type of a schema decodes whatever it admits.
   */
  lemma {:induction false} GoTypeIsSound(naming: Naming, s: Schema, name: string, v: Json, refs: Referred, named: NamedTypes)
    requires WellTyped(s) && Admits(s, v, refs) && Keyed(naming, s, v, refs)
    requires NamesDecode(naming, named, refs, GoTypeOf(s, name).inline)
    ensures Decodes(named, GoTypeOf(s, name).typ, v)
    decreases s, 1
  {
    var b := Base(s);
    BaseAdmits(s, v, refs);
    if !v.JNull? {
      if InnerOf(b).Some? {
        InnerIsSound(naming, s, name, v, refs, named);
      } else if IsObject(b) {
        assert FitsObject(naming, b, v, refs);
      } else {
        KnownIsSound(b, v, refs, named);
      }
    }
  }

  // ---------- and only for those schemas ----------

  /** No oneOf, anyOf or allOf down to the end of the type, and beside an enum only types. */
  predicate Simple(s: Schema)
    decreases s
  {
    s.oneOf == [] && s.anyOf == [] && s.allOf == [] &&
    (s.enum != [] ==> s.items.None? && !s.additional.Additional? && s.properties == []) &&
    (s.items.Some? ==> Simple(s.items.value)) &&
    (s.additional.Additional? ==> Simple(s.additional.schema))
  }

  /** A value of type t that the Go type for c cannot take. */
  function Misfit(c: JsonType, t: JsonType): Json {
    match t
    case NullType => JNull
    case StringType => JString("")
    case BooleanType => JBool(true)
    case IntegerType => JInteger(0)
    case NumberType => JFraction
    case ArrayType => JArray([])
    case ObjectType => JObject([])
    case OtherType => if c == StringType then JBool(true) else JString("")
  }

  lemma OtherTypeFails(naming: Naming, b: Schema, refs: Referred, named: NamedTypes) returns (v: Json)
    requires Simple(b) && b.ref == "" && b.enum == [] && ConcreteType(b.types) != OtherType && !OneType(b.types)
    requires ConcreteType(b.types) == ObjectType ==> !b.additional.NoAdditional?
    ensures Admits(b, v, refs) && Keyed(naming, b, v, refs) && !v.JNull?
    ensures ConcreteType(b.types) == ArrayType ==> !v.JArray?
    ensures ConcreteType(b.types) == ObjectType ==> !v.JObject?
    ensures InnerOf(b).None? && !IsObject(b) ==> !Decodes(named, Known(b), v)
  {
    var t :| t in b.types && !Fits(ConcreteType(b.types), t);
    FirstTypeIsDeclared(b.types);
    v := Misfit(ConcreteType(b.types), t);
    assert HasType(v, t);
  }

  /** An array or map of a value that its elements' type cannot take. */
  function Wrapped(wrapper: Wrapper, part: Json): Json {
    if wrapper.AsSlice? then JArray([part]) else JObject([Member("", part)])
  }

  lemma WrappedIsNotTaken(typ: GoType, wrapper: Wrapper, part: Json, named: NamedTypes)
    requires !wrapper.Itself? && !Decodes(named, typ, part)
    ensures !Decodes(named, Wrap(typ, wrapper), Wrapped(wrapper, part))
  {
    var v := Wrapped(wrapper, part);
    if wrapper.AsSlice? {
      assert v.elems[0] == part;
    } else {
      assert v.members[0].value == part;
    }
  }

  lemma WrappedFails(naming: Naming, b: Schema, typ: GoType, part: Json, refs: Referred, named: NamedTypes)
    requires Simple(b) && InnerOf(b).Some? && OneType(b.types) && !Decodes(named, typ, part)
    requires Admits(InnerOf(b).value.part, part, refs) && Keyed(naming, InnerOf(b).value.part, part, refs)
    ensures var v := Wrapped(InnerOf(b).value.wrapper, part);
      Admits(b, v, refs) && Keyed(naming, b, v, refs) && !Decodes(named, Wrap(typ, InnerOf(b).value.wrapper), v)
  {
    FirstTypeIsDeclared(b.types);
    WrappedIsNotTaken(typ, InnerOf(b).value.wrapper, part, named);
    assert HasType(Wrapped(InnerOf(b).value.wrapper, part), ConcreteType(b.types));
  }

  lemma {:induction false} InnerFails(naming: Naming, b: Schema, name: string, refs: Referred, named: NamedTypes)
    returns (v: Json)
    requires Simple(b) && InnerOf(b).Some? && !(InnerFits(b) && WellTyped(InnerOf(b).value.part))
    ensures Admits(b, v, refs) && Keyed(naming, b, v, refs)
    ensures !Decodes(named, Wrap(GoTypeOf(InnerOf(b).value.part, name).typ, InnerOf(b).value.wrapper), v)
    decreases b, 0
  {
    if OneType(b.types) {
      var part := SomeValueFails(naming, InnerOf(b).value.part, name, refs, named);
      WrappedFails(naming, b, GoTypeOf(InnerOf(b).value.part, name).typ, part, refs, named);
      v := Wrapped(InnerOf(b).value.wrapper, part);
    } else {
      v := OtherTypeFails(naming, b, refs, named);
    }
  }

  /** Where the check fails there is a value that the schema admits and the type cannot take. */
  lemma {:induction false} SomeValueFails(naming: Naming, s: Schema, name: string, refs: Referred, named: NamedTypes)
    returns (v: Json)
    requires Simple(s) && !WellTyped(s)
    ensures Admits(s, v, refs) && Keyed(naming, s, v, refs) && !Decodes(named, GoTypeOf(s, name).typ, v)
    decreases s, 1
  {
    assert Base(s) == s;
    if InnerOf(s).Some? {
      v := InnerFails(naming, s, name, refs, named);
    } else if s.enum != [] {
      v :| v in s.enum && Possible(s.types, v) && !v.JString? && !v.JNull?;
    } else {
      v := OtherTypeFails(naming, s, refs, named);
    }
  }

  /** The type of a schema decodes every value it admits. */
  ghost predicate Takes(naming: Naming, s: Schema, name: string, refs: Referred, named: NamedTypes) {
    forall v :: Admits(s, v, refs) && Keyed(naming, s, v, refs) ==> Decodes(named, GoTypeOf(s, name).typ, v)
  }

  /**
    Without combinators the check is exact: goType is sound for a schema if and only if it passes.
    An enum of numbers fails, and so does a second type that the first one does not take in.
   */
  lemma GoTypeIsSoundExactly(naming: Naming, s: Schema, name: string, refs: Referred, named: NamedTypes)
    requires Simple(s) && NamesDecode(naming, named, refs, GoTypeOf(s, name).inline)
    ensures Takes(naming, s, name, refs, named) <==> WellTyped(s)
  {
    if WellTyped(s) {
      forall v | Admits(s, v, refs) && Keyed(naming, s, v, refs)
        ensures Decodes(named, GoTypeOf(s, name).typ, v)
      {
        GoTypeIsSound(naming, s, name, v, refs, named);
      }
    } else {
      var v := SomeValueFails(naming, s, name, refs, named);
    }
  }

  /** Two schemas outside it: an enum of a number, and a second type. */
  lemma OutsideTheSubset(name: string, refs: Referred, named: NamedTypes)
    ensures var s := PERMISSIVE.(enum := [JInteger(1)]);
      Admits(s, JInteger(1), refs) && !Decodes(named, GoTypeOf(s, name).typ, JInteger(1))
    ensures var s := PERMISSIVE.(types := [StringType, IntegerType]);
      Admits(s, JInteger(1), refs) && !Decodes(named, GoTypeOf(s, name).typ, JInteger(1))
  {
    var two := PERMISSIVE.(types := [StringType, IntegerType]);
    assert two.types[1] == IntegerType && HasType(JInteger(1), IntegerType);
  }

  // ---------- structs are sound ----------

  /** Every member that meets a field decodes into that field's type. */
  predicate FieldsDecode(named: NamedTypes, fields: seq<Field>, members: seq<Member>) {
    forall m {:trigger Meets(Keys(fields), m.name)} :: m in members && Meets(Keys(fields), m.name).Some? ==>
      Decodes(named, fields[Meets(Keys(fields), m.name).value].typ, m.value)
  }

  /** The named types decode what the definitions and the unnamed objects on a list admit. */
  ghost predicate NamedDecode(naming: Naming, named: NamedTypes, refs: Referred, inlines: seq<Inline>) {
    (forall ref, w :: refs(ref, w) ==> named(RefName(ref), w)) &&
    (forall it, w :: it in inlines && FitsObject(naming, it.schema, w, refs) ==> named(it.name, w))
  }

  /** One field, of a property in a known place. */
  lemma PropertyIsSound(naming: Naming, p: Property, name: string, v: Json, refs: Referred, named: NamedTypes,
                        inlines: seq<Inline>)
    requires WellTyped(p.schema) && Admits(p.schema, v, refs) && Keyed(naming, p.schema, v, refs)
    requires NamedDecode(naming, named, refs, inlines) && forall it :: it in InlineOf(p, name) ==> it in inlines
    ensures Decodes(named, GoTypeOf(p.schema, name).typ, v)
  {
    var t := GoTypeOf(p.schema, name);
    if t.inline.Some? {
      InlineIsNamed(p.schema, name);
      assert t.inline.value in InlineOf(p, name);
    }
    GoTypeIsSound(naming, p.schema, name, v, refs, named);
  }

  lemma {:induction false} ShownAlike(ps: seq<Property>, a: Placing, b: Placing)
    requires forall json :: a(json).Some? <==> b(json).Some?
    ensures Shown(ps, a) == Shown(ps, b)
  {
    if ps != [] {
      ShownAlike(ps[..|ps| - 1], a, b);
    }
  }

  /** The field a member meets is that of the property it meets. */
  lemma FieldOfMet(naming: Naming, owner: string, ps: seq<Property>, required: set<string>, name: string)
    returns (p: Property)
    requires Meets(Keys(FieldsOf(ps, Under(naming, owner), required)), name).Some?
    ensures p in ps && Under(naming, owner)(p.name).Some? && Met(AnyPlace(naming), ps, p, name)
    ensures var fields := FieldsOf(ps, Under(naming, owner), required);
      fields[Meets(Keys(fields), name).value] == FieldOf(p, Under(naming, owner)(p.name).value, required)
  {
    var place := Under(naming, owner);
    var fields := FieldsOf(ps, place, required);
    FieldsAreShown(ps, place, required);
    ShownAlike(ps, place, AnyPlace(naming));
    assert Keys(fields) == PropertyKeys(Shown(ps, place));
    p := Shown(ps, place)[Meets(Keys(fields), name).value];
  }

  lemma {:induction false} InlinesOfHas(ps: seq<Property>, p: Property, place: Placing)
    requires p in ps && place(p.name).Some?
    ensures forall it :: it in InlineOf(p, place(p.name).value) ==> it in InlinesOf(ps, place)
  {
    if p in ps[..|ps| - 1] {
      InlinesOfHas(ps[..|ps| - 1], p, place);
    }
  }

  /** One member, decoded as the property it meets. */
  lemma MemberIsSound(naming: Naming, owner: string, ps: seq<Property>, p: Property, v: Json, refs: Referred,
                      named: NamedTypes, inlines: seq<Inline>)
    requires p in ps && Under(naming, owner)(p.name).Some? && WellTyped(p.schema)
    requires Admits(p.schema, v, refs) && Keyed(naming, p.schema, v, refs)
    requires NamedDecode(naming, named, refs, inlines)
    requires forall it :: it in InlinesOf(ps, Under(naming, owner)) ==> it in inlines
    ensures Decodes(named, GoTypeOf(p.schema, Under(naming, owner)(p.name).value).typ, v)
  {
    InlinesOfHas(ps, p, Under(naming, owner));
    PropertyIsSound(naming, p, Under(naming, owner)(p.name).value, v, refs, named, inlines);
  }

  /** renderStruct is sound: an object whose members are admitted by the properties they meet decodes field by field. */
  lemma StructIsSound(naming: Naming, owner: string, ps: seq<Property>, required: set<string>, members: seq<Member>,
                      refs: Referred, named: NamedTypes, inlines: seq<Inline>)
    requires KeyedMembers(naming, ps, members, refs) && forall p :: p in ps && naming(p.name) != "" ==> WellTyped(p.schema)
    requires NamedDecode(naming, named, refs, inlines)
    requires forall it :: it in InlinesOf(ps, Under(naming, owner)) ==> it in inlines
    ensures FieldsDecode(named, FieldsOf(ps, Under(naming, owner), required), members)
  {
    var fields := FieldsOf(ps, Under(naming, owner), required);
    forall m | m in members && Meets(Keys(fields), m.name).Some?
      ensures Decodes(named, fields[Meets(Keys(fields), m.name).value].typ, m.value)
    {
      var p := FieldOfMet(naming, owner, ps, required, m.name);
      MemberIsSound(naming, owner, ps, p, m.value, refs, named, inlines);
    }
  }

  ghost predicate PropertiesAdmit(ps: seq<Property>, members: seq<Member>, refs: Referred) {
    forall p, m :: p in ps && m in members && m.name == p.name ==> Admits(p.schema, m.value, refs)
  }

  /** Members that are decoded into a field they are not named as decode. */
  predicate VariantsDecode(named: NamedTypes, fields: seq<Field>, members: seq<Member>) {
    forall m {:trigger Meets(Keys(fields), m.name)} :: m in members && Meets(Keys(fields), m.name).Some? ==>
      var f := fields[Meets(Keys(fields), m.name).value];
      f.json != m.name ==> Decodes(named, f.typ, m.value)
  }

  ghost predicate OwnMembersKeyed(naming: Naming, ps: seq<Property>, members: seq<Member>, refs: Referred) {
    forall p, m :: p in ps && m in members && m.name == p.name ==> Keyed(naming, p.schema, m.value, refs)
  }

  /**
    So an object that a schema admits decodes exactly when no member is a case variant of a field it is
    not named as, or that field's type takes its value.
   */
  lemma StructDecodesExactly(naming: Naming, owner: string, ps: seq<Property>, required: set<string>, members: seq<Member>,
                             refs: Referred, named: NamedTypes, inlines: seq<Inline>)
    requires PropertiesAdmit(ps, members, refs) && OwnMembersKeyed(naming, ps, members, refs)
    requires forall p :: p in ps && naming(p.name) != "" ==> WellTyped(p.schema)
    requires NamedDecode(naming, named, refs, inlines)
    requires forall it :: it in InlinesOf(ps, Under(naming, owner)) ==> it in inlines
    ensures var fields := FieldsOf(ps, Under(naming, owner), required);
      FieldsDecode(named, fields, members) <==> VariantsDecode(named, fields, members)
  {
    var fields := FieldsOf(ps, Under(naming, owner), required);
    forall m | m in members && Meets(Keys(fields), m.name).Some? && fields[Meets(Keys(fields), m.name).value].json == m.name
      ensures Decodes(named, fields[Meets(Keys(fields), m.name).value].typ, m.value)
    {
      var p := FieldOfMet(naming, owner, ps, required, m.name);
      MemberIsSound(naming, owner, ps, p, m.value, refs, named, inlines);
    }
  }

  /** An admitted object that a struct cannot decode, since "X" meets the field of key "x". */
  lemma CaseVariantFails(naming: Naming, owner: string, refs: Referred, named: NamedTypes)
    requires naming("x") != ""
    ensures var s := PERMISSIVE.(types := [ObjectType], properties := [Property("x", PERMISSIVE.(types := [StringType]))]);
      var members := [Member("X", JInteger(1))];
      Admits(s, JObject(members), refs) &&
      !FieldsDecode(named, FieldsOf(s.properties, Under(naming, owner), s.required), members)
  {
    var p := Property("x", PERMISSIVE.(types := [StringType]));
    var s := PERMISSIVE.(types := [ObjectType], properties := [p]);
    assert s.types[0] == ObjectType && HasType(JObject([Member("X", JInteger(1))]), ObjectType);
    OneFieldOf(p, Under(naming, owner), s.required);
    VariantOfOne(FieldOf(p, PlaceName(naming, owner, "x"), s.required), Member("X", JInteger(1)), named);
  }

  lemma OneFieldOf(p: Property, place: Placing, required: set<string>)
    requires place(p.name).Some?
    ensures FieldsOf([p], place, required) == [FieldOf(p, place(p.name).value, required)]
  {
    assert [p][..0] == [];
    assert FieldsOf([p][..0], place, required) == [];
  }

  lemma VariantOfOne(f: Field, m: Member, named: NamedTypes)
    requires f.json == "x" && m.name == "X" && !Decodes(named, f.typ, m.value)
    ensures !FieldsDecode(named, [f], [m])
  {
    assert Keys([f]) == ["x"] && ["x"][..0] == [] && EqualFold("x", "X");
    assert FoldedKey(["x"][..0], "X") == None;
    assert Meets(Keys([f]), m.name) == Some(0) && m in [m];
  }

  // ---------- widening is sound ----------

  predicate HasKind(v: Json, k: Kind) {
    v.JNull? ||
    match k
    case KString => v.JString?
    case KInteger => v.JInteger?
    case KNumber => v.JInteger? || v.JFraction?
    case KBoolean => v.JBool?
    case NoKind => true
  }

  /** The kind of a named type is the kind of everything it decodes. */
  ghost predicate KindSound(kind: GoType -> Kind, named: NamedTypes) {
    forall n, w :: named(n, w) ==> HasKind(w, kind(Named(n)))
  }

  lemma TypeHasKind(kind: GoType -> Kind, named: NamedTypes, t: GoType, v: Json)
    requires Sane(kind) && KindSound(kind, named) && Decodes(named, t, v)
    ensures HasKind(v, kind(t))
  {
  }

  /** What either arm's type decodes, their merged type decodes. */
  lemma MergeIsUpperBound(kind: GoType -> Kind, named: NamedTypes, a: GoType, b: GoType, v: Json)
    requires Sane(kind) && KindSound(kind, named)
    ensures Decodes(named, a, v) || Decodes(named, b, v) ==> Decodes(named, Merge(kind, a, b), v)
  {
    if Decodes(named, a, v) {
      TypeHasKind(kind, named, a, v);
    }
    if Decodes(named, b, v) {
      TypeHasKind(kind, named, b, v);
    }
  }

  /** A field's joined type decodes what its type in any arm decodes. */
  lemma {:induction false} FoldIsUpperBound(kind: GoType -> Kind, named: NamedTypes, types: seq<GoType>, t: GoType,
                                        v: Json)
    requires Sane(kind) && KindSound(kind, named) && t in types && Decodes(named, t, v)
    ensures Decodes(named, FoldTypes(kind, types), v)
  {
    if |types| > 1 {
      var front, last := types[..|types| - 1], types[|types| - 1];
      if t in front {
        FoldIsUpperBound(kind, named, front, t, v);
      }
      MergeIsUpperBound(kind, named, FoldTypes(kind, front), last, v);
    }
  }

  lemma {:induction false} TypesOfHas(ps: seq<Property>, p: Property, name: string)
    requires p in ps
    ensures GoTypeOf(p.schema, name).typ in TypesOf(ps, p.name, name)
  {
    if p in ps[..|ps| - 1] {
      TypesOfHas(ps[..|ps| - 1], p, name);
    }
  }

  /** A field of the flattened struct takes what its property's type takes in any arm. */
  lemma UnionFieldTakes(kind: GoType -> Kind, ps: seq<Property>, place: Placing, fields: seq<Field>, p: Property, v: Json,
                        named: NamedTypes, i: nat)
    requires Sane(kind) && KindSound(kind, named) && FlattensTo(kind, ps, place, fields)
    requires p in ps && place(p.name).Some? && Decodes(named, GoTypeOf(p.schema, place(p.name).value).typ, v)
    requires i < |fields| && fields[i].json == p.name
    ensures Decodes(named, fields[i].typ, v)
  {
    var name := place(p.name).value;
    TypesOfHas(ps, p, name);
    FoldIsUpperBound(kind, named, TypesOf(ps, p.name, name), GoTypeOf(p.schema, name).typ, v);
  }

  lemma {:induction false} FlatHas(arms: seq<Schema>, tag: string, arm: Schema, p: Property)
    requires arm in arms && p in arm.properties && p.name != tag
    ensures p in Flat(arms, tag)
  {
    if arm in arms[..|arms| - 1] {
      FlatHas(arms[..|arms| - 1], tag, arm, p);
    } else {
      OthersHas(arm.properties, tag, p);
    }
  }

  lemma {:induction false} OthersHas(ps: seq<Property>, tag: string, p: Property)
    requires p in ps && p.name != tag
    ensures p in Others(ps, tag)
  {
    if p in ps[..|ps| - 1] {
      OthersHas(ps[..|ps| - 1], tag, p);
    }
  }

  lemma MemberAdmitted(arm: Schema, members: seq<Member>, p: Property, m: Member, refs: Referred)
    requires arm.ref == "" && Admits(arm, JObject(members), refs)
    requires p in arm.properties && m in members && m.name == p.name
    ensures Admits(p.schema, m.value, refs)
  {
    var v := JObject(members);
    assert v.members == members;
  }

  // ---------- jsonKind is sound ----------

  /** Nothing but the reference itself decides. */
  predicate Alone(s: Schema) {
    s.types == [] && s.enum == [] && s.properties == [] && s.oneOf == [] && s.anyOf == [] && s.allOf == []
  }

  /** One type besides null, and nothing beside a reference. */
  predicate OfOneKind(s: Schema) {
    (s.ref != "" ==> Alone(s)) && OneType(s.types) && (EnumUnion(s) ==> TextUnion(s))
  }

  /** A definition whose values have one kind each look can tell. */
  predicate KindTyped(def: Schema) {
    StripFits(def) && OfOneKind(def) && OfOneKind(Base(def))
  }

  /** A reference admits what the definition that its name leads to admits, and leads to one. */
  ghost predicate Interprets(defs: map<string, Schema>, pick: Pick, refs: Referred)
    requires Picks(defs, pick)
  {
    forall ref, w :: refs(ref, w) ==> pick(RefName(ref)).Some? && Admits(defs[pick(RefName(ref)).value], w, refs)
  }

  /** What a name can stand for: a definition's values, if it is a definition's name. */
  ghost predicate MeantBy(defs: map<string, Schema>, pick: Pick, refs: Referred, name: string, w: Json)
    requires Picks(defs, pick)
  {
    pick(name).Some? ==> Admits(defs[pick(name).value], w, refs)
  }

  function KindFor(t: JsonType): Kind {
    match t
    case StringType => KString
    case IntegerType => KInteger
    case NumberType => KNumber
    case BooleanType => KBoolean
    case _ => NoKind
  }

  lemma {:induction false} NoScalars(types: seq<JsonType>)
    requires forall t :: t in types ==> KindFor(t) == NoKind
    ensures FirstScalar(types) == NoKind
  {
    if types != [] {
      assert types[0] in types;
      NoScalars(types[1..]);
    }
  }

  lemma {:induction false} FirstScalarIsKind(types: seq<JsonType>)
    requires OneType(types)
    ensures FirstScalar(types) == KindFor(ConcreteType(types))
  {
    if types != [] {
      assert types[0] in types;
      if types[0] == NullType {
        assert OneType(types[1..]);
        FirstScalarIsKind(types[1..]);
      } else if KindFor(types[0]) == NoKind {
        NoScalars(types);
      }
    }
  }

  /** A kind that one look settles is the kind of every value the definition admits. */
  lemma SettledKindIsSound(def: Schema, w: Json, refs: Referred)
    requires KindTyped(def) && Admits(def, w, refs) && LookAt(def).Settled?
    ensures HasKind(w, LookAt(def).end)
  {
    if !w.JNull? {
      BaseAdmits(def, w, refs);
      if IsStringEnum(def) {
        if def.types != [] {
          HasFirstType(def.types, w);
        }
      } else if EnumUnion(def) {
        EnumUnionAdmits(def, w, refs);
      } else if FirstScalar(Base(def).types) != NoKind {
        FirstScalarIsKind(Base(def).types);
        HasFirstType(Base(def).types, w);
      }
    }
  }

  /** Where one look leads on, the next name stands for the same value. */
  lemma NextNameMeansTheSame(defs: map<string, Schema>, pick: Pick, refs: Referred, def: Schema, w: Json)
    requires Picks(defs, pick) && Interprets(defs, pick, refs) && pick("").None?
    requires KindTyped(def) && Admits(def, w, refs) && LookAt(def).Next? && !w.JNull?
    ensures MeantBy(defs, pick, refs, LookAt(def).name, w)
  {
    BaseAdmits(def, w, refs);
    WrapperAdmits(Base(def), w, refs);
  }

  /** A look at a name that means w settles w's kind or leads to another name that means w. */
  ghost predicate Guides(look: string -> Look<Kind>, means: string -> bool, w: Json) {
    forall n :: means(n) ==>
      if look(n).Settled? then HasKind(w, look(n).end) else means(look(n).name)
  }

  lemma {:induction false} SettlesWithinIsSound(look: string -> Look<Kind>, means: string -> bool, w: Json, name: string,
                                        steps: nat)
    requires Guides(look, means, w) && means(name) && SettlesWithin(look, name, steps).Some?
    ensures HasKind(w, SettlesWithin(look, name, steps).value)
    decreases steps
  {
    if look(name).Next? {
      SettlesWithinIsSound(look, means, w, look(name).name, steps - 1);
    }
  }

  lemma LookGuides(defs: map<string, Schema>, pick: Pick, refs: Referred, n: string, w: Json)
    requires Picks(defs, pick) && Interprets(defs, pick, refs) && pick("").None? && !w.JNull?
    requires forall d :: d in defs ==> KindTyped(defs[d])
    requires MeantBy(defs, pick, refs, n, w)
    ensures var seen := LookUp(defs, pick)(n);
      if seen.Settled? then HasKind(w, seen.end) else MeantBy(defs, pick, refs, seen.name, w)
  {
    var d := pick(n);
    if d.Some? {
      if LookAt(defs[d.value]).Settled? {
        SettledKindIsSound(defs[d.value], w, refs);
      } else {
        NextNameMeansTheSame(defs, pick, refs, defs[d.value], w);
      }
    }
  }

  ghost function Meanings(defs: map<string, Schema>, pick: Pick, refs: Referred, w: Json): (means: string -> bool)
    requires Picks(defs, pick)
    ensures forall n :: means(n) <==> MeantBy(defs, pick, refs, n, w)
  {
    (n: string) => MeantBy(defs, pick, refs, n, w)
  }

  lemma LookUpGuides(defs: map<string, Schema>, pick: Pick, refs: Referred, w: Json)
    requires Picks(defs, pick) && Interprets(defs, pick, refs) && pick("").None? && !w.JNull?
    requires forall d :: d in defs ==> KindTyped(defs[d])
    ensures Guides(LookUp(defs, pick), Meanings(defs, pick, refs, w), w)
  {
    var look, means := LookUp(defs, pick), Meanings(defs, pick, refs, w);
    forall n | means(n)
      ensures if look(n).Settled? then HasKind(w, look(n).end) else means(look(n).name)
    {
      LookGuides(defs, pick, refs, n, w);
    }
  }

  lemma SettlesAtIsSound(look: string -> Look<Kind>, names: set<string>, means: string -> bool, n: string, w: Json)
    requires Leads(look, names) && Guides(look, means, w) && means(n) && SettlesAt(look, names, n, {}).Some?
    ensures HasKind(w, SettlesAt(look, names, n, {}).value)
  {
    var steps := SettledWithinSteps(look, names, n, {});
    SettlesWithinIsSound(look, means, w, n, steps);
  }

  lemma NameKindIsSound(defs: map<string, Schema>, pick: Pick, refs: Referred, n: string, w: Json)
    requires Picks(defs, pick) && Interprets(defs, pick, refs) && pick("").None?
    requires forall d :: d in defs ==> KindTyped(defs[d])
    requires MeantBy(defs, pick, refs, n, w)
    ensures HasKind(w, NameKind(defs, pick, n))
  {
    if !w.JNull? && SettlesAt(LookUp(defs, pick), Exports(defs), n, {}).Some? {
      LookUpGuides(defs, pick, refs, w);
      SettlesAtIsSound(LookUp(defs, pick), Exports(defs), Meanings(defs, pick, refs, w), n, w);
    }
  }

  /** A named type decodes nothing but what its name stands for. */
  ghost predicate NamesMean(defs: map<string, Schema>, pick: Pick, refs: Referred, named: NamedTypes)
    requires Picks(defs, pick)
  {
    forall n, w :: named(n, w) ==> MeantBy(defs, pick, refs, n, w)
  }

  /** jsonKind is sound: the kind it resolves a name to is the kind of every value of that name. */
  lemma JsonKindIsSound(defs: map<string, Schema>, pick: Pick, refs: Referred, named: NamedTypes)
    requires Picks(defs, pick) && Interprets(defs, pick, refs) && pick("").None?
    requires forall d :: d in defs ==> KindTyped(defs[d])
    requires NamesMean(defs, pick, refs, named)
    ensures KindSound(JsonKind(defs, pick), named)
  {
    forall n, w | named(n, w)
      ensures HasKind(w, JsonKind(defs, pick)(Named(n)))
    {
      assert MeantBy(defs, pick, refs, n, w);
      NameKindIsSound(defs, pick, refs, n, w);
      assert JsonKind(defs, pick)(Named(n)) == NameKind(defs, pick, n);
    }
  }
}
