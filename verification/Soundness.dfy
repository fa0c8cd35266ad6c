/** What a definition admits, its declaration decodes; what a type defined as another one keeps of it. */
module Soundness {
  import opened Options
  import opened Schemas
  import opened GoTypes
  import opened Widening
  import opened Declarations
  import opened ProtocolTypes
  import opened Decoding
  import opened TaggedUnions

  /** A string of an enum type has a constant; a struct is decoded member by member. */
  predicate OwnDecodes(named: NamedTypes, d: Decl, v: Json) {
    match d
    case Enum(_, constants) => ConstantOf(constants, v)
    case Alias(_, target) => Decodes(named, target, v)
    case Defined(_, target) => Decodes(named, target, v)
    case Struct(_, fields) => v.JObject? && FieldsDecode(named, fields, v.members)
  }

  // ---------- bytes ----------

  function WithoutBreaks(s: string): string {
    if s == "" then ""
    else if s[0] == '\r' || s[0] == '\n' then WithoutBreaks(s[1..])
    else [s[0]] + WithoutBreaks(s[1..])
  }

  /** Standard base64 with padding, line breaks aside. */
  predicate Base64(s: string) {
    var t := WithoutBreaks(s);
    |t| % 4 == 0 &&
    forall i :: 0 <= i < |t| ==>
      if t[i] == '=' then i == |t| - 1 || (i == |t| - 2 && t[i + 1] == '=') else Alnum(t[i]) || t[i] == '+' || t[i] == '/'
  }

  /** What []byte decodes: base64 text, or numbers that fit a byte; null leaves any target as it is. */
  predicate BytesTake(v: Json) {
    match v
    case JNull => true
    case JString(text) => Base64(text)
    case JArray(elems) => forall e :: e in elems ==> e.JNull? || (e.JInteger? && 0 <= e.whole < 256)
    case _ => false
  }

  // ---------- types defined as other types ----------

  /** A type whose target is another declared type. */
  predicate IsReference(d: Decl) {
    d.Defined? && d.target.Named?
  }

  /** A type defined as this one has its underlying type without its methods: raw JSON is then just bytes. */
  predicate BareDecodes(named: NamedTypes, d: Decl, v: Json) {
    if d.Alias? then BytesTake(v) else OwnDecodes(named, d, v)
  }

  /** Following targets from a name, so many of them, ends in a declaration. */
  ghost predicate EndsIn(out: seq<Decl>, name: string, e: Decl, steps: nat)
    decreases steps
  {
    exists d :: d in out && d.name == name &&
      if IsReference(d) then steps > 0 && EndsIn(out, d.target.name, e, steps - 1) else d == e
  }

  ghost predicate TargetDecodes(out: seq<Decl>, named: NamedTypes, target: string, v: Json) {
    exists e, steps: nat :: EndsIn(out, target, e, steps) && BareDecodes(named, e, v)
  }

  /** What a declared type decodes: as it says itself, or as the end of its chain of targets without methods. */
  ghost predicate DeclDecodes(out: seq<Decl>, named: NamedTypes, d: Decl, v: Json) {
    v.JNull? || if IsReference(d) then TargetDecodes(out, named, d.target.name, v) else OwnDecodes(named, d, v)
  }

  // ---------- enums ----------

  lemma {:induction false} TextsHas(literals: seq<Json>, l: Json)
    requires l in literals && l.JString?
    ensures l.text in Texts(literals)
  {
    if l in literals[..|literals| - 1] {
      TextsHas(literals[..|literals| - 1], l);
    }
  }

  lemma {:induction false} AddNewHas(values: seq<string>, more: seq<string>, v: string)
    requires v in values || v in more
    ensures v in AddNew(values, more)
  {
    if more != [] && (v in values || v in more[..|more| - 1]) {
      AddNewHas(values, more[..|more| - 1], v);
    }
  }

  lemma {:induction false} ArmTextsHas(arms: seq<Schema>, arm: Schema, l: Json)
    requires arm in arms && l in arm.enum && l.JString?
    ensures l.text in ArmTexts(arms)
  {
    var last := arms[|arms| - 1];
    if arm in arms[..|arms| - 1] {
      ArmTextsHas(arms[..|arms| - 1], arm, l);
    } else {
      TextsHas(last.enum, l);
    }
    AddNewHas(ArmTexts(arms[..|arms| - 1]), Texts(last.enum), l.text);
  }

  /** A string enum has a constant for every value it admits. */
  lemma EnumIsSound(naming: Naming, s: Schema, constants: seq<(string, string)>, name: string, v: Json, refs: Referred)
    requires s.ref == "" && s.enum != [] && TextOnly(s.types, s.enum) && Admits(s, v, refs)
    requires Constants(naming, constants, name, Texts(s.enum))
    ensures ConstantOf(constants, v)
  {
    assert v in s.enum;
    if !v.JNull? {
      TextsHas(s.enum, v);
      ConstantFor(naming, constants, name, Texts(s.enum), v.text);
    }
  }

  lemma SomeArm(s: Schema, v: Json, refs: Referred) returns (arm: Schema)
    requires s.ref == "" && EnumUnion(s) && TextUnion(s) && Admits(s, v, refs)
    ensures arm in Arms(s) && v in arm.enum && (v.JString? || v.JNull?)
  {
    arm :| arm in Arms(s) && Admits(arm, v, refs);
  }

  /** So has an enum union. */
  lemma EnumUnionIsSound(naming: Naming, s: Schema, constants: seq<(string, string)>, name: string, v: Json,
                         refs: Referred)
    requires s.ref == "" && EnumUnion(s) && TextUnion(s) && Admits(s, v, refs)
    requires Constants(naming, constants, name, ArmTexts(Arms(s)))
    ensures ConstantOf(constants, v)
  {
    var arm := SomeArm(s, v, refs);
    if !v.JNull? {
      ArmTextsHas(Arms(s), arm, v);
      ConstantFor(naming, constants, name, ArmTexts(Arms(s)), v.text);
    }
  }

  // ---------- one definition ----------

  predicate OnlyObjects(types: seq<JsonType>) {
    types != [] && forall t :: t in types ==> t == NullType || t == ObjectType
  }

  lemma ObjectOrNull(types: seq<JsonType>, v: Json)
    requires OnlyObjects(types) && Possible(types, v)
    ensures v.JObject? || v.JNull?
  {
    var t :| t in types && HasType(v, t);
  }

  /** A check on a schema that becomes a struct. */
  predicate StructFits(s: Schema) {
    s.ref == "" && OnlyObjects(s.types) && forall p :: p in s.properties ==> WellTyped(p.schema)
  }

  /** A check on a definition, by the case that its rendering takes. */
  predicate DefinitionFits(s: Schema, tag: Option<string>) {
    if s.enum != [] && IsStringEnum(s) then s.ref == "" && TextOnly(s.types, s.enum)
    else if EnumUnion(s) then s.ref == "" && TextUnion(s)
    else if tag.Some? then
      ArmsFit(s, tag.value) && (OnlyObjects(s.types) || forall arm :: arm in s.oneOf ==> OnlyObjects(arm.types))
    else if s.properties != [] then StructFits(s)
    else WellTyped(s)
  }

  /** The last case: an alias, or a type defined as another. */
  predicate IsAliased(s: Schema) {
    !(s.enum != [] && IsStringEnum(s)) && !EnumUnion(s) && !IsFlattened(s) && s.properties == []
  }

  /** A definition that is a reference and nothing else, null and wrappers stripped. */
  predicate RefersOn(s: Schema) {
    IsAliased(s) && RefOf(s) != ""
  }

  /** A definition rendered as raw JSON. */
  predicate IsRawAlias(s: Schema) {
    IsAliased(s) && ComesToRaw(s)
  }

  lemma TaggedOrNot(s: Schema, tag: Option<string>)
    requires IsTagOf(s, tag) && !(s.enum != [] && IsStringEnum(s)) && !EnumUnion(s)
    ensures tag.Some? <==> IsFlattened(s)
  {
  }

  /**
    Which definitions become aliases, and which only point to another one: raw JSON the former, a
    reference or a wrapped object the latter.
   */
  lemma DeclaredAs(naming: Naming, kind: GoType -> Kind, d: Decl, name: string, s: Schema, tag: Option<string>)
    requires IsTagOf(s, tag) && Describes(naming, kind, d, name, s, tag)
    ensures d.Alias? <==> IsRawAlias(s)
    ensures RefersOn(s) ==> d == Defined(name, Named(RefName(RefOf(s))))
    ensures IsReference(d) && !RefersOn(s) ==>
      IsAliased(s) && GoTypeOf(s, PlaceName(naming, name, "")).inline.Some? &&
      d.target == GoTypeOf(s, PlaceName(naming, name, "")).typ
  {
    if IsAliased(s) {
      TaggedOrNot(s, tag);
      RefIsType(s, PlaceName(naming, name, ""));
      RawIsType(s, PlaceName(naming, name, ""));
    }
  }

  /** What a definition that only refers admits, the reference stands for. */
  lemma {:induction false} RefAdmits(s: Schema, v: Json, refs: Referred)
    requires WellTyped(s) && Admits(s, v, refs) && !v.JNull? && RefOf(s) != ""
    ensures refs(RefOf(s), v)
    decreases s
  {
    BaseAdmits(s, v, refs);
    if InnerOf(Base(s)).Some? {
      InnerAdmits(Base(s), v, refs);
      RefAdmits(InnerOf(Base(s)).value.part, v, refs);
    }
  }

  /** What a definition that only wraps an object admits, the object does. */
  lemma {:induction false} WrappedObjectAdmits(naming: Naming, s: Schema, name: string, v: Json, refs: Referred)
    requires WellTyped(s) && Admits(s, v, refs) && Keyed(naming, s, v, refs) && !v.JNull?
    requires GoTypeOf(s, name).typ.Named? && GoTypeOf(s, name).inline.Some?
    ensures FitsObject(naming, GoTypeOf(s, name).inline.value.schema, v, refs)
    decreases s
  {
    BaseAdmits(s, v, refs);
    if InnerOf(Base(s)).Some? {
      InnerAdmits(Base(s), v, refs);
      WrappedObjectAdmits(naming, InnerOf(Base(s)).value.part, name, v, refs);
    }
  }

  /**
    Admitted, with members that meet their own properties: an object of a tagged union has none that
    only other arms declare.
   */
  ghost predicate Suits(naming: Naming, s: Schema, v: Json, refs: Referred) {
    Admits(s, v, refs) &&
    if (s.enum != [] && IsStringEnum(s)) || EnumUnion(s) then true
    else if IsFlattened(s) then
      v.JObject? ==> forall tag :: IsTagOf(s, Some(tag)) ==> HasOwnArm(naming, s, tag, v.members, refs)
    else if s.properties != [] then v.JObject? ==> KeyedMembers(naming, s.properties, v.members, refs)
    else Keyed(naming, s, v, refs)
  }

  lemma UnionValue(s: Schema, tag: string, v: Json, refs: Referred)
    requires ArmsFit(s, tag) && s.oneOf != [] && Admits(s, v, refs)
    requires OnlyObjects(s.types) || forall arm :: arm in s.oneOf ==> OnlyObjects(arm.types)
    ensures v.JObject? || v.JNull?
  {
    var arm :| arm in s.oneOf && Admits(arm, v, refs);
    ObjectOrNull(if OnlyObjects(s.types) then s.types else arm.types, v);
  }

  lemma StructDecodes(naming: Naming, name: string, s: Schema, v: Json, refs: Referred, named: NamedTypes,
                      inlines: seq<Inline>)
    requires StructFits(s) && FitsObject(naming, s, v, refs) && NamedDecode(naming, named, refs, inlines)
    requires Listed(InlinesOf(s.properties, Under(naming, name)), inlines)
    ensures v.JNull? || OwnDecodes(named, Struct(name, FieldsOf(s.properties, Under(naming, name), s.required)), v)
  {
    ObjectOrNull(s.types, v);
    if !v.JNull? {
      StructIsSound(naming, name, s.properties, s.required, v.members, refs, named, inlines);
    }
  }

  /** `e` is the type of the tag, if there is one. */
  ghost predicate TagIsDeclared(naming: Naming, named: NamedTypes, e: Decl, name: string, s: Schema,
                                tag: Option<string>) {
    IsFlattened(s) && tag.Some? ==>
      TagEnum(naming, e, name, s, tag.value) && forall w :: ConstantOf(e.constants, w) ==> named(e.name, w)
  }

  /** An object of a tagged union. */
  lemma UnionDefinitionIsSound(naming: Naming, kind: GoType -> Kind, d: Decl, e: Decl, name: string, s: Schema,
                               tag: string, v: Json, refs: Referred, named: NamedTypes, inlines: seq<Inline>)
    requires Sane(kind) && KindSound(kind, named) && IsFlattened(s) && IsTagOf(s, Some(tag))
    requires FlatStruct(naming, kind, d, name, s, tag) && TagIsDeclared(naming, named, e, name, s, Some(tag))
    requires DefinitionFits(s, Some(tag)) && Suits(naming, s, v, refs)
    requires NamedDecode(naming, named, refs, inlines)
    requires Listed(InlinesOf(Flat(s.oneOf, tag), InUnion(naming, name)), inlines)
    ensures v.JNull? || OwnDecodes(named, d, v)
  {
    UnionValue(s, tag, v, refs);
    if !v.JNull? {
      assert Flattened(naming, kind, d, e, name, s, tag, refs, named, inlines);
      OwnMembersDecode(naming, kind, d, e, name, s, tag, v.members, refs, named, inlines);
    }
  }

  /** The value of an alias or of a type defined as another. */
  lemma AliasedIsSound(naming: Naming, d: Decl, name: string, s: Schema, v: Json, refs: Referred, named: NamedTypes,
                       inlines: seq<Inline>)
    requires var t := GoTypeOf(s, PlaceName(naming, name, "")); d == Declared(name, t.typ)
    requires WellTyped(s) && Admits(s, v, refs) && Keyed(naming, s, v, refs) && NamedDecode(naming, named, refs, inlines)
    requires Listed(InlineOf(Property("", s), PlaceName(naming, name, "")), inlines)
    ensures OwnDecodes(named, d, v)
  {
    PropertyIsSound(naming, Property("", s), PlaceName(naming, name, ""), v, refs, named, inlines);
  }

  /** What a declaration that points to another takes: what that stands for. */
  ghost predicate PointsTo(naming: Naming, d: Decl, name: string, s: Schema, v: Json, refs: Referred)
    requires IsReference(d)
  {
    if RefersOn(s) then refs(RefOf(s), v)
    else
      var t := GoTypeOf(s, PlaceName(naming, name, ""));
      t.inline.Some? && t.typ == d.target && FitsObject(naming, t.inline.value.schema, v, refs)
  }

  /**
    Whatever suits a definition, its declaration decodes: strings of an enum have a constant, members
    of an object or of one arm of a tagged union have a field that takes them, and an alias decodes
    as its target does. If the declaration points to another, the value suits what that stands for.
   */
  lemma DefinitionIsSound(naming: Naming, kind: GoType -> Kind, d: Decl, e: Decl, name: string, s: Schema,
                          tag: Option<string>, v: Json, refs: Referred, named: NamedTypes, inlines: seq<Inline>)
    requires Sane(kind) && KindSound(kind, named)
    requires IsTagOf(s, tag) && Describes(naming, kind, d, name, s, tag) && TagIsDeclared(naming, named, e, name, s, tag)
    requires DefinitionFits(s, tag) && Suits(naming, s, v, refs)
    requires NamedDecode(naming, named, refs, inlines) && Listed(Found(naming, name, s, tag), inlines)
    ensures v.JNull? || if IsReference(d) then PointsTo(naming, d, name, s, v, refs) else OwnDecodes(named, d, v)
  {
    DeclaredAs(naming, kind, d, name, s, tag);
    if s.enum != [] && IsStringEnum(s) {
      EnumIsSound(naming, s, d.constants, name, v, refs);
    } else if EnumUnion(s) {
      EnumUnionIsSound(naming, s, d.constants, name, v, refs);
    } else if tag.Some? {
      UnionDefinitionIsSound(naming, kind, d, e, name, s, tag.value, v, refs, named, inlines);
    } else if s.properties != [] {
      StructDecodes(naming, name, s, v, refs, named, inlines);
    } else if !v.JNull? {
      AliasedIsSound(naming, d, name, s, v, refs, named, inlines);
      if RefersOn(s) {
        RefAdmits(s, v, refs);
      } else if IsReference(d) {
        WrappedObjectAdmits(naming, s, PlaceName(naming, name, ""), v, refs);
      }
    }
  }
}
