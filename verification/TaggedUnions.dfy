/** What the flattened struct of a tagged union and the type of its tag decode. */
module TaggedUnions {
  import Names
  import opened Options
  import opened Schemas
  import opened GoTypes
  import opened Widening
  import opened Declarations
  import opened ProtocolTypes
  import opened Decoding

  /** A string that has a constant, or null. */
  predicate ConstantOf(constants: seq<(string, string)>, v: Json) {
    v.JNull? || (v.JString? && exists c :: c in constants && c.1 == v.text)
  }

  lemma ConstantFor(naming: Naming, constants: seq<(string, string)>, prefix: string, values: seq<string>, v: string)
    requires Constants(naming, constants, prefix, values) && v in values
    ensures ConstantOf(constants, JString(v))
  {
    var i :| 0 <= i < |values| && values[i] == v;
    assert constants[i] in constants;
  }

  lemma ConstantIsValue(naming: Naming, constants: seq<(string, string)>, prefix: string, values: seq<string>, v: Json)
    requires Constants(naming, constants, prefix, values) && ConstantOf(constants, v) && !v.JNull?
    ensures v.JString? && v.text in values
  {
    var c :| c in constants && c.1 == v.text;
    var i :| 0 <= i < |constants| && constants[i] == c;
    assert values[i] == v.text;
  }

  // ---------- the tag ----------

  /** A check on a tag's schema: what the types leave of its enum is strings or null. */
  predicate TagFits(p: Schema) {
    p.ref == "" && p.enum != [] && TextOnly(p.types, p.enum)
  }

  predicate TagsFit(s: Schema, tag: string) {
    forall arm, p :: arm in s.oneOf && p in arm.properties && p.name == tag ==> TagFits(p.schema)
  }

  /** A value that the tag's schema admits in some arm has a constant. */
  lemma TagIsSound(naming: Naming, e: Decl, name: string, s: Schema, tag: string, arm: Schema, p: Property, v: Json,
                   refs: Referred)
    requires TagEnum(naming, e, name, s, tag) && TagsFit(s, tag)
    requires arm in s.oneOf && p in arm.properties && p.name == tag && Admits(p.schema, v, refs)
    ensures ConstantOf(e.constants, v)
  {
    assert v in p.schema.enum;
    if !v.JNull? {
      var values :| Names.Increasing(values) && Names.Elements(values) == TagValues(s.oneOf, tag) &&
                    Constants(naming, e.constants, e.name, values);
      assert v.text in TagValues(s.oneOf, tag);
      ConstantFor(naming, e.constants, e.name, values, v.text);
    }
  }

  /** In a map no key occurs twice. */
  predicate KeysDistinct(ps: seq<Property>) {
    forall i, j :: 0 <= i < j < |ps| ==> ps[i].name != ps[j].name
  }

  /** An object schema that leaves everything but its properties open. */
  predicate PlainObject(s: Schema) {
    s.ref == "" && s.enum == [] && s.oneOf == [] && s.anyOf == [] && s.allOf == [] &&
    Possible(s.types, JObject([])) && KeysDistinct(s.properties)
  }

  /** A union of such objects, each with a plain enum for its tag. */
  predicate PlainUnion(s: Schema, tag: string) {
    PlainObject(s.(oneOf := [])) && s.properties == [] && !s.additional.Additional? &&
    forall arm :: arm in s.oneOf ==>
      PlainObject(arm) && forall p :: p in arm.properties && p.name == tag ==>
        Simple(p.schema) && p.schema.ref == "" && p.schema.enum != []
  }

  lemma OnlyProperty(ps: seq<Property>, p: Property, q: Property)
    requires KeysDistinct(ps) && p in ps && q in ps && p.name == q.name
    ensures p == q
  {
    var i :| 0 <= i < |ps| && ps[i] == p;
    var j :| 0 <= j < |ps| && ps[j] == q;
  }

  /** The object whose only member is the tag. */
  function Tagged(tag: string, v: Json): Json {
    JObject([Member(tag, v)])
  }

  lemma PlainArmAdmits(arm: Schema, p: Property, v: Json, refs: Referred)
    requires PlainObject(arm) && p in arm.properties && Admits(p.schema, v, refs)
    ensures Admits(arm, Tagged(p.name, v), refs)
  {
    var w := Tagged(p.name, v);
    if arm.types != [] {
      var t :| t in arm.types && HasType(JObject([]), t);
      assert HasType(w, t);
    }
    forall q, m | q in arm.properties && m in w.members && m.name == q.name
      ensures Admits(q.schema, m.value, refs)
    {
      OnlyProperty(arm.properties, p, q);
    }
  }

  lemma PlainUnionAdmits(s: Schema, tag: string, arm: Schema, w: Json, refs: Referred)
    requires PlainUnion(s, tag) && arm in s.oneOf && Admits(arm, w, refs) && w.JObject?
    ensures Admits(s, w, refs)
  {
    if s.types != [] {
      var t :| t in s.types && HasType(JObject([]), t);
      assert HasType(w, t);
    }
  }

  /** Every tag of every object the union admits has a constant. */
  ghost predicate TagsDecode(s: Schema, tag: string, e: Decl, refs: Referred)
    requires e.Enum?
  {
    forall members: seq<Member>, m: Member ::
      Admits(s, JObject(members), refs) && m in members && m.name == tag ==> ConstantOf(e.constants, m.value)
  }

  lemma SomeTagFails(naming: Naming, e: Decl, name: string, s: Schema, tag: string, arm: Schema, p: Property,
                     refs: Referred)
    requires TagEnum(naming, e, name, s, tag) && PlainUnion(s, tag)
    requires arm in s.oneOf && p in arm.properties && p.name == tag && !TagFits(p.schema)
    ensures !TagsDecode(s, tag, e, refs)
  {
    var v :| v in p.schema.enum && Possible(p.schema.types, v) && !v.JString? && !v.JNull?;
    assert Admits(p.schema, v, refs);
    PlainArmAdmits(arm, p, v, refs);
    PlainUnionAdmits(s, tag, arm, Tagged(tag, v), refs);
    assert Member(tag, v) in [Member(tag, v)] && !ConstantOf(e.constants, v);
  }

  lemma {:induction false} TagInEveryArm(arms: seq<Schema>, tag: string, arm: Schema) returns (p: Property)
    requires arm in arms && tag in CommonTags(arms)
    ensures p in arm.properties && p.name == tag && |p.schema.enum| == 1
  {
    if |arms| > 1 && arm in arms[..|arms| - 1] {
      p := TagInEveryArm(arms[..|arms| - 1], tag, arm);
    } else {
      p :| p in arm.properties && |p.schema.enum| == 1 && p.name == tag;
    }
  }

  lemma TagOfAdmitted(naming: Naming, e: Decl, name: string, s: Schema, tag: string, members: seq<Member>, m: Member,
                      refs: Referred)
    requires IsTagOf(s, Some(tag)) && TagEnum(naming, e, name, s, tag) && TagsFit(s, tag)
    requires s.ref == "" && forall arm :: arm in s.oneOf ==> arm.ref == ""
    requires Admits(s, JObject(members), refs) && m in members && m.name == tag
    ensures ConstantOf(e.constants, m.value)
  {
    var arm :| arm in s.oneOf && Admits(arm, JObject(members), refs);
    var p := TagInEveryArm(s.oneOf, tag, arm);
    MemberAdmitted(arm, members, p, m, refs);
    TagIsSound(naming, e, name, s, tag, arm, p, m.value, refs);
  }

  /**
    The tag of a union of plain objects decodes for every object the union admits if and only if every
    arm's tag is a string: taggedUnion takes any enum of one value for a tag, and the type of the tag
    is a string type.
   */
  lemma TagDecodesExactly(naming: Naming, e: Decl, name: string, s: Schema, tag: string, refs: Referred)
    requires IsTagOf(s, Some(tag)) && TagEnum(naming, e, name, s, tag) && PlainUnion(s, tag)
    ensures TagsDecode(s, tag, e, refs) <==> TagsFit(s, tag)
  {
    if TagsFit(s, tag) {
      forall members: seq<Member>, m: Member | Admits(s, JObject(members), refs) && m in members && m.name == tag
        ensures ConstantOf(e.constants, m.value)
      {
        TagOfAdmitted(naming, e, name, s, tag, members, m, refs);
      }
    } else {
      var arm, p :| arm in s.oneOf && p in arm.properties && p.name == tag && !TagFits(p.schema);
      SomeTagFails(naming, e, name, s, tag, arm, p, refs);
    }
  }

  /** An arm whose tag is a number. */
  const NUMBERED := PERMISSIVE.(types := [ObjectType], properties := [Property("t", PERMISSIVE.(enum := [JInteger(1)]))])

  /** The shortest union it fails on. */
  lemma NumberedTagFails(naming: Naming, e: Decl, name: string, refs: Referred)
    requires TagEnum(naming, e, name, PERMISSIVE.(oneOf := [NUMBERED, NUMBERED]), "t")
    ensures var s := PERMISSIVE.(oneOf := [NUMBERED, NUMBERED]);
      IsTagOf(s, Some("t")) && Admits(s, Tagged("t", JInteger(1)), refs) && !ConstantOf(e.constants, JInteger(1))
  {
    var s := PERMISSIVE.(oneOf := [NUMBERED, NUMBERED]);
    var p := Property("t", PERMISSIVE.(enum := [JInteger(1)]));
    assert NUMBERED.properties[0] == p;
    assert SingleEnums(NUMBERED) == {"t"};
    assert CommonTags([NUMBERED]) == {"t"};
    assert s.oneOf[..1] == [NUMBERED] && CommonTags(s.oneOf) == {"t"};
    assert HasType(JObject([]), ObjectType) && NUMBERED.types[0] == ObjectType;
    PlainArmAdmits(NUMBERED, p, JInteger(1), refs);
    assert s.oneOf[0] == NUMBERED;
  }

  // ---------- the struct ----------

  /** The members that an arm declares decode into their fields. */
  ghost predicate ArmDecodes(named: NamedTypes, fields: seq<Field>, arm: Schema, members: seq<Member>) {
    forall i, p, m ::
      0 <= i < |fields| && p in arm.properties && m in members && fields[i].json == p.name == m.name ==>
        Decodes(named, fields[i].typ, m.value)
  }

  /** A check on the arms of a union. */
  predicate ArmsFit(s: Schema, tag: string) {
    s.ref == "" && TagsFit(s, tag) &&
    forall arm :: arm in s.oneOf ==>
      arm.ref == "" && forall p :: p in arm.properties && p.name != tag ==> WellTyped(p.schema)
  }

  lemma {:induction false} OthersHaveNoTag(ps: seq<Property>, tag: string)
    ensures forall p :: p in Others(ps, tag) ==> p.name != tag
  {
    if ps != [] {
      OthersHaveNoTag(ps[..|ps| - 1], tag);
    }
  }

  lemma {:induction false} FlatHasNoTag(arms: seq<Schema>, tag: string)
    ensures forall p :: p in Flat(arms, tag) ==> p.name != tag
  {
    if arms != [] {
      FlatHasNoTag(arms[..|arms| - 1], tag);
      OthersHaveNoTag(arms[|arms| - 1].properties, tag);
    }
  }

  lemma {:induction false} FirstSeenAreNames(ps: seq<Property>, name: string)
    requires name in FirstSeen(ps)
    ensures exists p :: p in ps && p.name == name
  {
    var front, p := ps[..|ps| - 1], ps[|ps| - 1];
    assert p in ps;
    if name in FirstSeen(front) {
      FirstSeenAreNames(front, name);
      var q :| q in front && q.name == name;
      assert q in ps;
    }
  }

  /** Only the first field of a flattened struct is the tag's. */
  lemma TagIsFirst(kind: GoType -> Kind, arms: seq<Schema>, tag: string, place: Placing, fields: seq<Field>, i: nat)
    requires FlattensTo(kind, Flat(arms, tag), place, fields) && i < |fields|
    ensures fields[i].json != tag
  {
    var order := FirstSeen(Flat(arms, tag));
    assert fields[i].json == order[i];
    FirstSeenAreNames(Flat(arms, tag), order[i]);
    FlatHasNoTag(arms, tag);
  }

  /** A member other than the tag, as the arm's own property. */
  lemma OtherPropertyDecodes(naming: Naming, name: string, s: Schema, tag: string, arm: Schema, p: Property, v: Json,
                             refs: Referred, named: NamedTypes, inlines: seq<Inline>)
    requires NamedDecode(naming, named, refs, inlines)
    requires forall it :: it in InlinesOf(Flat(s.oneOf, tag), InUnion(naming, name)) ==> it in inlines
    requires arm in s.oneOf && p in arm.properties && p.name != tag && WellTyped(p.schema)
    requires Admits(p.schema, v, refs) && Keyed(naming, p.schema, v, refs)
    ensures Decodes(named, GoTypeOf(p.schema, PlaceName(naming, name, p.name)).typ, v)
  {
    FlatHas(s.oneOf, tag, arm, p);
    InlinesOfHas(Flat(s.oneOf, tag), p, InUnion(naming, name));
    PropertyIsSound(naming, p, PlaceName(naming, name, p.name), v, refs, named, inlines);
  }

  /** The field for it, which other arms may share. */
  lemma OtherMemberDecodes(naming: Naming, kind: GoType -> Kind, d: Decl, name: string, s: Schema, tag: string,
                           arm: Schema, i: nat, p: Property, v: Json, named: NamedTypes)
    requires Sane(kind) && KindSound(kind, named) && FlatStruct(naming, kind, d, name, s, tag)
    requires arm in s.oneOf && p in arm.properties && p.name != tag
    requires Decodes(named, GoTypeOf(p.schema, PlaceName(naming, name, p.name)).typ, v)
    requires i < |d.fields| && d.fields[i].json == p.name
    ensures Decodes(named, d.fields[i].typ, v)
  {
    FlatHas(s.oneOf, tag, arm, p);
    var fields := d.fields[1..];
    assert i > 0 && fields[i - 1] == d.fields[i];
    UnionFieldTakes(kind, Flat(s.oneOf, tag), InUnion(naming, name), fields, p, v, named, i - 1);
  }

  /** The tag's member. */
  lemma TagMemberDecodes(naming: Naming, kind: GoType -> Kind, d: Decl, e: Decl, name: string, s: Schema, tag: string,
                         arm: Schema, i: nat, p: Property, v: Json, refs: Referred, named: NamedTypes)
    requires FlatStruct(naming, kind, d, name, s, tag) && TagEnum(naming, e, name, s, tag) && TagsFit(s, tag)
    requires forall w :: ConstantOf(e.constants, w) ==> named(e.name, w)
    requires arm in s.oneOf && p in arm.properties && p.name == tag && Admits(p.schema, v, refs)
    requires i < |d.fields| && d.fields[i].json == p.name
    ensures Decodes(named, d.fields[i].typ, v)
  {
    if i > 0 {
      TagIsFirst(kind, s.oneOf, tag, InUnion(naming, name), d.fields[1..], i - 1);
    }
    TagIsSound(naming, e, name, s, tag, arm, p, v, refs);
  }

  /** What holds of a flattened union's declarations, of its schema, and of the types it mentions. */
  ghost predicate Flattened(naming: Naming, kind: GoType -> Kind, d: Decl, e: Decl, name: string, s: Schema, tag: string,
                            refs: Referred, named: NamedTypes, inlines: seq<Inline>) {
    Sane(kind) && KindSound(kind, named) && ArmsFit(s, tag) && NamedDecode(naming, named, refs, inlines) &&
    FlatStruct(naming, kind, d, name, s, tag) && TagEnum(naming, e, name, s, tag) &&
    (forall it :: it in InlinesOf(Flat(s.oneOf, tag), InUnion(naming, name)) ==> it in inlines) &&
    forall w :: ConstantOf(e.constants, w) ==> named(e.name, w)
  }

  /** A value of a property an arm declares decodes into the field of that name. */
  lemma ArmMemberDecodes(naming: Naming, kind: GoType -> Kind, d: Decl, e: Decl, name: string, s: Schema, tag: string,
                         arm: Schema, i: nat, p: Property, v: Json, refs: Referred, named: NamedTypes,
                         inlines: seq<Inline>)
    requires Flattened(naming, kind, d, e, name, s, tag, refs, named, inlines)
    requires arm in s.oneOf && p in arm.properties && i < |d.fields| && d.fields[i].json == p.name
    requires Admits(p.schema, v, refs) && Keyed(naming, p.schema, v, refs)
    ensures Decodes(named, d.fields[i].typ, v)
  {
    if p.name == tag {
      TagMemberDecodes(naming, kind, d, e, name, s, tag, arm, i, p, v, refs, named);
    } else {
      OtherPropertyDecodes(naming, name, s, tag, arm, p, v, refs, named, inlines);
      OtherMemberDecodes(naming, kind, d, name, s, tag, arm, i, p, v, named);
    }
  }

  /**
    An object that a tagged union admits, by whichever arm, decodes into the flattened struct in every
    member that arm declares, the tag included.
   */
  lemma TaggedUnionIsSound(naming: Naming, kind: GoType -> Kind, d: Decl, e: Decl, name: string, s: Schema, tag: string,
                           arm: Schema, members: seq<Member>, refs: Referred, named: NamedTypes, inlines: seq<Inline>)
    requires Flattened(naming, kind, d, e, name, s, tag, refs, named, inlines)
    requires arm in s.oneOf && Admits(arm, JObject(members), refs) && OwnMembersKeyed(naming, arm.properties, members, refs)
    ensures ArmDecodes(named, d.fields, arm, members)
  {
    forall i, p, m | 0 <= i < |d.fields| && p in arm.properties && m in members && d.fields[i].json == p.name == m.name
      ensures Decodes(named, d.fields[i].typ, m.value)
    {
      MemberAdmitted(arm, members, p, m, refs);
      ArmMemberDecodes(naming, kind, d, e, name, s, tag, arm, i, p, m.value, refs, named, inlines);
    }
  }

  // ---------- members of other arms ----------

  lemma {:induction false} FlatIsFromArms(arms: seq<Schema>, tag: string, p: Property)
    requires p in Flat(arms, tag)
    ensures exists arm :: arm in arms && p in arm.properties
  {
    var front, last := arms[..|arms| - 1], arms[|arms| - 1];
    if p in Flat(front, tag) {
      FlatIsFromArms(front, tag, p);
      var arm :| arm in front && p in arm.properties;
      assert arm in arms;
    } else {
      OthersAreThere(last.properties, tag, p);
      assert last in arms;
    }
  }

  lemma {:induction false} OthersAreThere(ps: seq<Property>, tag: string, p: Property)
    requires p in Others(ps, tag)
    ensures p in ps
  {
    if p != ps[|ps| - 1] {
      OthersAreThere(ps[..|ps| - 1], tag, p);
    }
  }

  predicate Declares(arm: Schema, name: string) {
    exists p :: p in arm.properties && p.name == name
  }

  /** Every field of the flattened struct is declared by some arm. */
  lemma FieldIsDeclared(naming: Naming, kind: GoType -> Kind, d: Decl, name: string, s: Schema, tag: string, i: nat)
    requires IsTagOf(s, Some(tag)) && FlatStruct(naming, kind, d, name, s, tag) && i < |d.fields|
    ensures exists arm :: arm in s.oneOf && Declares(arm, d.fields[i].json)
  {
    if i == 0 {
      var p := TagInEveryArm(s.oneOf, tag, s.oneOf[0]);
      assert Declares(s.oneOf[0], tag);
    } else {
      var json := d.fields[i].json;
      assert d.fields[1..][i - 1].json == FirstSeen(Flat(s.oneOf, tag))[i - 1];
      FirstSeenAreNames(Flat(s.oneOf, tag), json);
      var p :| p in Flat(s.oneOf, tag) && p.name == json;
      FlatIsFromArms(s.oneOf, tag, p);
      var arm :| arm in s.oneOf && p in arm.properties;
      assert Declares(arm, json);
    }
  }

  /** The keys of the flattened struct. */
  function UnionKeys(s: Schema, tag: string): seq<string> {
    [tag] + FirstSeen(Flat(s.oneOf, tag))
  }

  lemma FlatKeys(naming: Naming, kind: GoType -> Kind, d: Decl, name: string, s: Schema, tag: string)
    requires FlatStruct(naming, kind, d, name, s, tag)
    ensures Keys(d.fields) == UnionKeys(s, tag)
  {
    var fields := d.fields[1..];
    assert d.fields == [d.fields[0]] + fields;
    assert forall i :: 0 <= i < |fields| ==> fields[i].json == FirstSeen(Flat(s.oneOf, tag))[i];
  }

  /** The value has a place in an arm's own property of that name. */
  predicate FitsProperty(naming: Naming, arm: Schema, name: string, v: Json, refs: Referred) {
    exists p :: p in arm.properties && p.name == name && Admits(p.schema, v, refs) && Keyed(naming, p.schema, v, refs)
  }

  /** Whatever field a member meets, the arm has a property for it. */
  predicate OwnMembers(naming: Naming, keys: seq<string>, arm: Schema, members: seq<Member>, refs: Referred) {
    forall m {:trigger Meets(keys, m.name)} :: m in members && Meets(keys, m.name).Some? ==>
      FitsProperty(naming, arm, keys[Meets(keys, m.name).value], m.value, refs)
  }

  /** An arm admits the object and has a property for every member of it that meets a field. */
  predicate HasOwnArm(naming: Naming, s: Schema, tag: string, members: seq<Member>, refs: Referred) {
    exists arm :: arm in s.oneOf && Admits(arm, JObject(members), refs) &&
      OwnMembers(naming, UnionKeys(s, tag), arm, members, refs)
  }

  /** An object with the members of one arm only decodes as a whole. */
  lemma OwnMembersDecode(naming: Naming, kind: GoType -> Kind, d: Decl, e: Decl, name: string, s: Schema, tag: string,
                         members: seq<Member>, refs: Referred, named: NamedTypes, inlines: seq<Inline>)
    requires Flattened(naming, kind, d, e, name, s, tag, refs, named, inlines)
    requires HasOwnArm(naming, s, tag, members, refs)
    ensures FieldsDecode(named, d.fields, members)
  {
    FlatKeys(naming, kind, d, name, s, tag);
    var keys := UnionKeys(s, tag);
    var arm :| arm in s.oneOf && Admits(arm, JObject(members), refs) && OwnMembers(naming, keys, arm, members, refs);
    forall m | m in members && Meets(keys, m.name).Some?
      ensures Decodes(named, d.fields[Meets(keys, m.name).value].typ, m.value)
    {
      var i := Meets(keys, m.name).value;
      var p :| p in arm.properties && p.name == keys[i] && Admits(p.schema, m.value, refs) &&
               Keyed(naming, p.schema, m.value, refs);
      assert d.fields[i].json == Keys(d.fields)[i];
      ArmMemberDecodes(naming, kind, d, e, name, s, tag, arm, i, p, m.value, refs, named, inlines);
    }
  }

  // ---------- exactly which unions decode whole objects ----------

  /** The type decodes any value. */
  ghost predicate TakesAll(named: NamedTypes, typ: GoType) {
    forall v :: Decodes(named, typ, v)
  }

  /** Only raw JSON does, and a named type that stands for it. */
  lemma OnlyRawTakesAll(named: NamedTypes, typ: GoType)
    ensures TakesAll(named, typ) <==> typ == Raw || (typ.Named? && forall v: Json :: v.JNull? || named(typ.name, v))
  {
    if typ.Named? {
      assert forall v :: Decodes(named, typ, v) <==> v.JNull? || named(typ.name, v);
    } else if typ != Raw {
      assert !Decodes(named, typ, if typ.Str? then JBool(true) else JString(""));
    }
  }

  /** Every field that some arm does not declare is of a type that takes anything. */
  ghost predicate StraysDecode(named: NamedTypes, s: Schema, fields: seq<Field>) {
    forall i, arm :: 0 < i < |fields| && arm in s.oneOf && !Declares(arm, fields[i].json) ==> TakesAll(named, fields[i].typ)
  }

  /** No member differs in case from the field it meets. */
  predicate Unfolded(keys: seq<string>, members: seq<Member>) {
    forall m {:trigger Meets(keys, m.name)} :: m in members && Meets(keys, m.name).Some? ==>
      keys[Meets(keys, m.name).value] == m.name
  }

  /** Every object an arm admits decodes as a whole, members that differ in case from a field aside. */
  ghost predicate ObjectsDecode(naming: Naming, named: NamedTypes, s: Schema, fields: seq<Field>, refs: Referred) {
    forall arm, members {:trigger Admits(arm, JObject(members), refs)} ::
      arm in s.oneOf && Admits(arm, JObject(members), refs) && Unfolded(Keys(fields), members) &&
      OwnMembersKeyed(naming, arm.properties, members, refs) ==>
        FieldsDecode(named, fields, members)
  }

  /** An arm admits an object that has only a member it does not declare. */
  lemma StrangerAdmitted(arm: Schema, m: Member, refs: Referred)
    requires PlainObject(arm) && arm.properties != [] && !Declares(arm, m.name)
    ensures Admits(arm, JObject([m]), refs)
  {
    if arm.types != [] {
      var t :| t in arm.types && HasType(JObject([]), t);
      assert HasType(JObject([m]), t);
    }
  }

  lemma StrayFails(naming: Naming, named: NamedTypes, s: Schema, tag: string, fields: seq<Field>, i: nat, arm: Schema,
                   v: Json, refs: Referred)
    requires IsTagOf(s, Some(tag)) && PlainUnion(s, tag) && i < |fields| && arm in s.oneOf
    requires !Declares(arm, fields[i].json) && !Decodes(named, fields[i].typ, v)
    requires Meets(Keys(fields), fields[i].json) == Some(i)
    ensures !ObjectsDecode(naming, named, s, fields, refs)
  {
    var m := Member(fields[i].json, v);
    var p := TagInEveryArm(s.oneOf, tag, arm);
    StrangerAdmitted(arm, m, refs);
    assert m in [m] && Unfolded(Keys(fields), [m]);
    assert !FieldsDecode(named, fields, [m]);
  }

  lemma {:induction false} FirstSeenOnce(ps: seq<Property>)
    ensures forall i, j :: 0 <= i < j < |FirstSeen(ps)| ==> FirstSeen(ps)[i] != FirstSeen(ps)[j]
  {
    if ps != [] {
      FirstSeenOnce(ps[..|ps| - 1]);
    }
  }

  lemma KeyMeetsItself(tag: string, order: seq<string>, i: nat)
    requires 0 < i <= |order| && order[i - 1] != tag && forall j, k :: 0 <= j < k < |order| ==> order[j] != order[k]
    ensures Meets([tag] + order, ([tag] + order)[i]) == Some(i)
  {
    var keys := [tag] + order;
    assert keys[i] == order[i - 1] && keys[i] in keys;
    var k := Meets(keys, keys[i]).value;
    assert keys[k] == keys[i] && (k > 0 ==> keys[k] == order[k - 1]);
  }

  /** A member with a field's name meets that field. */
  lemma FieldMeetsItself(naming: Naming, kind: GoType -> Kind, d: Decl, name: string, s: Schema, tag: string, i: nat)
    requires FlatStruct(naming, kind, d, name, s, tag) && 0 < i < |d.fields|
    ensures Meets(Keys(d.fields), d.fields[i].json) == Some(i)
  {
    FlatKeys(naming, kind, d, name, s, tag);
    FirstSeenOnce(Flat(s.oneOf, tag));
    assert d.fields[1..][i - 1] == d.fields[i];
    TagIsFirst(kind, s.oneOf, tag, InUnion(naming, name), d.fields[1..], i - 1);
    KeyMeetsItself(tag, FirstSeen(Flat(s.oneOf, tag)), i);
    assert Keys(d.fields)[i] == d.fields[i].json;
  }

  /** One member of an object that an arm admits: its own, or one that its field takes anyway. */
  lemma MemberDecodes(naming: Naming, kind: GoType -> Kind, d: Decl, name: string, s: Schema, tag: string, arm: Schema,
                      members: seq<Member>, i: nat, m: Member, named: NamedTypes)
    requires IsTagOf(s, Some(tag)) && FlatStruct(naming, kind, d, name, s, tag) && arm in s.oneOf
    requires ArmDecodes(named, d.fields, arm, members) && StraysDecode(named, s, d.fields)
    requires m in members && i < |d.fields| && d.fields[i].json == m.name
    ensures Decodes(named, d.fields[i].typ, m.value)
  {
    if Declares(arm, m.name) {
      var p :| p in arm.properties && p.name == m.name;
    } else if i == 0 {
      var p := TagInEveryArm(s.oneOf, tag, arm);
      assert Declares(arm, tag);
    }
  }

  /**
    Members apart that differ in case from a field, every object that a union of plain objects admits
    decodes as a whole if and only if every field that some arm does not declare is of a type that takes
    any value: an arm admits members it does not declare, and the flattened struct gives them the type
    that other arms declare.
   */
  lemma UnionDecodesExactly(naming: Naming, kind: GoType -> Kind, d: Decl, e: Decl, name: string, s: Schema, tag: string,
                            refs: Referred, named: NamedTypes, inlines: seq<Inline>)
    requires IsTagOf(s, Some(tag)) && PlainUnion(s, tag)
    requires Flattened(naming, kind, d, e, name, s, tag, refs, named, inlines)
    ensures ObjectsDecode(naming, named, s, d.fields, refs) <==> StraysDecode(named, s, d.fields)
  {
    if StraysDecode(named, s, d.fields) {
      forall arm, members | arm in s.oneOf && Admits(arm, JObject(members), refs) && Unfolded(Keys(d.fields), members) &&
                            OwnMembersKeyed(naming, arm.properties, members, refs)
        ensures FieldsDecode(named, d.fields, members)
      {
        TaggedUnionIsSound(naming, kind, d, e, name, s, tag, arm, members, refs, named, inlines);
        forall m: Member | m in members && Meets(Keys(d.fields), m.name).Some?
          ensures Decodes(named, d.fields[Meets(Keys(d.fields), m.name).value].typ, m.value)
        {
          MemberDecodes(naming, kind, d, name, s, tag, arm, members, Meets(Keys(d.fields), m.name).value, m, named);
        }
      }
    } else {
      var i, arm :| 0 < i < |d.fields| && arm in s.oneOf && !Declares(arm, d.fields[i].json) && !TakesAll(named, d.fields[i].typ);
      var v :| !Decodes(named, d.fields[i].typ, v);
      FieldMeetsItself(naming, kind, d, name, s, tag, i);
      StrayFails(naming, named, s, tag, d.fields, i, arm, v, refs);
    }
  }

  const TAG_ONLY := PERMISSIVE.(types := [ObjectType], properties := [Property("t", PERMISSIVE.(enum := [JString("a")]))])
  const TAG_AND_TEXT := PERMISSIVE.(types := [ObjectType], properties :=
    [Property("t", PERMISSIVE.(enum := [JString("b")])), Property("x", PERMISSIVE.(types := [StringType]))])
  const STRAY := JObject([Member("t", JString("a")), Member("x", JInteger(1))])

  lemma OnlyField(kind: GoType -> Kind, p: Property, place: Placing, fields: seq<Field>)
    requires FlattensTo(kind, [p], place, fields)
    ensures |fields| == 1 && fields[0].json == p.name && fields[0].typ == GoTypeOf(p.schema, At(place, p.name)).typ
  {
    assert [p][..0] == [];
    assert FirstSeen([p]) == [p.name];
    assert TypesOf([p], p.name, At(place, p.name)) == [GoTypeOf(p.schema, At(place, p.name)).typ];
  }

  lemma StrayIsAdmitted(refs: Referred)
    ensures Admits(PERMISSIVE.(oneOf := [TAG_ONLY, TAG_AND_TEXT]), STRAY, refs)
  {
    assert TAG_ONLY.types[0] == ObjectType && HasType(STRAY, ObjectType);
    assert Admits(TAG_ONLY, STRAY, refs);
    assert [TAG_ONLY, TAG_AND_TEXT][0] == TAG_ONLY;
  }

  lemma TextTakesNoNumber(named: NamedTypes, fields: seq<Field>)
    requires Meets(Keys(fields), "x") == Some(1) && fields[1].typ == Str
    ensures !FieldsDecode(named, fields, STRAY.members)
  {
    var m := STRAY.members[1];
    assert m in STRAY.members && m.name == "x" && !Decodes(named, Str, m.value);
  }

  /** The shortest union that fails: an arm admits members it does not declare, of whatever type. */
  lemma StrayMemberFails(naming: Naming, kind: GoType -> Kind, d: Decl, name: string, refs: Referred, named: NamedTypes)
    requires FlatStruct(naming, kind, d, name, PERMISSIVE.(oneOf := [TAG_ONLY, TAG_AND_TEXT]), "t")
    ensures Admits(PERMISSIVE.(oneOf := [TAG_ONLY, TAG_AND_TEXT]), STRAY, refs)
    ensures !FieldsDecode(named, d.fields, STRAY.members)
  {
    var x := TAG_AND_TEXT.properties[1];
    FlatOfTwo(x);
    OnlyField(kind, x, InUnion(naming, name), d.fields[1..]);
    assert d.fields[1..][0] == d.fields[1];
    FieldMeetsItself(naming, kind, d, name, PERMISSIVE.(oneOf := [TAG_ONLY, TAG_AND_TEXT]), "t", 1);
    TextTakesNoNumber(named, d.fields);
    StrayIsAdmitted(refs);
  }

  lemma FlatOfTwo(x: Property)
    requires x == TAG_AND_TEXT.properties[1]
    ensures Flat([TAG_ONLY, TAG_AND_TEXT], "t") == [x]
  {
    var t := TAG_AND_TEXT.properties[0];
    assert [TAG_ONLY, TAG_AND_TEXT][..1] == [TAG_ONLY] && [TAG_ONLY][..0] == [];
    assert TAG_ONLY.properties[..0] == [];
    assert TAG_AND_TEXT.properties[..1] == [t] && [t][..0] == [];
    assert Others([t], "t") == [];
    assert Others(TAG_AND_TEXT.properties, "t") == [x];
    assert Flat([TAG_ONLY], "t") == [];
  }
}
