/** What the generator declares for a schema: the content of its output, without the text. */
module Declarations {
  import opened Names
  import opened Options
  import opened Schemas
  import opened GoTypes
  import opened Widening

  datatype Field = Field(json: string, typ: GoType, pointer: bool)

  /** `type X = json.RawMessage` is an alias; `type X T` defines a type, which has none of T's methods. */
  datatype Decl =
    | Enum(name: string, constants: seq<(string, string)>)
    | Alias(name: string, target: GoType)
    | Defined(name: string, target: GoType)
    | Struct(name: string, fields: seq<Field>)

  /** What a target is declared as: only raw JSON needs an alias, to keep its UnmarshalJSON. */
  function Declared(name: string, target: GoType): Decl {
    if target == Raw then Alias(name, target) else Defined(name, target)
  }

  // ---------- struct fields ----------

  /** What an unnamed object in a field is called; None for a property that gets no field. */
  type Placing = string -> Option<string>

  /** Fields of a struct are placed under its name; a name that exports to nothing has no field. */
  function Under(naming: Naming, owner: string): Placing {
    (json: string) => if naming(json) == "" then None else Some(PlaceName(naming, owner, json))
  }

  function FieldOf(p: Property, name: string, required: set<string>): Field {
    var typ := GoTypeOf(p.schema, name).typ;
    var optional := p.name !in required || Nullable(p.schema);
    Field(p.name, typ, optional && NeedsPointer(typ))
  }

  function FieldsOf(ps: seq<Property>, place: Placing, required: set<string>): seq<Field> {
    if ps == [] then []
    else
      var p := ps[|ps| - 1];
      var before := FieldsOf(ps[..|ps| - 1], place, required);
      if place(p.name).Some? then before + [FieldOf(p, place(p.name).value, required)] else before
  }

  /** The properties that get a field. */
  function Shown(ps: seq<Property>, place: Placing): (r: seq<Property>)
    ensures forall p :: p in r ==> p in ps
  {
    if ps == [] then []
    else
      var before := Shown(ps[..|ps| - 1], place);
      if place(ps[|ps| - 1].name).Some? then before + [ps[|ps| - 1]] else before
  }

  /** Their fields, one each and in order. */
  lemma {:induction false} FieldsAreShown(ps: seq<Property>, place: Placing, required: set<string>)
    ensures |FieldsOf(ps, place, required)| == |Shown(ps, place)|
    ensures forall i :: 0 <= i < |Shown(ps, place)| ==>
      place(Shown(ps, place)[i].name).Some? &&
      FieldsOf(ps, place, required)[i] == FieldOf(Shown(ps, place)[i], place(Shown(ps, place)[i].name).value, required)
  {
    if ps != [] {
      FieldsAreShown(ps[..|ps| - 1], place, required);
    }
  }

  /** A member may be left out, or be null: its name is not required, or null is among its types. */
  predicate MayBeMissing(p: Property, required: set<string>) {
    p.name !in required || NullType in p.schema.types || exists arm :: arm in p.schema.anyOf && NullType in arm.types
  }

  /** A type that can say by itself that nothing is there: a slice, a map, raw JSON. */
  predicate CanBeNil(typ: GoType) {
    typ.Slice? || typ.MapOf? || typ.Raw?
  }

  /** The field for one property: its key, its type, and a pointer exactly where nothing else could say it is missing. */
  predicate IsFieldOf(naming: Naming, owner: string, f: Field, p: Property, required: set<string>) {
    naming(p.name) != "" && f.json == p.name && f.typ == GoTypeOf(p.schema, naming(owner + "_" + p.name)).typ &&
    (f.pointer <==> MayBeMissing(p, required) && !CanBeNil(f.typ))
  }

  /** Each property whose name exports to something has a field, and there are no other fields. */
  ghost predicate AreFieldsOf(naming: Naming, owner: string, fields: seq<Field>, ps: seq<Property>, required: set<string>) {
    (forall p {:trigger p in ps} :: p in ps && naming(p.name) != "" ==> HasField(naming, owner, fields, p, required)) &&
    forall f {:trigger f in fields} :: f in fields ==> HasProperty(naming, owner, f, ps, required)
  }

  ghost predicate HasField(naming: Naming, owner: string, fields: seq<Field>, p: Property, required: set<string>) {
    exists f :: f in fields && IsFieldOf(naming, owner, f, p, required)
  }

  ghost predicate HasProperty(naming: Naming, owner: string, f: Field, ps: seq<Property>, required: set<string>) {
    exists p :: p in ps && IsFieldOf(naming, owner, f, p, required)
  }

  lemma FieldIsRight(naming: Naming, owner: string, p: Property, required: set<string>)
    requires naming(p.name) != ""
    ensures IsFieldOf(naming, owner, FieldOf(p, PlaceName(naming, owner, p.name), required), p, required)
  {
  }

  lemma StillHasField(naming: Naming, owner: string, fields: seq<Field>, g: Field, p: Property, required: set<string>)
    requires HasField(naming, owner, fields, p, required)
    ensures HasField(naming, owner, fields + [g], p, required)
  {
    var h :| h in fields && IsFieldOf(naming, owner, h, p, required);
    assert h in fields + [g];
  }

  lemma StillHasProperty(naming: Naming, owner: string, f: Field, ps: seq<Property>, q: Property, required: set<string>)
    requires HasProperty(naming, owner, f, ps, required)
    ensures HasProperty(naming, owner, f, ps + [q], required)
  {
    var r :| r in ps && IsFieldOf(naming, owner, f, r, required);
    assert r in ps + [q];
  }

  lemma OneMoreProperty(naming: Naming, owner: string, fields: seq<Field>, ps: seq<Property>, q: Property,
                        required: set<string>)
    requires AreFieldsOf(naming, owner, fields, ps, required) && naming(q.name) == ""
    ensures AreFieldsOf(naming, owner, fields, ps + [q], required)
  {
    forall f | f in fields
      ensures HasProperty(naming, owner, f, ps + [q], required)
    {
      StillHasProperty(naming, owner, f, ps, q, required);
    }
  }

  lemma OneMoreField(naming: Naming, owner: string, fields: seq<Field>, ps: seq<Property>, g: Field, q: Property,
                     required: set<string>)
    requires AreFieldsOf(naming, owner, fields, ps, required) && IsFieldOf(naming, owner, g, q, required)
    ensures AreFieldsOf(naming, owner, fields + [g], ps + [q], required)
  {
    assert g in fields + [g] && q in ps + [q];
    forall p | p in ps + [q] && naming(p.name) != ""
      ensures HasField(naming, owner, fields + [g], p, required)
    {
      if p in ps {
        StillHasField(naming, owner, fields, g, p, required);
      }
    }
    forall f | f in fields + [g]
      ensures HasProperty(naming, owner, f, ps + [q], required)
    {
      if f in fields {
        StillHasProperty(naming, owner, f, ps, q, required);
      }
    }
  }

  lemma FieldsOfSnoc(naming: Naming, owner: string, ps: seq<Property>, required: set<string>)
    requires ps != []
    ensures var n := |ps| - 1;
      FieldsOf(ps, Under(naming, owner), required) ==
        if naming(ps[n].name) == "" then FieldsOf(ps[..n], Under(naming, owner), required)
        else FieldsOf(ps[..n], Under(naming, owner), required) + [FieldOf(ps[n], PlaceName(naming, owner, ps[n].name), required)]
  {
  }

  /** The struct of an object has the fields its properties call for. */
  lemma {:induction false} FieldsAreRight(naming: Naming, owner: string, ps: seq<Property>, required: set<string>,
                                        fields: seq<Field>)
    requires fields == FieldsOf(ps, Under(naming, owner), required)
    ensures AreFieldsOf(naming, owner, fields, ps, required)
  {
    if ps != [] {
      var n := |ps| - 1;
      var before := FieldsOf(ps[..n], Under(naming, owner), required);
      FieldsAreRight(naming, owner, ps[..n], required, before);
      FieldsOfSnoc(naming, owner, ps, required);
      if naming(ps[n].name) == "" {
        OneMoreProperty(naming, owner, before, ps[..n], ps[n], required);
      } else {
        FieldIsRight(naming, owner, ps[n], required);
        OneMoreField(naming, owner, before, ps[..n], FieldOf(ps[n], PlaceName(naming, owner, ps[n].name), required), ps[n], required);
      }
      assert ps == ps[..n] + [ps[n]];
    }
  }

  // ---------- which field a member meets ----------

  function Keys(fields: seq<Field>): seq<string> {
    seq(|fields|, i requires 0 <= i < |fields| => fields[i].json)
  }

  function PropertyKeys(ps: seq<Property>): seq<string> {
    seq(|ps|, i requires 0 <= i < |ps| => ps[i].name)
  }

  function ExactKey(keys: seq<string>, name: string): (i: Option<nat>)
    ensures i.Some? ==> i.value < |keys| && keys[i.value] == name && name !in keys[..i.value]
    ensures i.None? ==> name !in keys
  {
    if keys == [] then None
    else if name in keys[..|keys| - 1] then ExactKey(keys[..|keys| - 1], name)
    else if keys[|keys| - 1] == name then Some(|keys| - 1)
    else None
  }

  function FoldedKey(keys: seq<string>, name: string): (i: Option<nat>)
    ensures i.Some? ==> i.value < |keys| && EqualFold(keys[i.value], name)
  {
    if keys == [] then None
    else
      var before := FoldedKey(keys[..|keys| - 1], name);
      if before.Some? then before
      else if EqualFold(keys[|keys| - 1], name) then Some(|keys| - 1)
      else None
  }

  /** The field encoding/json decodes a member into: the one of that name, else the first that differs from it in case. */
  function Meets(keys: seq<string>, name: string): (i: Option<nat>)
    ensures i.Some? ==> i.value < |keys| && (keys[i.value] == name || (name !in keys && EqualFold(keys[i.value], name)))
    ensures name in keys ==> i.Some? && keys[i.value] == name
  {
    if name in keys then ExactKey(keys, name) else FoldedKey(keys, name)
  }

  function InlineOf(p: Property, name: string): seq<Inline> {
    var inline := GoTypeOf(p.schema, name).inline;
    if inline.Some? then [inline.value] else []
  }

  /** The unnamed objects that rendering these fields comes upon, in order. */
  function InlinesOf(ps: seq<Property>, place: Placing): seq<Inline> {
    if ps == [] then []
    else
      var p := ps[|ps| - 1];
      var before := InlinesOf(ps[..|ps| - 1], place);
      if place(p.name).Some? then before + InlineOf(p, place(p.name).value) else before
  }

  function SizeOfInlines(its: seq<Inline>): nat {
    if its == [] then 0 else Size(its[0].schema) + SizeOfInlines(its[1..])
  }

  lemma {:induction false} SizeOfAppended(a: seq<Inline>, b: seq<Inline>)
    ensures SizeOfInlines(a + b) == SizeOfInlines(a) + SizeOfInlines(b)
  {
    if a == [] {
      assert a + b == b;
    } else {
      assert (a + b)[1..] == a[1..] + b;
      SizeOfAppended(a[1..], b);
    }
  }

  lemma {:induction false} PropertiesSnoc(ps: seq<Property>, p: Property, known: string -> bool)
    ensures SizeOfProperties(ps + [p]) == SizeOfProperties(ps) + Size(p.schema)
    ensures PropertiesResolve(ps + [p], known) <==> PropertiesResolve(ps, known) && Resolves(p.schema, known)
  {
    if ps == [] {
      assert ps + [p] == [p] && [p][1..] == [];
    } else {
      assert (ps + [p])[1..] == ps[1..] + [p];
      PropertiesSnoc(ps[1..], p, known);
    }
  }

  ghost predicate InlinesResolve(its: seq<Inline>, known: string -> bool) {
    forall it :: it in its ==> Resolves(it.schema, known)
  }

  lemma InlineOfIsSmaller(p: Property, name: string, known: string -> bool)
    ensures SizeOfInlines(InlineOf(p, name)) <= Size(p.schema)
    ensures Resolves(p.schema, known) ==> InlinesResolve(InlineOf(p, name), known)
  {
    var its := InlineOf(p, name);
    if its != [] {
      InlineIsPart(p.schema, name, known);
      assert SizeOfInlines(its) == Size(its[0].schema) + SizeOfInlines(its[1..]);
    }
  }

  /** The unnamed objects found in some fields are together no larger than those fields. */
  lemma {:induction false} InlinesAreSmaller(ps: seq<Property>, place: Placing, known: string -> bool)
    ensures SizeOfInlines(InlinesOf(ps, place)) <= SizeOfProperties(ps)
    ensures PropertiesResolve(ps, known) ==> InlinesResolve(InlinesOf(ps, place), known)
  {
    if ps != [] {
      var front := ps[..|ps| - 1];
      var p := ps[|ps| - 1];
      assert ps == front + [p];
      PropertiesSnoc(front, p, known);
      InlinesAreSmaller(front, place, known);
      if place(p.name).Some? {
        InlineOfIsSmaller(p, place(p.name).value, known);
        SizeOfAppended(InlinesOf(front, place), InlineOf(p, place(p.name).value));
      }
    }
  }

  // ---------- names that are used ----------

  function FieldNames(fields: seq<Field>): set<string> {
    if fields == [] then {} else FieldNames(fields[..|fields| - 1]) + Mentions(fields[|fields| - 1].typ)
  }

  function UsedBy(d: Decl): set<string> {
    match d
    case Enum(_, _) => {}
    case Alias(_, target) => Mentions(target)
    case Defined(_, target) => Mentions(target)
    case Struct(_, fields) => FieldNames(fields)
  }

  function InlineNames(its: seq<Inline>): set<string> {
    set it | it in its :: it.name
  }

  function DeclNames(ds: seq<Decl>): set<string> {
    set d | d in ds :: d.name
  }

  lemma NamesAdd(fields: seq<Field>, f: Field, its: seq<Inline>, more: seq<Inline>)
    ensures FieldNames(fields + [f]) == FieldNames(fields) + Mentions(f.typ)
    ensures InlineNames(its + more) == InlineNames(its) + InlineNames(more)
  {
    assert (fields + [f])[..|fields|] == fields;
  }

  lemma {:induction false} FieldNamesJoin(a: seq<Field>, b: seq<Field>)
    ensures FieldNames(a + b) == FieldNames(a) + FieldNames(b)
  {
    if b == [] {
      assert a + b == a;
    } else {
      assert (a + b)[..|a + b| - 1] == a + b[..|b| - 1];
      FieldNamesJoin(a, b[..|b| - 1]);
    }
  }

  lemma FieldIsGrounded(p: Property, name: string, names: set<string>)
    requires Resolves(p.schema, GoTypes.Names(names))
    ensures Mentions(GoTypeOf(p.schema, name).typ) <= names + InlineNames(InlineOf(p, name))
  {
    var t := GoTypeOf(p.schema, name);
    if t.inline.Some? {
      InlineIsNamed(p.schema, name);
      assert t.inline.value in InlineOf(p, name);
    } else {
      MentionsResolve(p.schema, name, names);
    }
  }

  /** A struct's fields mention references that resolve and the unnamed objects found with them. */
  lemma {:induction false} FieldsAreGrounded(ps: seq<Property>, place: Placing, required: set<string>,
                                        names: set<string>)
    requires PropertiesResolve(ps, GoTypes.Names(names))
    ensures FieldNames(FieldsOf(ps, place, required)) <= names + InlineNames(InlinesOf(ps, place))
  {
    if ps != [] {
      var front := ps[..|ps| - 1];
      var p := ps[|ps| - 1];
      assert ps == front + [p];
      PropertiesSnoc(front, p, GoTypes.Names(names));
      FieldsAreGrounded(front, place, required, names);
      if place(p.name).Some? {
        FieldIsGrounded(p, place(p.name).value, names);
        NamesAdd(FieldsOf(front, place, required), FieldOf(p, place(p.name).value, required),
          InlinesOf(front, place), InlineOf(p, place(p.name).value));
      }
    }
  }

  // ---------- tagged unions ----------

  /** The properties of an arm whose enum has a single value. */
  function SingleEnums(arm: Schema): set<string> {
    set p | p in arm.properties && |p.schema.enum| == 1 :: p.name
  }

  function CommonTags(arms: seq<Schema>): set<string>
    requires arms != []
  {
    if |arms| == 1 then SingleEnums(arms[0])
    else CommonTags(arms[..|arms| - 1]) * SingleEnums(arms[|arms| - 1])
  }

  ghost predicate Least(name: string, names: set<string>) {
    forall n :: n in names ==> n == name || Less(name, n)
  }

  /** taggedUnion: the least name that is a single-value enum in every one of two or more arms. */
  ghost predicate IsTagOf(s: Schema, tag: Option<string>) {
    if |s.oneOf| < 2 || CommonTags(s.oneOf) == {} then tag.None?
    else tag.Some? && tag.value in CommonTags(s.oneOf) && Least(tag.value, CommonTags(s.oneOf))
  }

  function Others(ps: seq<Property>, tag: string): seq<Property> {
    if ps == [] then []
    else
      var before := Others(ps[..|ps| - 1], tag);
      if ps[|ps| - 1].name == tag then before else before + [ps[|ps| - 1]]
  }

  lemma OthersSnoc(ps: seq<Property>, i: nat, tag: string, before: seq<Property>)
    requires i < |ps|
    ensures before + Others(ps[..i + 1], tag) ==
      if ps[i].name == tag then before + Others(ps[..i], tag) else before + Others(ps[..i], tag) + [ps[i]]
  {
    assert ps[..i + 1][..i] == ps[..i];
  }

  /** Every arm's properties but the tag, arm by arm. */
  function Flat(arms: seq<Schema>, tag: string): seq<Property> {
    if arms == [] then [] else Flat(arms[..|arms| - 1], tag) + Others(arms[|arms| - 1].properties, tag)
  }

  /** In a union every property is placed, whatever its name. */
  function InUnion(naming: Naming, owner: string): Placing {
    (json: string) => Some(PlaceName(naming, owner, json))
  }

  function FirstSeen(ps: seq<Property>): seq<string> {
    if ps == [] then []
    else
      var before := FirstSeen(ps[..|ps| - 1]);
      var name := ps[|ps| - 1].name;
      if name in before then before else before + [name]
  }

  function At(place: Placing, json: string): string {
    if place(json).Some? then place(json).value else ""
  }

  /** The types a property has in the arms that declare it, in order. */
  function TypesOf(ps: seq<Property>, json: string, name: string): seq<GoType> {
    if ps == [] then []
    else
      var before := TypesOf(ps[..|ps| - 1], json, name);
      var p := ps[|ps| - 1];
      if p.name == json then before + [GoTypeOf(p.schema, name).typ] else before
  }

  /** The join of the types a property has. */
  ghost predicate JoinsTo(kind: GoType -> Kind, ps: seq<Property>, place: Placing, json: string, typ: GoType) {
    TypesOf(ps, json, At(place, json)) != [] && typ == FoldTypes(kind, TypesOf(ps, json, At(place, json)))
  }

  /** The struct that flattens a union: each property once, with the join of its types. */
  ghost predicate FlattensTo(kind: GoType -> Kind, ps: seq<Property>, place: Placing, fields: seq<Field>) {
    var order := FirstSeen(ps);
    |fields| == |order| &&
    forall i :: 0 <= i < |order| ==>
      fields[i].json == order[i] && JoinsTo(kind, ps, place, order[i], fields[i].typ) &&
      (fields[i].pointer <==> !CanBeNil(fields[i].typ))
  }

  /** The bookkeeping after some properties: the order they came in and the type of each so far. */
  ghost predicate Tally(kind: GoType -> Kind, ps: seq<Property>, place: Placing, order: seq<string>,
                        types: map<string, GoType>) {
    order == FirstSeen(ps) && (forall n :: n in types <==> n in order) &&
    (forall n {:trigger JoinsTo(kind, ps, place, n, types[n])} :: n in types ==> JoinsTo(kind, ps, place, n, types[n])) &&
    (forall n {:trigger TypesOf(ps, n, At(place, n))} :: n !in types ==> TypesOf(ps, n, At(place, n)) == [])
  }

  lemma TypesSnoc(ps: seq<Property>, p: Property, json: string, name: string)
    ensures TypesOf(ps + [p], json, name) ==
      if p.name == json then TypesOf(ps, json, name) + [GoTypeOf(p.schema, name).typ] else TypesOf(ps, json, name)
    ensures FirstSeen(ps + [p]) == if p.name in FirstSeen(ps) then FirstSeen(ps) else FirstSeen(ps) + [p.name]
  {
    assert (ps + [p])[..|ps|] == ps;
  }

  lemma FoldSnoc(kind: GoType -> Kind, types: seq<GoType>, t: GoType)
    ensures FoldTypes(kind, types + [t]) == if types == [] then t else Merge(kind, FoldTypes(kind, types), t)
  {
    assert (types + [t])[..|types|] == types;
  }

  /** One more property joins its own type and no other. */
  lemma JoinSnoc(kind: GoType -> Kind, ps: seq<Property>, place: Placing, p: Property, json: string, typ: GoType)
    ensures json != p.name ==> TypesOf(ps + [p], json, At(place, json)) == TypesOf(ps, json, At(place, json))
    ensures json != p.name && JoinsTo(kind, ps, place, json, typ) ==> JoinsTo(kind, ps + [p], place, json, typ)
    ensures var added := GoTypeOf(p.schema, At(place, json)).typ;
      json == p.name ==>
        (TypesOf(ps, json, At(place, json)) == [] ==> JoinsTo(kind, ps + [p], place, json, added)) &&
        (JoinsTo(kind, ps, place, json, typ) ==> JoinsTo(kind, ps + [p], place, json, Merge(kind, typ, added)))
  {
    TypesSnoc(ps, p, json, At(place, json));
    FoldSnoc(kind, TypesOf(ps, json, At(place, json)), GoTypeOf(p.schema, At(place, json)).typ);
  }

  /** What the bookkeeping becomes with one more property. */
  lemma TallyOne(kind: GoType -> Kind, ps: seq<Property>, place: Placing, order: seq<string>, types: map<string,
                 GoType>,
                 p: Property, typ: GoType)
    requires Tally(kind, ps, place, order, types)
    requires typ == GoTypeOf(p.schema, At(place, p.name)).typ
    ensures p.name in types ==> Tally(kind, ps + [p], place, order, types[p.name := Merge(kind, types[p.name], typ)])
    ensures p.name !in types ==> Tally(kind, ps + [p], place, order + [p.name], types[p.name := typ])
  {
    TypesSnoc(ps, p, p.name, At(place, p.name));
    var after := types[p.name := if p.name in types then Merge(kind, types[p.name], typ) else typ];
    forall n | n in after
      ensures JoinsTo(kind, ps + [p], place, n, after[n])
    {
      assert n in types ==> JoinsTo(kind, ps, place, n, types[n]);
      JoinSnoc(kind, ps, place, p, n, if n in types then types[n] else typ);
    }
    forall n | n !in after
      ensures TypesOf(ps + [p], n, At(place, n)) == []
    {
      JoinSnoc(kind, ps, place, p, n, typ);
    }
  }

  lemma {:induction false} TypesAreGrounded(ps: seq<Property>, place: Placing, json: string, names: set<string>)
    requires PropertiesResolve(ps, GoTypes.Names(names)) && place(json).Some?
    ensures forall t :: t in TypesOf(ps, json, At(place, json)) ==> Mentions(t) <= names + InlineNames(InlinesOf(ps, place))
  {
    if ps != [] {
      var front := ps[..|ps| - 1];
      var p := ps[|ps| - 1];
      assert ps == front + [p];
      PropertiesSnoc(front, p, GoTypes.Names(names));
      TypesAreGrounded(front, place, json, names);
      if place(p.name).Some? {
        FieldIsGrounded(p, place(p.name).value, names);
        InlineNamesAdd(InlinesOf(front, place), InlineOf(p, place(p.name).value));
      }
    }
  }

  lemma InlineNamesAdd(its: seq<Inline>, more: seq<Inline>)
    ensures InlineNames(its + more) == InlineNames(its) + InlineNames(more)
  {
  }

  /** A join mentions no more than the types it joins. */
  lemma JoinIsGrounded(kind: GoType -> Kind, ps: seq<Property>, place: Placing, json: string, typ: GoType,
                       names: set<string>)
    requires Sane(kind) && PropertiesResolve(ps, GoTypes.Names(names))
    requires place(json).Some? && JoinsTo(kind, ps, place, json, typ)
    ensures Mentions(typ) <= names + InlineNames(InlinesOf(ps, place))
  {
    var types := TypesOf(ps, json, At(place, json));
    TypesAreGrounded(ps, place, json, names);
    FoldIsCommon(kind, types);
    assert types[0] in types;
  }

  lemma {:induction false} FieldNamesWithin(fields: seq<Field>, names: set<string>)
    requires forall f :: f in fields ==> Mentions(f.typ) <= names
    ensures FieldNames(fields) <= names
  {
    if fields != [] {
      FieldNamesWithin(fields[..|fields| - 1], names);
    }
  }

  /** A flattened union mentions references that resolve and the unnamed objects found with them. */
  lemma UnionIsGrounded(kind: GoType -> Kind, ps: seq<Property>, place: Placing, fields: seq<Field>, names: set<string>)
    requires Sane(kind) && PropertiesResolve(ps, GoTypes.Names(names))
    requires forall f :: f in fields ==> place(f.json).Some? && JoinsTo(kind, ps, place, f.json, f.typ)
    ensures FieldNames(fields) <= names + InlineNames(InlinesOf(ps, place))
  {
    forall f | f in fields
      ensures Mentions(f.typ) <= names + InlineNames(InlinesOf(ps, place))
    {
      JoinIsGrounded(kind, ps, place, f.json, f.typ, names);
    }
    FieldNamesWithin(fields, names + InlineNames(InlinesOf(ps, place)));
  }

  lemma {:induction false} OthersResolve(ps: seq<Property>, tag: string, known: string -> bool)
    requires PropertiesResolve(ps, known)
    ensures PropertiesResolve(Others(ps, tag), known)
  {
    if ps != [] {
      var front := ps[..|ps| - 1];
      var p := ps[|ps| - 1];
      assert ps == front + [p];
      PropertiesSnoc(front, p, known);
      OthersResolve(front, tag, known);
      PropertiesSnoc(Others(front, tag), p, known);
    }
  }

  lemma {:induction false} PropertiesAppend(a: seq<Property>, b: seq<Property>, known: string -> bool)
    ensures PropertiesResolve(a + b, known) <==> PropertiesResolve(a, known) && PropertiesResolve(b, known)
  {
    if a == [] {
      assert a + b == b;
    } else {
      assert (a + b)[1..] == a[1..] + b;
      PropertiesAppend(a[1..], b, known);
    }
  }

  lemma {:induction false} FlatResolves(arms: seq<Schema>, tag: string, known: string -> bool)
    requires forall arm :: arm in arms ==> Resolves(arm, known)
    ensures PropertiesResolve(Flat(arms, tag), known)
  {
    if arms != [] {
      var arm := arms[|arms| - 1];
      FlatResolves(arms[..|arms| - 1], tag, known);
      assert Resolves(arm, known);
      OthersResolve(arm.properties, tag, known);
      PropertiesAppend(Flat(arms[..|arms| - 1], tag), Others(arm.properties, tag), known);
    }
  }
}
