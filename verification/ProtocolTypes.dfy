/** The generator's type rendering: definitions first, then a worklist that grows while it is walked. */
module ProtocolTypes {
  import opened Names
  import opened Options
  import opened Schemas
  import opened GoTypes
  import opened Widening
  import opened Declarations

  type Defs = map<string, Schema>

  // ---------- enum constants ----------

  ghost predicate DistinctConstants(constants: seq<(string, string)>) {
    forall i, j :: 0 <= i < j < |constants| ==> constants[i].0 != constants[j].0
  }

  /** One constant a value, in order, each under a name of its own. */
  ghost predicate Constants(naming: Naming, constants: seq<(string, string)>, prefix: string, values: seq<string>) {
    |constants| == |values| && DistinctConstants(constants) &&
    forall i :: 0 <= i < |values| ==>
      constants[i].1 == values[i] && NamedAfter(constants, prefix + naming(values[i]), i)
  }

  /** A constant has its stem for a name; underscores follow only if an earlier constant has that name already. */
  predicate NamedAfter(constants: seq<(string, string)>, stem: string, i: nat)
    requires i < |constants|
  {
    stem <= constants[i].0 && (forall c :: c in constants[i].0[|stem|..] ==> c == '_') &&
    (constants[i].0 == stem || exists j :: 0 <= j < i && constants[j].0 == stem)
  }

  ghost function AtLeast(used: set<string>, n: nat): set<string> {
    set u | u in used && |u| >= n
  }

  lemma LongerAreFewer(used: set<string>, name: string)
    requires name in used
    ensures AtLeast(used, |name| + 1) < AtLeast(used, |name|)
  {
    assert name in AtLeast(used, |name|);
  }

  /** uniqueEnumName: underscores are added until the name is free. */
  method UniqueEnumName(naming: Naming, prefix: string, wire: string, used: set<string>) returns (name: string)
    ensures var stem := prefix + naming(wire);
      name !in used && stem <= name && (forall c :: c in name[|stem|..] ==> c == '_') && (stem !in used ==> name == stem)
  {
    name := prefix + naming(wire);
    var stem := name;
    while name in used
      invariant stem <= name && (forall c :: c in name[|stem|..] ==> c == '_') && (stem !in used ==> name == stem)
      decreases AtLeast(used, |name|)
    {
      LongerAreFewer(used, name);
      assert (name + "_")[|stem|..] == name[|stem|..] + "_";
      name := name + "_";
    }
  }

  lemma ConstantsSnoc(naming: Naming, constants: seq<(string, string)>, prefix: string, values: seq<string>, v: string,
                      name: string, used: set<string>)
    requires Constants(naming, constants, prefix, values) && AreNames(used, constants) && name !in used
    requires var stem := prefix + naming(v);
      stem <= name && (forall c :: c in name[|stem|..] ==> c == '_') && (stem !in used ==> name == stem)
    ensures Constants(naming, constants + [(name, v)], prefix, values + [v]) && AreNames(used + {name}, constants + [(name, v)])
  {
    var more := constants + [(name, v)];
    NamesSnoc(used, constants, (name, v));
    forall i | 0 <= i < |more|
      ensures more[i].1 == (values + [v])[i] && NamedAfter(more, prefix + naming((values + [v])[i]), i)
    {
      if i < |constants| {
        assert NamedAfter(constants, prefix + naming(values[i]), i);
        StillNamedAfter(constants, (name, v), prefix + naming(values[i]), i);
      } else if name != prefix + naming(v) {
        var j :| 0 <= j < |constants| && constants[j].0 == prefix + naming(v);
        assert more[j] == constants[j];
      }
    }
  }

  ghost predicate AreNames(used: set<string>, constants: seq<(string, string)>) {
    forall u :: u in used <==> exists j :: 0 <= j < |constants| && constants[j].0 == u
  }

  lemma NamesSnoc(used: set<string>, constants: seq<(string, string)>, c: (string, string))
    requires AreNames(used, constants)
    ensures AreNames(used + {c.0}, constants + [c])
  {
    var more := constants + [c];
    forall u
      ensures u in used + {c.0} <==> exists j :: 0 <= j < |more| && more[j].0 == u
    {
      if u == c.0 {
        assert more[|constants|].0 == u;
      }
      if j :| 0 <= j < |constants| && constants[j].0 == u {
        assert more[j].0 == u;
      }
    }
  }

  lemma StillNamedAfter(constants: seq<(string, string)>, c: (string, string), stem: string, i: nat)
    requires i < |constants| && NamedAfter(constants, stem, i)
    ensures NamedAfter(constants + [c], stem, i)
  {
    if constants[i].0 != stem {
      var j :| 0 <= j < i && constants[j].0 == stem;
      assert (constants + [c])[j] == constants[j];
    }
  }

  /** The constant for one more value. */
  method NextConstant(naming: Naming, prefix: string, constants: seq<(string, string)>, used: set<string>,
                      ghost values: seq<string>, v: string)
    returns (name: string)
    requires Constants(naming, constants, prefix, values) && AreNames(used, constants)
    ensures Constants(naming, constants + [(name, v)], prefix, values + [v]) && AreNames(used + {name}, constants + [(name, v)])
  {
    name := UniqueEnumName(naming, prefix, v, used);
    ConstantsSnoc(naming, constants, prefix, values, v, name, used);
  }

  method RenderConstants(naming: Naming, prefix: string, values: seq<string>) returns (constants: seq<(string, string)>)
    ensures Constants(naming, constants, prefix, values)
  {
    constants := [];
    var used: set<string> := {};
    for i := 0 to |values|
      invariant Constants(naming, constants, prefix, values[..i])
      invariant AreNames(used, constants)
    {
      var name := NextConstant(naming, prefix, constants, used, values[..i], values[i]);
      assert values[..i + 1] == values[..i] + [values[i]];
      used := used + {name};
      constants := constants + [(name, values[i])];
    }
    assert values[..|values|] == values;
  }

  function Texts(literals: seq<Json>): seq<string> {
    if literals == [] then []
    else
      var before := Texts(literals[..|literals| - 1]);
      var last := literals[|literals| - 1];
      if last.JString? then before + [last.text] else before
  }

  function AddNew(values: seq<string>, more: seq<string>): seq<string> {
    if more == [] then values
    else
      var before := AddNew(values, more[..|more| - 1]);
      var last := more[|more| - 1];
      if last in before then before else before + [last]
  }

  /** The values of every arm, each the first time it appears. */
  function ArmTexts(arms: seq<Schema>): seq<string> {
    if arms == [] then [] else AddNew(ArmTexts(arms[..|arms| - 1]), Texts(arms[|arms| - 1].enum))
  }

  /** Every string of every arm, in order and as often as it appears. */
  function AllTexts(arms: seq<Schema>): seq<string> {
    if arms == [] then [] else AllTexts(arms[..|arms| - 1]) + Texts(arms[|arms| - 1].enum)
  }

  /** At some place there is an a, and up to there no b. */
  predicate Precedes(all: seq<string>, a: string, b: string) {
    exists k :: 0 <= k < |all| && all[k] == a && b !in all[..k + 1]
  }

  /** Each value once, in the order of first appearance. */
  ghost predicate FirstAppearances(values: seq<string>, all: seq<string>) {
    (forall v :: v in values <==> v in all) &&
    forall i, j :: 0 <= i < j < |values| ==> values[i] != values[j] && Precedes(all, values[i], values[j])
  }

  lemma StillPrecedes(all: seq<string>, v: string, a: string, b: string)
    requires Precedes(all, a, b)
    ensures Precedes(all + [v], a, b)
  {
    var k :| 0 <= k < |all| && all[k] == a && b !in all[..k + 1];
    assert (all + [v])[k] == a && (all + [v])[..k + 1] == all[..k + 1];
  }

  lemma NewcomerIsLast(all: seq<string>, v: string, a: string)
    requires a in all && v !in all
    ensures Precedes(all + [v], a, v)
  {
    var k :| 0 <= k < |all| && all[k] == a;
    assert (all + [v])[k] == a && (all + [v])[..k + 1] == all[..k + 1];
  }

  lemma OneMoreAppears(values: seq<string>, all: seq<string>, v: string)
    requires FirstAppearances(values, all)
    ensures FirstAppearances(if v in values then values else values + [v], all + [v])
  {
    var more := if v in values then values else values + [v];
    forall i, j | 0 <= i < j < |more|
      ensures more[i] != more[j] && Precedes(all + [v], more[i], more[j])
    {
      assert more[i] in values;
      if j < |values| {
        StillPrecedes(all, v, values[i], values[j]);
      } else {
        NewcomerIsLast(all, v, values[i]);
      }
    }
  }

  lemma LastApart(all: seq<string>, more: seq<string>)
    requires more != []
    ensures all + more == all + more[..|more| - 1] + [more[|more| - 1]]
  {
  }

  lemma {:induction false} NewOnesAppear(values: seq<string>, all: seq<string>, more: seq<string>)
    requires FirstAppearances(values, all)
    ensures FirstAppearances(AddNew(values, more), all + more)
  {
    if more == [] {
      assert all + more == all;
    } else {
      var n := |more| - 1;
      NewOnesAppear(values, all, more[..n]);
      OneMoreAppears(AddNew(values, more[..n]), all + more[..n], more[n]);
      LastApart(all, more);
    }
  }

  /** The constants of an enum union: each string of its arms once, in the order of first appearance. */
  lemma {:induction false} ArmTextsAppear(arms: seq<Schema>)
    ensures FirstAppearances(ArmTexts(arms), AllTexts(arms))
  {
    if arms != [] {
      var n := |arms| - 1;
      ArmTextsAppear(arms[..n]);
      NewOnesAppear(ArmTexts(arms[..n]), AllTexts(arms[..n]), Texts(arms[n].enum));
    }
  }

  /** The values of an enum union's arms, skipping what is no string or was seen before. */
  method CollectValues(arms: seq<Schema>) returns (values: seq<string>)
    ensures values == ArmTexts(arms) && FirstAppearances(values, AllTexts(arms))
  {
    values := [];
    for i := 0 to |arms|
      invariant values == ArmTexts(arms[..i])
    {
      assert arms[..i + 1][..i] == arms[..i];
      var literals := arms[i].enum;
      ghost var before := values;
      for j := 0 to |literals|
        invariant values == AddNew(before, Texts(literals[..j]))
      {
        assert literals[..j + 1][..j] == literals[..j];
        if literals[j].JString? {
          AddNewSnoc(before, Texts(literals[..j]), literals[j].text);
          if literals[j].text !in values {
            values := values + [literals[j].text];
          }
        }
      }
      assert literals[..|literals|] == literals;
    }
    assert arms[..|arms|] == arms;
    ArmTextsAppear(arms);
  }

  lemma AddNewSnoc(values: seq<string>, more: seq<string>, v: string)
    ensures AddNew(values, more + [v]) ==
      if v in AddNew(values, more) then AddNew(values, more) else AddNew(values, more) + [v]
  {
    assert (more + [v])[..|more|] == more;
  }

  // ---------- taggedUnion ----------

  method TaggedUnion(s: Schema) returns (tag: Option<string>)
    ensures IsTagOf(s, tag)
  {
    var arms := s.oneOf;
    if |arms| < 2 {
      return None;
    }
    var common: set<string> := {};
    for i := 0 to |arms|
      invariant i > 0 ==> common == CommonTags(arms[..i])
    {
      assert arms[..i + 1][..i] == arms[..i];
      var here := SingleEnums(arms[i]);
      if here == {} {
        NoTagWithoutArm(arms, i);
        return None;
      }
      common := if i == 0 then here else common * here;
    }
    assert arms[..|arms|] == arms;
    var keys := SortedKeys(common);
    if keys == [] {
      return None;
    }
    tag := Some(keys[0]);
    forall n | n in common
      ensures n == keys[0] || Less(keys[0], n)
    {
      assert n in Elements(keys);
      var j :| 0 <= j < |keys| && keys[j] == n;
    }
    assert keys[0] in Elements(keys);
  }

  lemma {:induction false} NoTagWithoutArm(arms: seq<Schema>, i: nat)
    requires i < |arms| && SingleEnums(arms[i]) == {}
    ensures CommonTags(arms) == {}
  {
    if |arms| > 1 && i < |arms| - 1 {
      NoTagWithoutArm(arms[..|arms| - 1], i);
    }
  }

  // ---------- what a definition should become ----------

  /** The strings of the tag property's enum in some arms. */
  function TagValues(arms: seq<Schema>, tag: string): set<string> {
    set arm, p, v | arm in arms && p in arm.properties && p.name == tag && v in p.schema.enum && v.JString? :: v.text
  }

  const TAG_SUFFIX := "Type"

  /** The struct of a tagged union: the tag, then every other property once. */
  ghost predicate FlatStruct(naming: Naming, kind: GoType -> Kind, d: Decl, name: string, s: Schema, tag: string) {
    d.Struct? && d.name == name && d.fields != [] && d.fields[0] == Field(tag, Named(name + TAG_SUFFIX), false) &&
    FlattensTo(kind, Flat(s.oneOf, tag), InUnion(naming, name), d.fields[1..])
  }

  /** The type of its tag: each value the arms give it, once and in order. */
  ghost predicate TagEnum(naming: Naming, d: Decl, name: string, s: Schema, tag: string) {
    d.Enum? && d.name == name + TAG_SUFFIX &&
    exists values :: Increasing(values) && Elements(values) == TagValues(s.oneOf, tag) && Constants(naming, d.constants, d.name, values)
  }

  /** The declaration a definition gets, by the first of the five cases that applies. */
  ghost predicate Describes(naming: Naming, kind: GoType -> Kind, d: Decl, name: string, s: Schema,
                            tag: Option<string>) {
    d.name == name &&
    if s.enum != [] && IsStringEnum(s) then d.Enum? && Constants(naming, d.constants, name, Texts(s.enum))
    else if EnumUnion(s) then d.Enum? && Constants(naming, d.constants, name, ArmTexts(Arms(s)))
    else if tag.Some? then FlatStruct(naming, kind, d, name, s, tag.value)
    else if s.properties != [] then d == Struct(name, FieldsOf(s.properties, Under(naming, name), s.required))
    else d == Declared(name, GoTypeOf(s, PlaceName(naming, name, "")).typ)
  }

  /** In every arm the property of that name is an enum of one value. */
  ghost predicate IsTagIn(arms: seq<Schema>, name: string) {
    forall arm :: arm in arms ==> exists p :: p in arm.properties && p.name == name && |p.schema.enum| == 1
  }

  lemma {:induction false} CommonTagsAre(arms: seq<Schema>, name: string)
    requires arms != []
    ensures name in CommonTags(arms) <==> IsTagIn(arms, name)
  {
    var n := |arms| - 1;
    assert name in SingleEnums(arms[n]) <==> exists p :: p in arms[n].properties && p.name == name && |p.schema.enum| == 1;
    assert forall arm :: arm in arms <==> arm in arms[..n] || arm == arms[n];
    if n > 0 {
      CommonTagsAre(arms[..n], name);
    }
  }

  /** The discriminator of a union of two or more arms is the least such name; there is one if there is any. */
  lemma TagIsLeast(s: Schema, tag: Option<string>)
    requires IsTagOf(s, tag)
    ensures tag.Some? <==> |s.oneOf| >= 2 && exists n :: IsTagIn(s.oneOf, n)
    ensures tag.Some? ==> IsTagIn(s.oneOf, tag.value) && forall n :: IsTagIn(s.oneOf, n) ==> n == tag.value || Less(tag.value, n)
  {
    if |s.oneOf| >= 2 {
      forall n
        ensures n in CommonTags(s.oneOf) <==> IsTagIn(s.oneOf, n)
      {
        CommonTagsAre(s.oneOf, n);
      }
      if n :| n in CommonTags(s.oneOf) {
        assert IsTagIn(s.oneOf, n);
      }
    }
  }

  /** A definition whose values are text: its own enum, or that of every arm. */
  predicate IsTextDefinition(s: Schema) {
    (s.enum != [] && (StringType in s.types || (s.types == [] && forall v :: v in s.enum ==> v.JString?))) ||
    AllTextEnums(if s.oneOf != [] then s.oneOf else s.anyOf)
  }

  /** Which definitions become types with constants, and which become structs. */
  lemma DeclaredByCase(naming: Naming, kind: GoType -> Kind, d: Decl, name: string, s: Schema, tag: Option<string>)
    requires IsTagOf(s, tag) && Describes(naming, kind, d, name, s, tag)
    ensures d.name == name && (d.Enum? <==> IsTextDefinition(s))
    ensures d.Struct? <==>
      !IsTextDefinition(s) && (s.properties != [] || (|s.oneOf| >= 2 && exists n :: IsTagIn(s.oneOf, n)))
  {
    TagIsLeast(s, tag);
  }

  /** The case of a tagged union: flattened, with a type for its tag. */
  predicate IsFlattened(s: Schema) {
    !(s.enum != [] && IsStringEnum(s)) && !EnumUnion(s) && |s.oneOf| >= 2 && CommonTags(s.oneOf) != {}
  }

  /** The tag of a flattened union has its type declared. */
  ghost predicate HasTag(naming: Naming, out: seq<Decl>, name: string, s: Schema, tag: Option<string>) {
    IsFlattened(s) && tag.Some? ==> exists e :: e in out && TagEnum(naming, e, name, s, tag.value)
  }

  /** The unnamed objects that rendering a definition comes upon. */
  function Found(naming: Naming, name: string, s: Schema, tag: Option<string>): seq<Inline> {
    if (s.enum != [] && IsStringEnum(s)) || EnumUnion(s) then []
    else if tag.Some? then InlinesOf(Flat(s.oneOf, tag.value), InUnion(naming, name))
    else if s.properties != [] then InlinesOf(s.properties, Under(naming, name))
    else InlineOf(Property("", s), PlaceName(naming, name, ""))
  }

  predicate Listed(found: seq<Inline>, inline: seq<Inline>) {
    forall it :: it in found ==> it in inline
  }

  /** A declaration is what the definition asks for, and the unnamed objects it mentions are on the list. */
  ghost predicate WellDeclared(naming: Naming, kind: GoType -> Kind, out: seq<Decl>, inline: seq<Inline>, d: Decl,
                               name: string, s: Schema) {
    d in out && exists tag ::
      IsTagOf(s, tag) && Describes(naming, kind, d, name, s, tag) && HasTag(naming, out, name, s, tag) &&
      Listed(Found(naming, name, s, tag), inline)
  }

  function GoNames(naming: Naming, names: set<string>): set<string> {
    set n | n in names :: naming(n)
  }

  /** Every reference in every definition names one of these. */
  ghost predicate DefsResolve(defs: Defs, known: set<string>) {
    forall d :: d in defs ==> Resolves(defs[d], GoTypes.Names(known))
  }

  /** What is declared mentions only definitions, unnamed objects that are on the list, and what is declared. */
  ghost predicate Grounded(known: set<string>, out: seq<Decl>, inline: seq<Inline>) {
    (forall d :: d in out ==> UsedBy(d) <= known + InlineNames(inline) + DeclNames(out)) &&
    InlinesResolve(inline, GoTypes.Names(known))
  }

  lemma GroundedGrows(known: set<string>, out: seq<Decl>, inline: seq<Inline>, more: seq<Decl>, found: seq<Inline>)
    requires Grounded(known, out, inline)
    requires forall d :: d in more ==> UsedBy(d) <= known + InlineNames(found) + DeclNames(more)
    requires InlinesResolve(found, GoTypes.Names(known))
    ensures Grounded(known, out + more, inline + found)
    ensures DeclNames(out + more) == DeclNames(out) + DeclNames(more)
  {
    InlineNamesAdd(inline, found);
    assert DeclNames(out + more) == DeclNames(out) + DeclNames(more);
    forall d | d in out + more
      ensures UsedBy(d) <= known + InlineNames(inline + found) + DeclNames(out + more)
    {
      assert d in out || d in more;
    }
  }

  /** No definition has the name of a flattened one's tag type. */
  predicate TagNamesFree(naming: Naming, defs: Defs) {
    forall d, e :: d in defs && e in defs && IsFlattened(defs[e]) ==> naming(d) != naming(e) + TAG_SUFFIX
  }

  /** Of the definitions with its Go name, the one that comes first in order. */
  ghost predicate IsFirst(naming: Naming, names: set<string>, d: string) {
    d in names && forall e :: e in names && naming(e) == naming(d) ==> e == d || Less(d, e)
  }

  /** Every name is declared once. */
  ghost predicate DeclaredOnce(out: seq<Decl>) {
    forall i, j :: 0 <= i < j < |out| ==> out[i].name != out[j].name
  }

  lemma DeclaredOnceSnoc(out: seq<Decl>, d: Decl)
    requires DeclaredOnce(out) && d.name !in DeclNames(out)
    ensures DeclaredOnce(out + [d])
  {
    forall i | 0 <= i < |out|
      ensures out[i].name != d.name
    {
      assert out[i] in out;
    }
  }

  /** Something was declared as the definition asks. */
  ghost predicate HasDecl(naming: Naming, kind: GoType -> Kind, out: seq<Decl>, inline: seq<Inline>, name: string,
                          s: Schema) {
    exists d :: WellDeclared(naming, kind, out, inline, d, name, s)
  }

  /** Every definition that comes first under its Go name is declared as it asks. */
  ghost predicate AllDeclared(
      naming: Naming, kind: GoType -> Kind, out: seq<Decl>, inline: seq<Inline>, defs: Defs, done: set<string>) {
    forall d {:trigger HasDecl(naming, kind, out, inline, naming(d), defs[d])} ::
      d in done && d in defs && IsFirst(naming, defs.Keys, d) ==> HasDecl(naming, kind, out, inline, naming(d), defs[d])
  }

  /** An unnamed object has a struct of its fields, and those it mentions itself are on the list. */
  ghost predicate HasStruct(naming: Naming, out: seq<Decl>, inline: seq<Inline>, it: Inline) {
    Struct(it.name, FieldsOf(it.schema.properties, Under(naming, it.name), it.schema.required)) in out &&
    Listed(InlinesOf(it.schema.properties, Under(naming, it.name)), inline)
  }

  /** What was rendered: a declaration for every definition and for every unnamed object one of its own. */
  ghost predicate Rendered(naming: Naming, kind: GoType -> Kind, defs: Defs, out: seq<Decl>, inline: seq<Inline>) {
    AllDeclared(naming, kind, out, inline, defs, defs.Keys) &&
    forall it :: it in inline ==> HasStruct(naming, out, inline, it)
  }

  // ---------- aliases of unnamed objects ----------

  /**
    An alias asks for its target under its own name. So if its schema ends in an unnamed object, the
    alias mentions itself and the object, whose name is taken, is never declared; and references to
    other names apart, an alias mentions itself only then.
   */
  lemma AliasOfObjectMentionsItself(d: string, s: Schema, others: set<string>)
    requires Resolves(s, GoTypes.Names(others)) && ExportName(d) !in others
    ensures var name := ExportName(d);
      var target := GoTypeOf(s, PlaceName(ExportName, name, ""));
      (name in Mentions(target.typ) <==> EndsInObject(s)) &&
      (EndsInObject(s) ==> target.inline.Some? && target.inline.value.name == name)
  {
    var name := ExportName(d);
    ExportIsIdempotent(d);
    assert name + "_" + "" == name + "_";
    InlineIffObject(s, name);
    if EndsInObject(s) {
      InlineIsNamed(s, name);
    } else {
      MentionsResolve(s, name, others);
    }
  }

  /** An object with one property, wrapped in an allOf of one arm. */
  const WRAPPED_OBJECT :=
    PERMISSIVE.(allOf := [PERMISSIVE.(types := [ObjectType], properties := [Property("a", PERMISSIVE)])])

  /** The shortest such alias: its declaration is `type X X`. */
  lemma WrappedObjectIsSelfAlias(naming: Naming, kind: GoType -> Kind, name: string, d: Decl)
    requires naming(name + "_" + "") == name
    ensures IsTagOf(WRAPPED_OBJECT, None)
    ensures Describes(naming, kind, d, name, WRAPPED_OBJECT, None) <==> d == Defined(name, Named(name))
  {
    var inner := WRAPPED_OBJECT.allOf[0];
    assert Base(WRAPPED_OBJECT) == inner;
    assert InnerOf(inner) == None && ConcreteType(inner.types) == ObjectType;
    assert GoTypeOf(WRAPPED_OBJECT, name).typ == Named(name);
  }
}
