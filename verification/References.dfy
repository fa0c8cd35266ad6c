/** Definitions that are references and nothing else: what is left at the end of their chains. */
module References {
  import opened Names
  import opened Options
  import opened Schemas
  import opened GoTypes
  import opened Widening
  import opened Declarations
  import opened ProtocolTypes
  import opened Decoding
  import opened TaggedUnions
  import opened Soundness

  // ---------- chains of definitions ----------

  /** Where a chain of references ends: at no definition, at one rendered as raw JSON, or at any other. */
  datatype ChainEnd = Missing | RawJson | OwnType

  /** The definition that is declared under a Go name. */
  ghost function FirstOf(naming: Naming, defs: Defs, name: string): (d: Option<string>)
    ensures d.Some? ==> IsFirst(naming, defs.Keys, d.value) && naming(d.value) == name
    ensures d.None? ==> forall e :: IsFirst(naming, defs.Keys, e) ==> naming(e) != name
  {
    if e :| IsFirst(naming, defs.Keys, e) && naming(e) == name then Some(e) else None
  }

  lemma FirstIsOne(naming: Naming, names: set<string>, d: string, e: string)
    requires IsFirst(naming, names, d) && IsFirst(naming, names, e) && naming(d) == naming(e)
    ensures d == e
  {
    if d != e {
      LessTransitive(d, e, d);
      LessIrreflexive(d);
    }
  }

  function LookAtChain(s: Schema): Look<ChainEnd> {
    if RefersOn(s) then Next(RefName(RefOf(s))) else Settled(if IsRawAlias(s) then RawJson else OwnType)
  }

  ghost function ChainLook(naming: Naming, defs: Defs): (look: string -> Look<ChainEnd>)
    ensures Leads(look, GoNames(naming, defs.Keys))
    ensures forall d :: IsFirst(naming, defs.Keys, d) ==> look(naming(d)) == LookAtChain(defs[d])
  {
    ChainLookIsFirst(naming, defs);
    (name: string) =>
      var d := FirstOf(naming, defs, name);
      if d.None? then Settled(Missing) else LookAtChain(defs[d.value])
  }

  lemma ChainLookIsFirst(naming: Naming, defs: Defs)
    ensures forall d :: IsFirst(naming, defs.Keys, d) ==> FirstOf(naming, defs, naming(d)) == Some(d)
  {
    forall d | IsFirst(naming, defs.Keys, d)
      ensures FirstOf(naming, defs, naming(d)) == Some(d)
    {
      FirstIsOne(naming, defs.Keys, d, FirstOf(naming, defs, naming(d)).value);
    }
  }

  /** The end of a definition's chain, if it does not come back to a name it has passed. */
  ghost function EndOf(naming: Naming, defs: Defs, d: string): Option<ChainEnd> {
    SettlesAt(ChainLook(naming, defs), GoNames(naming, defs.Keys), naming(d), {})
  }

  /** What a type defined as the end of a chain decodes of the values that suit it. */
  predicate EndTakes(end: Option<ChainEnd>, v: Json) {
    match end
    case Some(OwnType) => true
    case Some(RawJson) => BytesTake(v)
    case _ => v.JNull?
  }

  // ---------- chains of declarations ----------

  /** A reference leads to a definition that was declared, and is followed by values that suit it. */
  ghost predicate RefersTo(naming: Naming, defs: Defs, refs: Referred, ref: string, w: Json) {
    exists d :: IsFirst(naming, defs.Keys, d) && d in defs && naming(d) == RefName(ref) && Suits(naming, defs[d], w, refs)
  }

  /** What a name means bounds the kinds, and rules out nothing that the definitions admit. */
  ghost predicate Meaning(naming: Naming, kind: GoType -> Kind, defs: Defs, inline: seq<Inline>, refs: Referred,
                          means: NamedTypes) {
    Sane(kind) && KindSound(kind, means) &&
    (forall ref, w :: refs(ref, w) ==> means(RefName(ref), w)) &&
    (forall ref, w {:trigger RefersTo(naming, defs, refs, ref, w)} :: refs(ref, w) ==> RefersTo(naming, defs, refs, ref, w)) &&
    (forall it, w :: it in inline ==> means(it.name, w)) &&
    (forall d, w :: d in defs && IsFlattened(defs[d]) ==> means(naming(d) + TAG_SUFFIX, w))
  }

  /** Every definition passes its check. */
  ghost predicate AllFit(naming: Naming, defs: Defs) {
    forall d, tag :: d in defs && IsFirst(naming, defs.Keys, d) && IsTagOf(defs[d], tag) ==> DefinitionFits(defs[d], tag)
  }

  /** The tags of flattened unions decode. */
  ghost predicate EnumsDecode(out: seq<Decl>, named: NamedTypes) {
    forall e, w :: e in out && e.Enum? && ConstantOf(e.constants, w) ==> named(e.name, w)
  }

  /** What was rendered from definitions that pass their checks, and what is known of the types it mentions. */
  ghost predicate GoodOutput(naming: Naming, kind: GoType -> Kind, defs: Defs, out: seq<Decl>, inline: seq<Inline>,
                             refs: Referred, means: NamedTypes, below: NamedTypes) {
    Rendered(naming, kind, defs, out, inline) && Meaning(naming, kind, defs, inline, refs, means) && AllFit(naming, defs) &&
    (forall it :: it in inline ==> StructFits(it.schema)) && NamedDecode(naming, below, refs, inline) && EnumsDecode(out, below)
  }

  function Within(named: NamedTypes, means: NamedTypes): NamedTypes {
    (name: string, v: Json) => named(name, v) && means(name, v)
  }

  lemma {:induction false} WiderDecodesMore(a: NamedTypes, b: NamedTypes, typ: GoType, v: Json)
    requires (forall n, w :: a(n, w) ==> b(n, w)) && Decodes(a, typ, v)
    ensures Decodes(b, typ, v)
    decreases typ
  {
    if !v.JNull? {
      match typ
      case Slice(elem) =>
        forall e | e in v.elems
          ensures Decodes(b, elem, e)
        {
          WiderDecodesMore(a, b, elem, e);
        }
      case MapOf(elem) =>
        forall m | m in v.members
          ensures Decodes(b, elem, m.value)
        {
          WiderDecodesMore(a, b, elem, m.value);
        }
      case _ =>
    }
  }

  lemma WiderDeclDecodesMore(a: NamedTypes, b: NamedTypes, d: Decl, v: Json)
    requires (forall n, w :: a(n, w) ==> b(n, w)) && OwnDecodes(a, d, v)
    ensures OwnDecodes(b, d, v)
  {
    match d
    case Enum(_, _) =>
    case Alias(_, target) => WiderDecodesMore(a, b, target, v);
    case Defined(_, target) => WiderDecodesMore(a, b, target, v);
    case Struct(_, fields) =>
      forall m | m in v.members && Meets(Keys(fields), m.name).Some?
        ensures Decodes(b, fields[Meets(Keys(fields), m.name).value].typ, m.value)
      {
        WiderDecodesMore(a, b, fields[Meets(Keys(fields), m.name).value].typ, m.value);
      }
  }

  lemma GoodWithin(naming: Naming, kind: GoType -> Kind, defs: Defs, inline: seq<Inline>, refs: Referred,
                   means: NamedTypes, below: NamedTypes)
    requires Meaning(naming, kind, defs, inline, refs, means) && NamedDecode(naming, below, refs, inline)
    ensures NamedDecode(naming, Within(below, means), refs, inline) && KindSound(kind, Within(below, means))
  {
  }

  lemma DeclarationOf(naming: Naming, kind: GoType -> Kind, defs: Defs, out: seq<Decl>, inline: seq<Inline>, d: string)
    returns (decl: Decl, tag: Option<string>)
    requires Rendered(naming, kind, defs, out, inline) && d in defs && IsFirst(naming, defs.Keys, d)
    ensures decl in out && IsTagOf(defs[d], tag) && Describes(naming, kind, decl, naming(d), defs[d], tag)
    ensures HasTag(naming, out, naming(d), defs[d], tag) && Listed(Found(naming, naming(d), defs[d], tag), inline)
  {
    assert HasDecl(naming, kind, out, inline, naming(d), defs[d]);
    decl :| WellDeclared(naming, kind, out, inline, decl, naming(d), defs[d]);
    tag :| IsTagOf(defs[d], tag) && Describes(naming, kind, decl, naming(d), defs[d], tag) &&
           HasTag(naming, out, naming(d), defs[d], tag) && Listed(Found(naming, naming(d), defs[d], tag), inline);
  }

  lemma TagTypeOf(naming: Naming, out: seq<Decl>, below: NamedTypes, means: NamedTypes, decl: Decl, name: string,
                  s: Schema, tag: Option<string>)
    returns (e: Decl)
    requires EnumsDecode(out, below) && HasTag(naming, out, name, s, tag)
    requires IsFlattened(s) ==> forall w :: means(name + TAG_SUFFIX, w)
    ensures TagIsDeclared(naming, Within(below, means), e, name, s, tag)
  {
    e := decl;
    if IsFlattened(s) && tag.Some? {
      e :| e in out && TagEnum(naming, e, name, s, tag.value);
    }
  }

  /** The unnamed object that a declaration is defined as. */
  ghost predicate WrapsObject(naming: Naming, inline: seq<Inline>, target: string, v: Json, refs: Referred) {
    exists it :: it in inline && it.name == target && FitsObject(naming, it.schema, v, refs)
  }

  /** One declaration of the output and one value: as it says itself, or as what it is defined as. */
  ghost predicate Declares(naming: Naming, decl: Decl, s: Schema, inline: seq<Inline>, v: Json, refs: Referred,
                           below: NamedTypes) {
    (decl.Alias? <==> IsRawAlias(s)) &&
    if RefersOn(s) then
      decl.Defined? && decl.target == Named(RefName(RefOf(s))) && refs(RefOf(s), v)
    else if IsReference(decl) then WrapsObject(naming, inline, decl.target.name, v, refs)
    else OwnDecodes(below, decl, v)
  }

  lemma PointedAt(naming: Naming, d: Decl, name: string, s: Schema, tag: Option<string>, inline: seq<Inline>, v: Json,
                  refs: Referred)
    requires IsReference(d) && !RefersOn(s) && PointsTo(naming, d, name, s, v, refs) && IsAliased(s) && IsTagOf(s, tag)
    requires Listed(Found(naming, name, s, tag), inline)
    ensures WrapsObject(naming, inline, d.target.name, v, refs)
  {
    TaggedOrNot(s, tag);
    var t := GoTypeOf(s, PlaceName(naming, name, ""));
    InlineIsNamed(s, PlaceName(naming, name, ""));
    assert t.inline.value in InlineOf(Property("", s), PlaceName(naming, name, ""));
    assert Mentions(t.typ) == {t.inline.value.name};
  }

  /** One definition, if what it mentions decodes. */
  lemma DefinitionDeclares(naming: Naming, kind: GoType -> Kind, defs: Defs, out: seq<Decl>, inline: seq<Inline>,
                           refs: Referred, means: NamedTypes, below: NamedTypes, d: string, v: Json)
    returns (decl: Decl)
    requires GoodOutput(naming, kind, defs, out, inline, refs, means, below)
    requires d in defs && IsFirst(naming, defs.Keys, d) && Suits(naming, defs[d], v, refs) && !v.JNull?
    ensures decl in out && decl.name == naming(d) && Declares(naming, decl, defs[d], inline, v, refs, below)
  {
    GoodWithin(naming, kind, defs, inline, refs, means, below);
    var tag: Option<string>;
    decl, tag := DeclarationOf(naming, kind, defs, out, inline, d);
    DeclaredAs(naming, kind, decl, naming(d), defs[d], tag);
    var e := TagTypeOf(naming, out, below, means, decl, naming(d), defs[d], tag);
    DefinitionIsSound(naming, kind, decl, e, naming(d), defs[d], tag, v, refs, Within(below, means), inline);
    if !IsReference(decl) {
      WiderDeclDecodesMore(Within(below, means), below, decl, v);
    } else if !RefersOn(defs[d]) {
      PointedAt(naming, decl, naming(d), defs[d], tag, inline, v, refs);
    }
  }

  lemma InlineDecodes(naming: Naming, kind: GoType -> Kind, defs: Defs, out: seq<Decl>, inline: seq<Inline>,
                      refs: Referred, below: NamedTypes, it: Inline, v: Json) returns (decl: Decl)
    requires Rendered(naming, kind, defs, out, inline) && NamedDecode(naming, below, refs, inline)
    requires it in inline && StructFits(it.schema) && FitsObject(naming, it.schema, v, refs)
    ensures decl in out && decl.Struct? && decl.name == it.name && (v.JNull? || OwnDecodes(below, decl, v))
  {
    assert HasStruct(naming, out, inline, it);
    StructDecodes(naming, it.name, it.schema, v, refs, below, inline);
    decl := Struct(it.name, FieldsOf(it.schema.properties, Under(naming, it.name), it.schema.required));
  }

  /** What a type is defined as is declared, if it is an unnamed object. */
  lemma WrappedObjectEnds(naming: Naming, kind: GoType -> Kind, defs: Defs, out: seq<Decl>, inline: seq<Inline>,
                          refs: Referred, means: NamedTypes, below: NamedTypes, target: string, v: Json)
    returns (e: Decl)
    requires GoodOutput(naming, kind, defs, out, inline, refs, means, below)
    requires WrapsObject(naming, inline, target, v, refs) && !v.JNull?
    ensures e in out && e.name == target && e.Struct? && EndsIn(out, target, e, 0) && OwnDecodes(below, e, v)
  {
    var it :| it in inline && it.name == target && FitsObject(naming, it.schema, v, refs);
    e := InlineDecodes(naming, kind, defs, out, inline, refs, below, it, v);
  }

  // ---------- one chain ----------

  /** A name that stands for a value: that of a definition it suits. */
  ghost predicate StandsFor(naming: Naming, defs: Defs, refs: Referred, v: Json, name: string) {
    exists d :: d in defs && IsFirst(naming, defs.Keys, d) && naming(d) == name && Suits(naming, defs[d], v, refs)
  }

  ghost function Standing(naming: Naming, defs: Defs, refs: Referred, v: Json): (stands: string -> bool)
    ensures forall n :: stands(n) <==> StandsFor(naming, defs, refs, v, n)
  {
    (name: string) => StandsFor(naming, defs, refs, v, name)
  }

  ghost predicate Ends(out: seq<Decl>, below: NamedTypes, name: string, v: Json, end: ChainEnd) {
    exists e, k: nat :: EndsIn(out, name, e, k) && OwnDecodes(below, e, v) && end == if e.Alias? then RawJson else OwnType
  }

  /** What one look at a name settles for definitions, its declaration settles for declarations. */
  ghost predicate Steps(out: seq<Decl>, below: NamedTypes, look: string -> Look<ChainEnd>, stands: string -> bool, v: Json,
                        name: string) {
    match look(name)
    case Next(n) => stands(n) && Defined(name, Named(n)) in out
    case Settled(end) => Ends(out, below, name, v, end)
  }

  ghost predicate Chained(out: seq<Decl>, below: NamedTypes, look: string -> Look<ChainEnd>, stands: string -> bool, v: Json) {
    forall n {:trigger Steps(out, below, look, stands, v, n)} :: stands(n) ==> Steps(out, below, look, stands, v, n)
  }

  lemma OneMoreTarget(out: seq<Decl>, d: Decl, e: Decl, steps: nat)
    requires d in out && IsReference(d) && EndsIn(out, d.target.name, e, steps)
    ensures EndsIn(out, d.name, e, steps + 1)
  {
  }

  /** Where a chain of references ends so does the chain of its declarations, and the end decodes the value. */
  lemma {:induction false} ChainReaches(out: seq<Decl>, below: NamedTypes, look: string -> Look<ChainEnd>,
                                        stands: string -> bool, v: Json, name: string, steps: nat)
    returns (e: Decl, k: nat)
    requires Chained(out, below, look, stands, v) && stands(name) && SettlesWithin(look, name, steps).Some?
    ensures EndsIn(out, name, e, k) && OwnDecodes(below, e, v)
    ensures SettlesWithin(look, name, steps) == Some(if e.Alias? then RawJson else OwnType)
    decreases steps
  {
    assert Steps(out, below, look, stands, v, name);
    match look(name)
    case Next(n) =>
      e, k := ChainReaches(out, below, look, stands, v, n, steps - 1);
      OneMoreTarget(out, Defined(name, Named(n)), e, k);
      k := k + 1;
    case Settled(end) =>
      e, k :| EndsIn(out, name, e, k) && OwnDecodes(below, e, v) && end == if e.Alias? then RawJson else OwnType;
  }

  lemma OneByName(out: seq<Decl>, d: Decl, e: Decl)
    requires DeclaredOnce(out) && d in out && e in out && d.name == e.name
    ensures d == e
  {
    var i :| 0 <= i < |out| && out[i] == d;
    var j :| 0 <= j < |out| && out[j] == e;
  }

  /** The chain from a declaration's name goes by that declaration. */
  lemma EndsByTarget(out: seq<Decl>, d: Decl, e: Decl, steps: nat)
    requires DeclaredOnce(out) && d in out && EndsIn(out, d.name, e, steps)
    ensures if IsReference(d) then steps > 0 && EndsIn(out, d.target.name, e, steps - 1) else d == e
  {
    var f :| f in out && f.name == d.name &&
      if IsReference(f) then steps > 0 && EndsIn(out, f.target.name, e, steps - 1) else f == e;
    OneByName(out, d, f);
  }

  lemma {:induction false} OneEnd(out: seq<Decl>, name: string, e: Decl, steps: nat, f: Decl, k: nat)
    requires DeclaredOnce(out) && EndsIn(out, name, e, steps) && EndsIn(out, name, f, k)
    ensures e == f
    decreases steps
  {
    var d :| d in out && d.name == name &&
      if IsReference(d) then steps > 0 && EndsIn(out, d.target.name, e, steps - 1) else d == e;
    EndsByTarget(out, d, f, k);
    if IsReference(d) {
      OneEnd(out, d.target.name, e, steps - 1, f, k - 1);
    }
  }

  /** Where the chain of declarations ends so does the chain of references. */
  lemma {:induction false} ChainBack(out: seq<Decl>, below: NamedTypes, look: string -> Look<ChainEnd>,
                                     stands: string -> bool, v: Json, name: string, e: Decl, k: nat)
    requires Chained(out, below, look, stands, v) && stands(name) && DeclaredOnce(out) && EndsIn(out, name, e, k)
    ensures SettlesWithin(look, name, k) == Some(if e.Alias? then RawJson else OwnType)
    decreases k
  {
    assert Steps(out, below, look, stands, v, name);
    match look(name)
    case Next(n) =>
      EndsByTarget(out, Defined(name, Named(n)), e, k);
      ChainBack(out, below, look, stands, v, n, e, k - 1);
    case Settled(end) =>
      var f, j: nat :| EndsIn(out, name, f, j) && OwnDecodes(below, f, v) && end == if f.Alias? then RawJson else OwnType;
      OneEnd(out, name, e, k, f, j);
  }

  /** What the end of the chain of a definition takes, a type defined as the next name decodes. */
  lemma TargetDecodesExactly(out: seq<Decl>, below: NamedTypes, look: string -> Look<ChainEnd>, names: set<string>,
                             stands: string -> bool, v: Json, name: string)
    requires Chained(out, below, look, stands, v) && Leads(look, names) && stands(name) && look(name).Next? && !v.JNull?
    ensures EndTakes(SettlesAt(look, names, name, {}), v) ==> TargetDecodes(out, below, look(name).name, v)
    ensures DeclaredOnce(out) && TargetDecodes(out, below, look(name).name, v) ==> EndTakes(SettlesAt(look, names, name, {}), v)
  {
    var n := look(name).name;
    assert Steps(out, below, look, stands, v, name);
    if EndTakes(SettlesAt(look, names, name, {}), v) {
      var steps := SettledWithinSteps(look, names, name, {});
      var e, k := ChainReaches(out, below, look, stands, v, n, steps - 1);
      assert BareDecodes(below, e, v);
    }
    if DeclaredOnce(out) && TargetDecodes(out, below, n, v) {
      var e, k: nat :| EndsIn(out, n, e, k) && BareDecodes(below, e, v);
      ChainBack(out, below, look, stands, v, n, e, k);
      assert SettlesWithin(look, name, k + 1) == SettlesWithin(look, n, k);
      SettlesUnlessCircular(look, names, name);
    }
  }

  /** The same of the type itself, and of null. */
  lemma DefinedDecodesExactly(out: seq<Decl>, below: NamedTypes, look: string -> Look<ChainEnd>, names: set<string>,
                              stands: string -> bool, v: Json, name: string, target: string)
    requires Leads(look, names) && look(name) == Next(target)
    requires !v.JNull? ==> Chained(out, below, look, stands, v) && stands(name)
    ensures var decodes := DeclDecodes(out, below, Defined(name, Named(target)), v);
      var takes := EndTakes(SettlesAt(look, names, name, {}), v);
      (takes ==> decodes) && (DeclaredOnce(out) && decodes ==> takes)
  {
    if !v.JNull? {
      TargetDecodesExactly(out, below, look, names, stands, v, name);
    }
  }

  // ---------- exactly what a reference keeps ----------

  lemma NextDefinition(naming: Naming, kind: GoType -> Kind, defs: Defs, inline: seq<Inline>, refs: Referred,
                       means: NamedTypes, ref: string, v: Json)
    requires Meaning(naming, kind, defs, inline, refs, means) && refs(ref, v)
    ensures StandsFor(naming, defs, refs, v, RefName(ref))
  {
    assert RefersTo(naming, defs, refs, ref, v);
  }

  /** One name of a definition. */
  lemma NameSteps(naming: Naming, kind: GoType -> Kind, defs: Defs, out: seq<Decl>, inline: seq<Inline>, refs: Referred,
                  means: NamedTypes, below: NamedTypes, look: string -> Look<ChainEnd>, stands: string -> bool,
                  d: string, v: Json)
    requires GoodOutput(naming, kind, defs, out, inline, refs, means, below) && !v.JNull?
    requires d in defs && IsFirst(naming, defs.Keys, d) && Suits(naming, defs[d], v, refs)
    requires look(naming(d)) == LookAtChain(defs[d]) && stands == Standing(naming, defs, refs, v)
    ensures Steps(out, below, look, stands, v, naming(d))
  {
    var decl := DefinitionDeclares(naming, kind, defs, out, inline, refs, means, below, d, v);
    if RefersOn(defs[d]) {
      NextDefinition(naming, kind, defs, inline, refs, means, RefOf(defs[d]), v);
    } else if IsReference(decl) {
      var e := WrappedObjectEnds(naming, kind, defs, out, inline, refs, means, below, decl.target.name, v);
      OneMoreTarget(out, decl, e, 0);
    } else {
      assert EndsIn(out, naming(d), decl, 0);
    }
  }

  lemma NamesAreChained(naming: Naming, kind: GoType -> Kind, defs: Defs, out: seq<Decl>, inline: seq<Inline>,
                        refs: Referred, means: NamedTypes, below: NamedTypes, v: Json)
    requires GoodOutput(naming, kind, defs, out, inline, refs, means, below) && !v.JNull?
    ensures Chained(out, below, ChainLook(naming, defs), Standing(naming, defs, refs, v), v)
  {
    var look, stands := ChainLook(naming, defs), Standing(naming, defs, refs, v);
    forall n | stands(n)
      ensures Steps(out, below, look, stands, v, n)
    {
      var d :| d in defs && IsFirst(naming, defs.Keys, d) && naming(d) == n && Suits(naming, defs[d], v, refs);
      NameSteps(naming, kind, defs, out, inline, refs, means, below, look, stands, d, v);
    }
  }

  /** A definition that is a reference and nothing else. */
  ghost predicate IsReferrer(naming: Naming, defs: Defs, d: string) {
    d in defs && IsFirst(naming, defs.Keys, d) && RefersOn(defs[d])
  }

  lemma Stands(naming: Naming, defs: Defs, refs: Referred, d: string, v: Json)
    requires IsReferrer(naming, defs, d) && Suits(naming, defs[d], v, refs)
    ensures Standing(naming, defs, refs, v)(naming(d))
    ensures ChainLook(naming, defs)(naming(d)) == Next(RefName(RefOf(defs[d])))
  {
    assert StandsFor(naming, defs, refs, v, naming(d));
  }

  lemma ReferrerIsDeclared(naming: Naming, kind: GoType -> Kind, defs: Defs, out: seq<Decl>, inline: seq<Inline>, d: string)
    requires Rendered(naming, kind, defs, out, inline) && IsReferrer(naming, defs, d)
    ensures Defined(naming(d), Named(RefName(RefOf(defs[d])))) in out
  {
    var decl, tag := DeclarationOf(naming, kind, defs, out, inline, d);
    DeclaredAs(naming, kind, decl, naming(d), defs[d], tag);
  }

  /**
    A definition that is a reference and nothing else decodes a value that suits it if its chain of
    references ends at a definition with a type of its own, or the value is null, or the chain ends at
    raw JSON and []byte takes the value: `type A B` leaves B's methods behind. And only then, if every
    name is declared once.
   */
  lemma ReferenceDecodesExactly(naming: Naming, kind: GoType -> Kind, defs: Defs, out: seq<Decl>, inline: seq<Inline>,
                                refs: Referred, means: NamedTypes, below: NamedTypes, d: string, v: Json)
    requires GoodOutput(naming, kind, defs, out, inline, refs, means, below)
    requires IsReferrer(naming, defs, d) && Suits(naming, defs[d], v, refs)
    ensures var decl := Defined(naming(d), Named(RefName(RefOf(defs[d]))));
      decl in out && (EndTakes(EndOf(naming, defs, d), v) ==> DeclDecodes(out, below, decl, v)) &&
      (DeclaredOnce(out) && DeclDecodes(out, below, decl, v) ==> EndTakes(EndOf(naming, defs, d), v))
  {
    ReferrerIsDeclared(naming, kind, defs, out, inline, d);
    var look, stands := ChainLook(naming, defs), Standing(naming, defs, refs, v);
    if !v.JNull? {
      NamesAreChained(naming, kind, defs, out, inline, refs, means, below, v);
    }
    Stands(naming, defs, refs, d, v);
    DefinedDecodesExactly(out, below, look, GoNames(naming, defs.Keys), stands, v, naming(d), RefName(RefOf(defs[d])));
  }

  // ---------- the shortest such reference ----------

  const TEXT_OR_NUMBER := PERMISSIVE.(anyOf := [PERMISSIVE.(types := [StringType]), PERMISSIVE.(types := [IntegerType])])
  const PREFIX := "#/definitions"
  const REFERENCE := PERMISSIVE.(ref := PREFIX + "/" + ['B'])

  lemma {:induction false} TooShortToRespell(s: string, table: nat -> (string, string), from: nat)
    requires forall k: nat :: |table(k).0| > |s|
    ensures WithInitialisms(s, table, from) == s
    decreases INITIALISM_COUNT - from
  {
    if from < INITIALISM_COUNT {
      TooShortToRespell(s, table, from + 1);
    }
  }

  lemma LetterIsItsName(c: char)
    requires Upper(c)
    ensures ExportName([c]) == [c]
  {
    assert [c][1..] == "" && Camel("", false) == "";
    assert Camel([c], true) == [c];
    TooShortToRespell([c], Initialism, 0);
  }

  lemma NumberIsAdmitted(refs: Referred)
    ensures Admits(TEXT_OR_NUMBER, JInteger(5), refs)
  {
    var arm := TEXT_OR_NUMBER.anyOf[1];
    assert arm.types[0] == IntegerType && HasType(JInteger(5), IntegerType);
    assert Admits(arm, JInteger(5), refs);
  }

  lemma ReferenceNames(prefix: string, c: char)
    requires Upper(c)
    ensures RefName(prefix + "/" + [c]) == [c]
  {
    RefNamesDefinition(prefix, [c]);
    LetterIsItsName(c);
  }

  lemma ReferenceIsDefined(naming: Naming, kind: GoType -> Kind)
    ensures IsTagOf(REFERENCE, None)
    ensures Describes(naming, kind, Defined("A", Named(RefName(REFERENCE.ref))), "A", REFERENCE, None)
  {
    assert Base(REFERENCE) == REFERENCE && RefOf(REFERENCE) == REFERENCE.ref;
    RefIsType(REFERENCE, PlaceName(naming, "A", ""));
  }

  lemma TextOrNumberIsRaw(name: string)
    ensures GoTypeOf(TEXT_OR_NUMBER, name).typ == Raw && !EnumUnion(TEXT_OR_NUMBER)
  {
    var arms := TEXT_OR_NUMBER.anyOf;
    assert Concrete(arms[1..]) == arms[1..] && Concrete(arms) == arms;
    assert Base(TEXT_OR_NUMBER) == TEXT_OR_NUMBER && arms[0] in Arms(TEXT_OR_NUMBER);
  }

  lemma TextOrNumberIsAliased(naming: Naming, kind: GoType -> Kind)
    ensures IsTagOf(TEXT_OR_NUMBER, None) && Describes(naming, kind, Alias("B", Raw), "B", TEXT_OR_NUMBER, None)
  {
    TextOrNumberIsRaw(PlaceName(naming, "B", ""));
  }

  lemma OnlyBytesAreLeft(steps: nat, e: Decl)
    requires EndsIn([Defined("A", Named("B")), Alias("B", Raw)], "B", e, steps)
    ensures e == Alias("B", Raw)
  {
  }

  lemma BytesTakeNoNumber(named: NamedTypes, A: Decl, B: Decl)
    requires A == Defined("A", Named("B")) && B == Alias("B", Raw)
    ensures DeclDecodes([A, B], named, B, JInteger(5)) && !DeclDecodes([A, B], named, A, JInteger(5))
  {
    forall e, steps: nat | EndsIn([A, B], "B", e, steps)
      ensures !BareDecodes(named, e, JInteger(5))
    {
      OnlyBytesAreLeft(steps, e);
    }
  }

  /** B is raw JSON and admits numbers; A refers to B, and is defined as bytes. */
  lemma RawReferenceFails(naming: Naming, kind: GoType -> Kind, refs: Referred, named: NamedTypes)
    requires refs(REFERENCE.ref, JInteger(5)) <==> Admits(TEXT_OR_NUMBER, JInteger(5), refs)
    ensures RefName(REFERENCE.ref) == "B" && IsTagOf(TEXT_OR_NUMBER, None) && IsTagOf(REFERENCE, None)
    ensures var A, B := Defined("A", Named("B")), Alias("B", Raw);
      Describes(naming, kind, B, "B", TEXT_OR_NUMBER, None) && Describes(naming, kind, A, "A", REFERENCE, None) &&
      Admits(REFERENCE, JInteger(5), refs) &&
      DeclDecodes([A, B], named, B, JInteger(5)) && !DeclDecodes([A, B], named, A, JInteger(5))
  {
    ReferenceNames(PREFIX, 'B');
    ReferenceIsDefined(naming, kind);
    TextOrNumberIsAliased(naming, kind);
    NumberIsAdmitted(refs);
    BytesTakeNoNumber(named, Defined("A", Named("B")), Alias("B", Raw));
  }
}
