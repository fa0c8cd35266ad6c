/** renderTypes and the methods it calls. */
module Renderer {
  import opened Names
  import opened Options
  import opened Schemas
  import opened GoTypes
  import opened Widening
  import opened Declarations
  import opened ProtocolTypes

  class TypeRenderer {
    const defs: Defs
    const naming: Naming
    const kind: GoType -> Kind
    var emitted: set<string>
    var inline: seq<Inline>
    var out: seq<Decl>

    /** `kind` is jsonKind, as far as it returns: any function that knows the built-in types will do. */
    constructor (defs: Defs, kind: GoType -> Kind)
      requires Sane(kind)
      ensures this.defs == defs && naming == ExportName && this.kind == kind
      ensures emitted == {} && inline == [] && out == []
    {
      this.defs := defs;
      naming := ExportName;
      this.kind := kind;
      emitted, inline, out := {}, [], [];
    }

    /** The Go names of the definitions. */
    ghost function Known(): set<string> {
      GoNames(naming, defs.Keys)
    }

    /** What is emitted is what is declared, and if the references resolve every name used is accounted for. */
    ghost predicate Sound()
      reads this
    {
      emitted == DeclNames(out) && (DefsResolve(defs, Known()) ==> Grounded(Known(), out, inline))
    }

    /** renderField: nothing for a name that exports to nothing. */
    method RenderField(p: Property, owner: string, required: set<string>) returns (field: Option<Field>)
      modifies this`inline
      ensures field == if Under(naming, owner)(p.name).Some? then Some(FieldOf(p, Under(naming, owner)(p.name).value, required)) else None
      ensures field.Some? <==> naming(p.name) != ""
      ensures field.Some? ==> IsFieldOf(naming, owner, field.value, p, required)
      ensures inline == old(inline) + if Under(naming, owner)(p.name).Some? then InlineOf(p, Under(naming, owner)(p.name).value) else []
    {
      if naming(p.name) == "" {
        return None;
      }
      var typed := GoTypeOf(p.schema, PlaceName(naming, owner, p.name));
      if typed.inline.Some? {
        inline := inline + [typed.inline.value];
      }
      var optional := p.name !in required || Nullable(p.schema);
      field := Some(Field(p.name, typed.typ, optional && NeedsPointer(typed.typ)));
    }

    method RenderFields(ps: seq<Property>, owner: string, required: set<string>) returns (fields: seq<Field>)
      modifies this`inline
      ensures fields == FieldsOf(ps, Under(naming, owner), required)
      ensures inline == old(inline) + InlinesOf(ps, Under(naming, owner))
    {
      fields := [];
      var place := Under(naming, owner);
      for i := 0 to |ps|
        invariant fields == FieldsOf(ps[..i], place, required)
        invariant inline == old(inline) + InlinesOf(ps[..i], place)
      {
        assert ps[..i + 1][..i] == ps[..i];
        var field := RenderField(ps[i], owner, required);
        if field.Some? {
          fields := fields + [field.value];
        }
      }
      assert ps[..|ps|] == ps;
    }

    /** renderStruct: a name that is already emitted is left alone. */
    method RenderStruct(name: string, s: Schema)
      requires Sound()
      requires DefsResolve(defs, Known()) ==> PropertiesResolve(s.properties, GoTypes.Names(Known()))
      modifies this
      ensures Sound() && emitted == old(emitted) + {name}
      ensures name in old(emitted) ==> out == old(out) && inline == old(inline)
      ensures name !in old(emitted) ==>
        |out| == |old(out)| + 1 && out[|old(out)|].Struct? && out[|old(out)|].name == name &&
        AreFieldsOf(naming, name, out[|old(out)|].fields, s.properties, s.required)
      ensures name !in old(emitted) ==>
        out == old(out) + [Struct(name, FieldsOf(s.properties, Under(naming, name), s.required))] &&
        inline == old(inline) + InlinesOf(s.properties, Under(naming, name))
    {
      if name in emitted {
        return;
      }
      emitted := emitted + {name};
      var fields := RenderFields(s.properties, name, s.required);
      FieldsAreRight(naming, name, s.properties, s.required, fields);
      out := out + [Struct(name, fields)];
      DeclNamesAdd(old(out), Struct(name, fields));
      if DefsResolve(defs, Known()) {
        FieldsAreGrounded(s.properties, Under(naming, name), s.required, Known());
        InlinesAreSmaller(s.properties, Under(naming, name), GoTypes.Names(Known()));
        GroundedGrows(Known(), old(out), old(inline), [Struct(name, fields)], InlinesOf(s.properties, Under(naming, name)));
      }
    }

    /** A union's property: added where it is new, else its type joined with the one it had. */
    method CollectProperty(p: Property, place: Placing, order0: seq<string>, types0: map<string, GoType>,
                           ghost seen: seq<Property>)
      returns (order: seq<string>, types: map<string, GoType>)
      requires Tally(kind, seen, place, order0, types0) && place(p.name).Some?
      modifies this`inline
      ensures Tally(kind, seen + [p], place, order, types)
      ensures inline == old(inline) + InlineOf(p, place(p.name).value)
    {
      var typed := GoTypeOf(p.schema, place(p.name).value);
      TallyOne(kind, seen, place, order0, types0, p, typed.typ);
      order, types := order0, types0;
      if typed.inline.Some? {
        inline := inline + [typed.inline.value];
      }
      if p.name !in types {
        order := order + [p.name];
        types := types[p.name := typed.typ];
      } else {
        var typ := types[p.name];
        if typ != typed.typ {
          typ := Widen(kind, typ, typed.typ);
        }
        types := types[p.name := typ];
      }
    }

    /** One arm's properties but the tag, merged into what earlier arms declared. */
    method CollectArm(ps: seq<Property>, place: Placing, tag: string, order0: seq<string>, types0: map<string, GoType>,
                      ghost before: seq<Property>, ghost base: seq<Inline>)
      returns (order: seq<string>, types: map<string, GoType>)
      requires Tally(kind, before, place, order0, types0) && forall json :: place(json).Some?
      requires inline == base + InlinesOf(before, place)
      modifies this`inline
      ensures Tally(kind, before + Others(ps, tag), place, order, types)
      ensures inline == base + InlinesOf(before + Others(ps, tag), place)
    {
      order, types := order0, types0;
      ghost var seen := before;
      for i := 0 to |ps|
        invariant seen == before + Others(ps[..i], tag)
        invariant Tally(kind, seen, place, order, types)
        invariant inline == base + InlinesOf(seen, place)
      {
        OthersSnoc(ps, i, tag, before);
        if ps[i].name != tag {
          InlinesSnoc(seen, ps[i], place, base);
          order, types := CollectProperty(ps[i], place, order, types, seen);
          seen := seen + [ps[i]];
        }
      }
      assert ps[..|ps|] == ps;
    }

    /** The fields of every arm, each property once. */
    method CollectFields(arms: seq<Schema>, place: Placing, tag: string) returns (fields: seq<Field>)
      requires forall json :: place(json).Some?
      modifies this`inline
      ensures FlattensTo(kind, Flat(arms, tag), place, fields)
      ensures inline == old(inline) + InlinesOf(Flat(arms, tag), place)
    {
      var order: seq<string> := [];
      var types: map<string, GoType> := map[];
      ghost var seen: seq<Property> := [];
      for i := 0 to |arms|
        invariant seen == Flat(arms[..i], tag)
        invariant Tally(kind, seen, place, order, types)
        invariant inline == old(inline) + InlinesOf(seen, place)
      {
        assert arms[..i + 1][..i] == arms[..i];
        order, types := CollectArm(arms[i].properties, place, tag, order, types, seen, old(inline));
        seen := seen + Others(arms[i].properties, tag);
      }
      assert arms[..|arms|] == arms;
      fields := OrderedFields(order, types);
      TallyFlattens(kind, seen, place, order, types);
    }

    /** The tag comes first, as a plain value of its own type; every other field is a pointer or can be nil. */
    static predicate IsTaggedStruct(d: Decl, name: string, tag: string) {
      d.Struct? && d.name == name && d.fields != [] &&
      d.fields[0].json == tag && d.fields[0].typ == Named(name + "Type") && !d.fields[0].pointer &&
      forall i :: 0 < i < |d.fields| ==> (d.fields[i].pointer <==> !CanBeNil(d.fields[i].typ))
    }

    method FlattenUnion(name: string, s: Schema, tag: string) returns (union: Decl, enum: Decl)
      modifies this`inline
      ensures FlatStruct(naming, kind, union, name, s, tag) && TagEnum(naming, enum, name, s, tag)
      ensures inline == old(inline) + InlinesOf(Flat(s.oneOf, tag), InUnion(naming, name))
      ensures IsTaggedStruct(union, name, tag) && enum.name == name + "Type"
    {
      var fields := CollectFields(s.oneOf, InUnion(naming, name), tag);
      union := Struct(name, [Field(tag, Named(name + TAG_SUFFIX), false)] + fields);
      var values := SortedKeys(TagValues(s.oneOf, tag));
      var constants := RenderConstants(naming, name + TAG_SUFFIX, values);
      enum := Enum(name + TAG_SUFFIX, constants);
      assert forall i :: 0 < i < |union.fields| ==> union.fields[i] == fields[i - 1];
    }

    /** renderFlattenedUnion: the struct and the type of its tag. */
    method RenderFlattenedUnion(name: string, s: Schema, tag: string)
      requires emitted == DeclNames(out) + {name} && Sane(kind)
      requires DefsResolve(defs, Known()) ==> Resolves(s, GoTypes.Names(Known())) && Grounded(Known(), out, inline)
      modifies this
      ensures Sound() && emitted == old(emitted) + {name + TAG_SUFFIX}
      ensures inline == old(inline) + InlinesOf(Flat(s.oneOf, tag), InUnion(naming, name))
      ensures exists union, enum ::
        FlatStruct(naming, kind, union, name, s, tag) && TagEnum(naming, enum, name, s, tag) && out == old(out) + [union, enum]
      ensures |out| == |old(out)| + 2 && IsTaggedStruct(out[|old(out)|], name, tag) && out[|old(out)| + 1].name == name + "Type"
    {
      var union, enum := FlattenUnion(name, s, tag);
      out := out + [union, enum];
      emitted := emitted + {name + TAG_SUFFIX};
      PairNames(old(out), union, enum);
      if DefsResolve(defs, Known()) {
        UnionGrows(naming, kind, s, tag, name, union, enum, Known(), old(out), old(inline));
      }
    }

    /** A declaration that mentions nothing. */
    method DeclareEnum(name: string, values: seq<string>)
      requires Sound() && name !in emitted
      modifies this
      ensures Sound() && emitted == old(emitted) + {name} && inline == old(inline)
      ensures exists constants :: Constants(naming, constants, name, values) && out == old(out) + [Enum(name, constants)]
    {
      emitted := emitted + {name};
      var constants := RenderConstants(naming, name, values);
      out := out + [Enum(name, constants)];
      DeclNamesAdd(old(out), Enum(name, constants));
      if DefsResolve(defs, Known()) {
        GroundedGrows(Known(), old(out), inline, [Enum(name, constants)], []);
        assert inline + [] == inline;
      }
    }

    /** Everything else has a target: a scalar, a list, a map, or a union left as it is, which alone is aliased. */
    method DeclareAlias(name: string, s: Schema, place: string)
      requires Sound() && name !in emitted
      requires DefsResolve(defs, Known()) ==> Resolves(s, GoTypes.Names(Known()))
      modifies this
      ensures Sound() && emitted == old(emitted) + {name}
      ensures out == old(out) + [Declared(name, GoTypeOf(s, place).typ)]
      ensures inline == old(inline) + InlineOf(Property("", s), place)
    {
      emitted := emitted + {name};
      var typed := GoTypeOf(s, place);
      if typed.inline.Some? {
        inline := inline + [typed.inline.value];
      }
      if typed.typ == Raw {
        out := out + [Alias(name, typed.typ)];
      } else {
        out := out + [Defined(name, typed.typ)];
      }
      DeclNamesAdd(old(out), Declared(name, typed.typ));
      if DefsResolve(defs, Known()) {
        AliasGrows(name, s, place, Known(), old(out), old(inline));
      }
    }

    method RenderEnumDef(name: string, s: Schema, tag: Option<string>)
      requires Sound() && name !in emitted && IsTagOf(s, tag) && s.enum != [] && IsStringEnum(s)
      modifies this
      ensures Sound() && Adds(naming, kind, name, s, old(emitted), emitted, old(inline), inline, old(out), out)
    {
      DeclareEnum(name, Texts(s.enum));
      ghost var constants :| Constants(naming, constants, name, Texts(s.enum)) && out == old(out) + [Enum(name, constants)];
      OneDeclared(naming, kind, old(out), inline, Enum(name, constants), name, s, tag);
    }

    method RenderEnumUnionDef(name: string, s: Schema, tag: Option<string>)
      requires Sound() && name !in emitted && IsTagOf(s, tag) && EnumUnion(s) && !(s.enum != [] && IsStringEnum(s))
      modifies this
      ensures Sound() && Adds(naming, kind, name, s, old(emitted), emitted, old(inline), inline, old(out), out)
    {
      var values := CollectValues(Arms(s));
      DeclareEnum(name, values);
      ghost var constants :| Constants(naming, constants, name, values) && out == old(out) + [Enum(name, constants)];
      OneDeclared(naming, kind, old(out), inline, Enum(name, constants), name, s, tag);
    }

    method RenderUnionDef(name: string, s: Schema, tag: string)
      requires Sound() && Sane(kind) && name !in emitted && IsTagOf(s, Some(tag)) && !EnumUnion(s) && !(s.enum != [] && IsStringEnum(s))
      requires DefsResolve(defs, Known()) ==> Resolves(s, GoTypes.Names(Known()))
      modifies this
      ensures Sound() && Adds(naming, kind, name, s, old(emitted), emitted, old(inline), inline, old(out), out)
    {
      emitted := emitted + {name};
      RenderFlattenedUnion(name, s, tag);
      UnionAdds(naming, kind, name, s, tag, old(emitted), old(inline), inline, old(out), out);
    }

    method RenderObjectDef(name: string, s: Schema)
      requires Sound() && name !in emitted && IsTagOf(s, None) && s.properties != []
      requires !EnumUnion(s) && !(s.enum != [] && IsStringEnum(s))
      requires DefsResolve(defs, Known()) ==> Resolves(s, GoTypes.Names(Known()))
      modifies this
      ensures Sound() && Adds(naming, kind, name, s, old(emitted), emitted, old(inline), inline, old(out), out)
    {
      PartsResolve(s, GoTypes.Names(Known()));
      RenderStruct(name, s);
      OneDeclared(naming, kind, old(out), inline, out[|old(out)|], name, s, None);
    }

    method RenderAliasDef(name: string, s: Schema)
      requires Sound() && name !in emitted && IsTagOf(s, None) && s.properties == []
      requires !EnumUnion(s) && !(s.enum != [] && IsStringEnum(s))
      requires DefsResolve(defs, Known()) ==> Resolves(s, GoTypes.Names(Known()))
      modifies this
      ensures Sound() && Adds(naming, kind, name, s, old(emitted), emitted, old(inline), inline, old(out), out)
    {
      DeclareAlias(name, s, PlaceName(naming, name, ""));
      OneDeclared(naming, kind, old(out), inline, out[|old(out)|], name, s, None);
    }

    /** renderDef: the first of five cases that applies. */
    method RenderDef(name: string, s: Schema)
      requires Sound() && Sane(kind)
      requires DefsResolve(defs, Known()) ==> Resolves(s, GoTypes.Names(Known()))
      modifies this
      ensures Sound()
      ensures name in old(emitted) ==> out == old(out) && inline == old(inline) && emitted == old(emitted)
      ensures name !in old(emitted) ==> Adds(naming, kind, name, s, old(emitted), emitted, old(inline), inline, old(out), out)
    {
      if name in emitted {
        return;
      }
      var tag := TaggedUnion(s);
      if s.enum != [] && IsStringEnum(s) {
        RenderEnumDef(name, s, tag);
      } else if EnumUnion(s) {
        RenderEnumUnionDef(name, s, tag);
      } else if tag.Some? {
        RenderUnionDef(name, s, tag.value);
      } else if s.properties != [] {
        RenderObjectDef(name, s);
      } else {
        RenderAliasDef(name, s);
      }
    }

    /** The next definition. */
    method RenderNextDef(d: string, ghost done: set<string>)
      requires Sound() && Sane(kind) && done <= defs.Keys && d in defs && forall e :: e in done ==> Less(e, d)
      requires GoNames(naming, done) <= emitted <= GoNames(naming, done) + TagNames(naming, defs, done)
      requires TagNamesFree(naming, defs) ==> DeclaredOnce(out) && AllDeclared(naming, kind, out, inline, defs, done)
      modifies this
      ensures Sound()
      ensures GoNames(naming, done + {d}) <= emitted <= GoNames(naming, done + {d}) + TagNames(naming, defs, done + {d})
      ensures TagNamesFree(naming, defs) ==> DeclaredOnce(out) && AllDeclared(naming, kind, out, inline, defs, done + {d})
    {
      var name := naming(d);
      NamesOfOneMore(naming, defs, done, d);
      assert DefsResolve(defs, Known()) ==> Resolves(defs[d], GoTypes.Names(Known()));
      RenderDef(name, defs[d]);
      if TagNamesFree(naming, defs) {
        NewNameIsFree(naming, defs, done, d, old(emitted));
        DeclaredStays(naming, kind, old(out), out, old(inline), inline, defs, done);
        OneMoreDeclared(naming, kind, out, inline, defs, done, d);
      }
    }

    /** The definitions, in the order of their names. */
    method RenderDefs()
      requires Sound() && Sane(kind) && emitted == {} && out == []
      modifies this
      ensures Sound() && Known() <= emitted <= Known() + TagNames(naming, defs, defs.Keys)
      ensures TagNamesFree(naming, defs) ==> DeclaredOnce(out) && AllDeclared(naming, kind, out, inline, defs, defs.Keys)
    {
      var names := SortedKeys(defs.Keys);
      ghost var done: set<string> := {};
      for i := 0 to |names|
        invariant done == Elements(names[..i]) <= defs.Keys
        invariant Sound() && GoNames(naming, done) <= emitted <= GoNames(naming, done) + TagNames(naming, defs, done)
        invariant TagNamesFree(naming, defs) ==> DeclaredOnce(out) && AllDeclared(naming, kind, out, inline, defs, done)
      {
        OneMoreElement(names, i);
        RenderNextDef(names[i], done);
        done := done + {names[i]};
      }
      assert names[..|names|] == names;
    }

    /** The next unnamed object on the list; the ghosts say where the walk began. */
    method RenderNextInline(i: nat, ghost taken: set<string>, ghost list: seq<Inline>, ghost declared: seq<Decl>)
      requires Sound() && i < |inline| && Walked(naming, i, taken, list, declared, emitted, inline, out)
      modifies this
      ensures Sound() && i < |inline| && Walked(naming, i + 1, taken, list, declared, emitted, inline, out)
      ensures SizeOfInlines(inline[i + 1..]) < SizeOfInlines(old(inline)[i..])
    {
      var it := inline[i];
      if DefsResolve(defs, Known()) {
        ListedResolves(Known(), out, inline, i);
      }
      RenderStruct(it.name, it.schema);
      WalkOn(naming, i, taken, list, declared, old(emitted), old(inline), old(out), inline, out);
    }

    /** The unnamed objects, on a list that grows while it is walked. */
    method RenderInlines()
      requires Sound()
      modifies this
      ensures Sound() && Walked(naming, |inline|, old(emitted), old(inline), old(out), emitted, inline, out)
      ensures emitted == old(emitted) + InlineNames(inline)
    {
      var i := 0;
      NothingWalked(naming, emitted, inline, out);
      while i < |inline|
        invariant i <= |inline| && Sound() && Walked(naming, i, old(emitted), old(inline), old(out), emitted, inline, out)
        decreases SizeOfInlines(inline[i..])
      {
        RenderNextInline(i, old(emitted), old(inline), old(out));
        i := i + 1;
      }
      assert inline[..|inline|] == inline;
    }

    /**
      renderTypes. The output is closed: whatever a declaration mentions is declared. Every unnamed
      object that was come upon has a declaration of its name, and its own one unless the name was
      taken before. Unless a definition is called like another one's tag type, no name is declared
      twice and the first definition of every Go name is declared as it asks; and unless different
      objects ask for one name, every unnamed object has a struct of its own fields.
     */
    method RenderTypes()
      requires Sane(kind) && emitted == {} && inline == [] && out == []
      modifies this
      ensures emitted == DeclNames(out)
      ensures DefsResolve(defs, Known()) ==> forall d :: d in out ==> UsedBy(d) <= DeclNames(out)
      ensures Known() <= DeclNames(out) && InlineNames(inline) <= DeclNames(out)
      ensures DeclNames(out) <= Known() + TagNames(naming, defs, defs.Keys) + InlineNames(inline)
      ensures forall j :: 0 <= j < |inline| ==> OwnStruct(naming, inline, j, Known() + TagNames(naming, defs, defs.Keys), out)
      ensures TagNamesFree(naming, defs) ==> DeclaredOnce(out) && AllDeclared(naming, kind, out, inline, defs, defs.Keys)
      ensures TagNamesFree(naming, defs) && OwnNames(inline, Known() + TagNames(naming, defs, defs.Keys)) ==>
        Rendered(naming, kind, defs, out, inline)
    {
      RenderDefs();
      ghost var before, list, taken := out, inline, emitted;
      RenderInlines();
      OwnStructsOfMore(naming, inline, taken, Known() + TagNames(naming, defs, defs.Keys), out);
      if TagNamesFree(naming, defs) {
        DeclaredStays(naming, kind, before, out, list, inline, defs, defs.Keys);
      }
      if OwnNames(inline, Known() + TagNames(naming, defs, defs.Keys)) {
        EachHasItsStruct(naming, inline, Known() + TagNames(naming, defs, defs.Keys), out);
      }
    }
  }

  // ---------- the definitions ----------

  /** The tag types of the definitions that are flattened. */
  function TagNames(naming: Naming, defs: Defs, names: set<string>): set<string> {
    set n | n in names && n in defs && IsFlattened(defs[n]) :: naming(n) + TAG_SUFFIX
  }

  lemma NamesOfOneMore(naming: Naming, defs: Defs, names: set<string>, d: string)
    requires d in defs
    ensures GoNames(naming, names + {d}) == GoNames(naming, names) + {naming(d)}
    ensures TagNames(naming, defs, names + {d}) ==
      TagNames(naming, defs, names) + if IsFlattened(defs[d]) then {naming(d) + TAG_SUFFIX} else {}
  {
  }

  lemma OneMoreElement(names: seq<string>, i: nat)
    requires Increasing(names) && i < |names|
    ensures forall e :: e in Elements(names[..i]) ==> Less(e, names[i])
    ensures Elements(names[..i + 1]) == Elements(names[..i]) + {names[i]} && names[i] in Elements(names)
  {
    assert names[..i + 1] == names[..i] + [names[i]];
    forall e | e in names[..i]
      ensures Less(e, names[i])
    {
      var j :| 0 <= j < i && names[j] == e;
    }
  }

  /** The first definition of a Go name finds the name free, and a new union its tag's name. */
  lemma NewNameIsFree(naming: Naming, defs: Defs, done: set<string>, d: string, emitted: set<string>)
    requires TagNamesFree(naming, defs) && done <= defs.Keys && d in defs && forall e :: e in done ==> Less(e, d)
    requires GoNames(naming, done) <= emitted <= GoNames(naming, done) + TagNames(naming, defs, done)
    ensures IsFirst(naming, defs.Keys, d) ==> naming(d) !in emitted
    ensures naming(d) !in emitted && IsFlattened(defs[d]) ==> naming(d) + TAG_SUFFIX !in emitted
  {
    forall e | e in done
      ensures IsFirst(naming, defs.Keys, d) ==> naming(d) != naming(e)
      ensures naming(d) !in emitted ==> naming(d) + TAG_SUFFIX != naming(e) + TAG_SUFFIX
    {
      if naming(d) + TAG_SUFFIX == naming(e) + TAG_SUFFIX {
        SameTagSameName(naming(d), naming(e));
      }
      if Less(d, e) {
        LessTransitive(d, e, d);
      }
      LessIrreflexive(d);
    }
  }

  lemma SameTagSameName(a: string, b: string)
    requires a + TAG_SUFFIX == b + TAG_SUFFIX
    ensures a == b
  {
    assert a == (a + TAG_SUFFIX)[..|a|] && b == (b + TAG_SUFFIX)[..|b|];
  }

  lemma OneMoreDeclared(naming: Naming, kind: GoType -> Kind, out: seq<Decl>, inline: seq<Inline>, defs: Defs,
                        done: set<string>, d: string)
    requires AllDeclared(naming, kind, out, inline, defs, done) && d in defs
    requires IsFirst(naming, defs.Keys, d) ==> HasDecl(naming, kind, out, inline, naming(d), defs[d])
    ensures AllDeclared(naming, kind, out, inline, defs, done + {d})
  {
  }

  lemma StillDeclared(naming: Naming, kind: GoType -> Kind, before: seq<Decl>, out: seq<Decl>, list: seq<Inline>,
                      inline: seq<Inline>,
                      name: string, s: Schema)
    requires before <= out && list <= inline && HasDecl(naming, kind, before, list, name, s)
    ensures HasDecl(naming, kind, out, inline, name, s)
  {
    var d :| WellDeclared(naming, kind, before, list, d, name, s);
    var tag :| IsTagOf(s, tag) && Describes(naming, kind, d, name, s, tag) && HasTag(naming, before, name, s, tag) &&
               Listed(Found(naming, name, s, tag), list);
    if IsFlattened(s) && tag.Some? {
      var e :| e in before && TagEnum(naming, e, name, s, tag.value);
      assert e in out;
    }
    assert HasTag(naming, out, name, s, tag);
    ListedStays(Found(naming, name, s, tag), list, inline);
    assert WellDeclared(naming, kind, out, inline, d, name, s);
  }

  lemma ListedStays(found: seq<Inline>, list: seq<Inline>, inline: seq<Inline>)
    requires list <= inline && Listed(found, list)
    ensures Listed(found, inline)
  {
  }

  lemma DeclaredStays(naming: Naming, kind: GoType -> Kind, before: seq<Decl>, out: seq<Decl>, list: seq<Inline>,
                      inline: seq<Inline>,
                      defs: Defs, done: set<string>)
    requires before <= out && list <= inline && AllDeclared(naming, kind, before, list, defs, done)
    ensures AllDeclared(naming, kind, out, inline, defs, done)
  {
    forall d | d in done && d in defs && IsFirst(naming, defs.Keys, d)
      ensures HasDecl(naming, kind, out, inline, naming(d), defs[d])
    {
      assert HasDecl(naming, kind, before, list, naming(d), defs[d]);
      StillDeclared(naming, kind, before, out, list, inline, naming(d), defs[d]);
    }
  }

  // ---------- the worklist ----------

  /** The first to ask for a free name gets a struct with its own fields. */
  ghost predicate OwnStruct(naming: Naming, inline: seq<Inline>, j: nat, taken: set<string>, out: seq<Decl>)
    requires j < |inline|
  {
    inline[j].name !in taken + InlineNames(inline[..j]) ==> HasStruct(naming, out, inline, inline[j])
  }

  /** The walk has passed i objects: what it emitted, and what became of each of them. */
  ghost predicate Walked(naming: Naming, i: nat, taken: set<string>, list: seq<Inline>, declared: seq<Decl>,
                         emitted: set<string>, inline: seq<Inline>, out: seq<Decl>)
    requires i <= |inline|
  {
    list <= inline && declared <= out && emitted == taken + InlineNames(inline[..i]) &&
    (DeclaredOnce(declared) ==> DeclaredOnce(out)) &&
    forall j :: 0 <= j < i ==> OwnStruct(naming, inline, j, taken, out)
  }

  /** One object more: left alone if its name was emitted, else given its struct. */
  lemma WalkOn(naming: Naming, i: nat, taken: set<string>, list: seq<Inline>, declared: seq<Decl>,
               emitted: set<string>, inline0: seq<Inline>, out0: seq<Decl>, inline: seq<Inline>, out: seq<Decl>)
    requires i < |inline0| && Walked(naming, i, taken, list, declared, emitted, inline0, out0) && emitted == DeclNames(out0)
    requires var it := inline0[i];
      if it.name in emitted then inline == inline0 && out == out0
      else
        inline == inline0 + InlinesOf(it.schema.properties, Under(naming, it.name)) &&
        out == out0 + [Struct(it.name, FieldsOf(it.schema.properties, Under(naming, it.name), it.schema.required))]
    ensures i < |inline| && Walked(naming, i + 1, taken, list, declared, emitted + {inline0[i].name}, inline, out)
    ensures SizeOfInlines(inline[i + 1..]) < SizeOfInlines(inline0[i..])
  {
    var it := inline0[i];
    if it.name !in emitted {
      DeclaredOnceMore(out0, out[|out0|]);
    }
    ListShrinks(naming, inline0, inline, i);
    OwnStructsStay(naming, inline0, inline, i, taken, out0, out);
    assert inline[..i] == inline0[..i];
  }

  lemma NothingWalked(naming: Naming, taken: set<string>, list: seq<Inline>, declared: seq<Decl>)
    ensures Walked(naming, 0, taken, list, declared, taken, list, declared)
  {
    assert list[..0] == [];
  }

  lemma OwnStructsStay(naming: Naming, list: seq<Inline>, inline: seq<Inline>, i: nat, taken: set<string>,
                       before: seq<Decl>, out: seq<Decl>)
    requires list <= inline && before <= out
    requires i <= |list| && forall j :: 0 <= j < i ==> OwnStruct(naming, list, j, taken, before)
    ensures forall j :: 0 <= j < i ==> OwnStruct(naming, inline, j, taken, out)
  {
    forall j | 0 <= j < i
      ensures OwnStruct(naming, inline, j, taken, out)
    {
      assert OwnStruct(naming, list, j, taken, before) && inline[..j] == list[..j];
      if HasStruct(naming, before, list, list[j]) {
        ListedStays(InlinesOf(list[j].schema.properties, Under(naming, list[j].name)), list, inline);
      }
    }
  }

  lemma OwnStructsOfMore(naming: Naming, inline: seq<Inline>, taken: set<string>, more: set<string>, out: seq<Decl>)
    requires taken <= more && forall j :: 0 <= j < |inline| ==> OwnStruct(naming, inline, j, taken, out)
    ensures forall j :: 0 <= j < |inline| ==> OwnStruct(naming, inline, j, more, out)
  {
    forall j | 0 <= j < |inline|
      ensures OwnStruct(naming, inline, j, more, out)
    {
      assert OwnStruct(naming, inline, j, taken, out);
    }
  }

  /** No unnamed object has a name that is taken, or that another one has. */
  predicate OwnNames(inline: seq<Inline>, taken: set<string>) {
    forall i, j :: 0 <= i <= j < |inline| ==>
      inline[j].name !in taken && (inline[i].name == inline[j].name ==> inline[i] == inline[j])
  }

  lemma {:induction false} HasItsStruct(naming: Naming, inline: seq<Inline>, j: nat, taken: set<string>, out: seq<Decl>)
    requires OwnNames(inline, taken) && j < |inline|
    requires forall i :: 0 <= i < |inline| ==> OwnStruct(naming, inline, i, taken, out)
    ensures HasStruct(naming, out, inline, inline[j])
  {
    assert OwnStruct(naming, inline, j, taken, out);
    if inline[j].name in InlineNames(inline[..j]) {
      var i :| 0 <= i < j && inline[..j][i].name == inline[j].name;
      HasItsStruct(naming, inline, i, taken, out);
    }
  }

  lemma EachHasItsStruct(naming: Naming, inline: seq<Inline>, taken: set<string>, out: seq<Decl>)
    requires OwnNames(inline, taken)
    requires forall i :: 0 <= i < |inline| ==> OwnStruct(naming, inline, i, taken, out)
    ensures forall it :: it in inline ==> HasStruct(naming, out, inline, it)
  {
    forall j | 0 <= j < |inline|
      ensures HasStruct(naming, out, inline, inline[j])
    {
      HasItsStruct(naming, inline, j, taken, out);
    }
  }

  lemma ListedResolves(names: set<string>, out: seq<Decl>, inline: seq<Inline>, i: nat)
    requires Grounded(names, out, inline) && i < |inline|
    ensures PropertiesResolve(inline[i].schema.properties, GoTypes.Names(names))
  {
    assert inline[i] in inline;
    PartsResolve(inline[i].schema, GoTypes.Names(names));
  }

  lemma DeclaredOnceMore(out: seq<Decl>, d: Decl)
    requires d.name !in DeclNames(out)
    ensures DeclaredOnce(out) ==> DeclaredOnce(out + [d])
  {
    if DeclaredOnce(out) {
      DeclaredOnceSnoc(out, d);
    }
  }

  /** Walking one step takes more off the list than that step puts on it. */
  lemma ListShrinks(naming: Naming, list: seq<Inline>, inline: seq<Inline>, i: nat)
    requires i < |list|
    requires var it := list[i];
      inline == list || inline == list + InlinesOf(it.schema.properties, Under(naming, it.name))
    ensures SizeOfInlines(inline[i + 1..]) < SizeOfInlines(list[i..])
    ensures InlineNames(inline[..i + 1]) == InlineNames(list[..i]) + {list[i].name}
  {
    var it := list[i];
    var rest := list[i + 1..];
    assert list[i..] == [it] + rest;
    if inline != list {
      var found := InlinesOf(it.schema.properties, Under(naming, it.name));
      assert inline[i + 1..] == rest + found;
      SizeOfAppended(rest, found);
      InlinesAreSmaller(it.schema.properties, Under(naming, it.name), (r: string) => true);
    }
    assert SizeOfInlines([it] + rest) == Size(it.schema) + SizeOfInlines(rest);
    NamesUpTo(list, inline, i);
  }

  lemma NamesUpTo(list: seq<Inline>, inline: seq<Inline>, i: nat)
    requires list <= inline && i < |list|
    ensures InlineNames(inline[..i + 1]) == InlineNames(list[..i]) + {list[i].name}
  {
    assert inline[..i + 1] == list[..i] + [list[i]];
    InlineNamesAdd(list[..i], [list[i]]);
  }

  /** What rendering a definition that was not emitted before adds. */
  ghost predicate Adds(naming: Naming, kind: GoType -> Kind, name: string, s: Schema, emitted0: set<string>,
                       emitted: set<string>,
                       inline0: seq<Inline>, inline: seq<Inline>, out0: seq<Decl>, out: seq<Decl>) {
    emitted0 + {name} <= emitted <= emitted0 + {name} + (if IsFlattened(s) then {name + TAG_SUFFIX} else {}) &&
    inline0 <= inline && out0 <= out && HasDecl(naming, kind, out, inline, name, s) &&
    (DeclaredOnce(out0) && (IsFlattened(s) ==> name + TAG_SUFFIX !in emitted0) ==> DeclaredOnce(out))
  }

  lemma OneDeclared(naming: Naming, kind: GoType -> Kind, out: seq<Decl>, inline: seq<Inline>, d: Decl, name: string,
                    s: Schema,
                    tag: Option<string>)
    requires IsTagOf(s, tag) && Describes(naming, kind, d, name, s, tag) && name !in DeclNames(out) && !IsFlattened(s)
    requires Listed(Found(naming, name, s, tag), inline)
    ensures HasDecl(naming, kind, out + [d], inline, name, s)
    ensures DeclaredOnce(out) ==> DeclaredOnce(out + [d])
  {
    assert HasTag(naming, out + [d], name, s, tag);
    assert WellDeclared(naming, kind, out + [d], inline, d, name, s);
    if DeclaredOnce(out) {
      DeclaredOnceSnoc(out, d);
    }
  }

  lemma UnionIsDeclared(naming: Naming, kind: GoType -> Kind, out: seq<Decl>, inline: seq<Inline>, union: Decl,
                        enum: Decl,
                        name: string, s: Schema, tag: string)
    requires IsTagOf(s, Some(tag)) && Describes(naming, kind, union, name, s, Some(tag)) && TagEnum(naming, enum, name, s, tag)
    requires union in out && enum in out && Listed(Found(naming, name, s, Some(tag)), inline)
    ensures HasDecl(naming, kind, out, inline, name, s)
  {
    assert HasTag(naming, out, name, s, Some(tag));
    assert WellDeclared(naming, kind, out, inline, union, name, s);
  }

  lemma UnionAdds(naming: Naming, kind: GoType -> Kind, name: string, s: Schema, tag: string, emitted: set<string>,
                  inline0: seq<Inline>, inline: seq<Inline>, out0: seq<Decl>, out: seq<Decl>)
    requires IsTagOf(s, Some(tag)) && !EnumUnion(s) && !(s.enum != [] && IsStringEnum(s))
    requires emitted == DeclNames(out0) && name !in emitted
    requires inline == inline0 + InlinesOf(Flat(s.oneOf, tag), InUnion(naming, name))
    requires exists union, enum ::
      FlatStruct(naming, kind, union, name, s, tag) && TagEnum(naming, enum, name, s, tag) && out == out0 + [union, enum]
    ensures Adds(naming, kind, name, s, emitted, emitted + {name, name + TAG_SUFFIX}, inline0, inline, out0, out)
  {
    var union, enum :|
      FlatStruct(naming, kind, union, name, s, tag) && TagEnum(naming, enum, name, s, tag) && out == out0 + [union, enum];
    assert Describes(naming, kind, union, name, s, Some(tag));
    assert union in out && enum in out;
    UnionIsDeclared(naming, kind, out, inline, union, enum, name, s, tag);
    if DeclaredOnce(out0) && name + TAG_SUFFIX !in emitted {
      PairDeclaredOnce(out0, union, enum);
    }
  }

  lemma PairDeclaredOnce(out: seq<Decl>, union: Decl, enum: Decl)
    requires DeclaredOnce(out) && union.name !in DeclNames(out)
    requires enum.name == union.name + TAG_SUFFIX && enum.name !in DeclNames(out)
    ensures DeclaredOnce(out + [union, enum])
  {
    assert |enum.name| == |union.name| + 4;
    DeclaredOnceSnoc(out, union);
    DeclNamesAdd(out, union);
    DeclaredOnceSnoc(out + [union], enum);
    assert out + [union, enum] == out + [union] + [enum];
  }

  lemma PartsResolve(s: Schema, known: string -> bool)
    ensures Resolves(s, known) ==> PropertiesResolve(s.properties, known)
  {
  }

  lemma PairNames(ds: seq<Decl>, d: Decl, e: Decl)
    ensures DeclNames(ds + [d, e]) == DeclNames(ds) + {d.name, e.name} && DeclNames([d, e]) == {d.name, e.name}
  {
  }

  lemma FirstAndOthers(fields: seq<Field>)
    requires fields != []
    ensures FieldNames(fields) == Mentions(fields[0].typ) + FieldNames(fields[1..])
  {
    FieldNamesJoin([fields[0]], fields[1..]);
    assert fields == [fields[0]] + fields[1..] && [fields[0]][..0] == [];
  }

  lemma FlatOfResolves(s: Schema, tag: string, known: string -> bool)
    requires Resolves(s, known)
    ensures PropertiesResolve(Flat(s.oneOf, tag), known)
  {
    ArmsResolve(s.oneOf, known);
    FlatResolves(s.oneOf, tag, known);
  }

  lemma FieldsAreOfUnion(kind: GoType -> Kind, ps: seq<Property>, place: Placing, fields: seq<Field>,
                         names: set<string>)
    requires Sane(kind) && FlattensTo(kind, ps, place, fields) && PropertiesResolve(ps, GoTypes.Names(names))
    requires forall json :: place(json).Some?
    ensures FieldNames(fields) <= names + InlineNames(InlinesOf(ps, place))
  {
    forall f | f in fields
      ensures JoinsTo(kind, ps, place, f.json, f.typ)
    {
      var i :| 0 <= i < |fields| && fields[i] == f;
      assert fields[i].json == FirstSeen(ps)[i];
    }
    UnionIsGrounded(kind, ps, place, fields, names);
  }

  /** What the flattened union of a schema mentions, and what it finds. */
  lemma UnionNames(naming: Naming, kind: GoType -> Kind, s: Schema, tag: string, name: string, union: Decl,
                   names: set<string>)
    requires Sane(kind) && FlatStruct(naming, kind, union, name, s, tag) && Resolves(s, GoTypes.Names(names))
    ensures var found := InlinesOf(Flat(s.oneOf, tag), InUnion(naming, name));
      UsedBy(union) <= names + InlineNames(found) + {name + TAG_SUFFIX} && InlinesResolve(found, GoTypes.Names(names))
  {
    var ps, place := Flat(s.oneOf, tag), InUnion(naming, name);
    FlatOfResolves(s, tag, GoTypes.Names(names));
    FieldsAreOfUnion(kind, ps, place, union.fields[1..], names);
    FirstAndOthers(union.fields);
    InlinesAreSmaller(ps, place, GoTypes.Names(names));
  }

  /** Two more declarations, one of which mentions only the other beside what was found. */
  lemma PairGrows(union: Decl, enum: Decl, known: set<string>, out: seq<Decl>, inline: seq<Inline>, found: seq<Inline>)
    requires UsedBy(union) <= known + InlineNames(found) + {enum.name} && UsedBy(enum) == {}
    requires Grounded(known, out, inline) && InlinesResolve(found, GoTypes.Names(known))
    ensures Grounded(known, out + [union, enum], inline + found)
  {
    PairNames(out, union, enum);
    forall d | d in [union, enum]
      ensures UsedBy(d) <= known + InlineNames(found) + DeclNames([union, enum])
    {
      assert d == union || d == enum;
    }
    GroundedGrows(known, out, inline, [union, enum], found);
  }

  lemma UnionGrows(naming: Naming, kind: GoType -> Kind, s: Schema, tag: string, name: string, union: Decl, enum: Decl,
                   known: set<string>, out: seq<Decl>, inline: seq<Inline>)
    requires Sane(kind) && FlatStruct(naming, kind, union, name, s, tag) && enum.Enum? && enum.name == name + TAG_SUFFIX
    requires Resolves(s, GoTypes.Names(known)) && Grounded(known, out, inline)
    ensures Grounded(known, out + [union, enum], inline + InlinesOf(Flat(s.oneOf, tag), InUnion(naming, name)))
  {
    UnionNames(naming, kind, s, tag, name, union, known);
    PairGrows(union, enum, known, out, inline, InlinesOf(Flat(s.oneOf, tag), InUnion(naming, name)));
  }

  lemma AliasGrows(name: string, s: Schema, place: string, known: set<string>, out: seq<Decl>, inline: seq<Inline>)
    requires Resolves(s, GoTypes.Names(known)) && Grounded(known, out, inline)
    ensures Grounded(known, out + [Declared(name, GoTypeOf(s, place).typ)], inline + InlineOf(Property("", s), place))
  {
    FieldIsGrounded(Property("", s), place, known);
    InlineOfIsSmaller(Property("", s), place, GoTypes.Names(known));
    GroundedGrows(known, out, inline, [Declared(name, GoTypeOf(s, place).typ)], InlineOf(Property("", s), place));
  }

  lemma ArmsResolve(arms: seq<Schema>, known: string -> bool)
    requires AllResolve(arms, known)
    ensures forall arm :: arm in arms ==> Resolves(arm, known)
  {
    forall arm | arm in arms
      ensures Resolves(arm, known)
    {
      OneOfAll(arms, arm, known);
    }
  }

  function OrderedFields(order: seq<string>, types: map<string, GoType>): seq<Field>
    requires forall n :: n in order ==> n in types
  {
    seq(|order|, i requires 0 <= i < |order| => Field(order[i], types[order[i]], NeedsPointer(types[order[i]])))
  }

  lemma TallyFlattens(kind: GoType -> Kind, ps: seq<Property>, place: Placing, order: seq<string>, types: map<string,
                      GoType>)
    requires Tally(kind, ps, place, order, types)
    ensures FlattensTo(kind, ps, place, OrderedFields(order, types))
  {
    forall i | 0 <= i < |order|
      ensures JoinsTo(kind, ps, place, order[i], types[order[i]])
    {
    }
  }

  lemma DeclNamesAdd(ds: seq<Decl>, d: Decl)
    ensures DeclNames(ds + [d]) == DeclNames(ds) + {d.name}
  {
  }

  lemma InlinesSnoc(ps: seq<Property>, p: Property, place: Placing, base: seq<Inline>)
    ensures base + InlinesOf(ps + [p], place) ==
      base + InlinesOf(ps, place) + if place(p.name).Some? then InlineOf(p, place(p.name).value) else []
  {
    assert (ps + [p])[..|ps|] == ps;
  }
}
