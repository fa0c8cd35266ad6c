/** The generator's purpose in one theorem: its output decodes, to any depth, what the definitions admit. */
module Generated {
  import opened Options
  import opened Schemas
  import opened GoTypes
  import opened Widening
  import opened Declarations
  import opened ProtocolTypes
  import opened Decoding
  import opened TaggedUnions
  import opened Soundness
  import opened References

  /** What the declared types decode when followed to a given depth. */
  ghost function NamedAt(out: seq<Decl>, depth: nat): NamedTypes
    decreases depth
  {
    if depth == 0 then (name: string, v: Json) => true
    else (name: string, v: Json) => exists d :: d in out && d.name == name && DeclDecodes(out, NamedAt(out, depth - 1), d, v)
  }

  lemma EnumDecodes(out: seq<Decl>, depth: nat, e: Decl, v: Json)
    requires e in out && e.Enum? && ConstantOf(e.constants, v)
    ensures NamedAt(out, depth)(e.name, v)
  {
    if depth > 0 {
      assert DeclDecodes(out, NamedAt(out, depth - 1), e, v);
    }
  }

  /** What was rendered from definitions that pass their checks. */
  ghost predicate Prepared(naming: Naming, kind: GoType -> Kind, defs: Defs, out: seq<Decl>, inline: seq<Inline>,
                           refs: Referred, means: NamedTypes) {
    Rendered(naming, kind, defs, out, inline) && Meaning(naming, kind, defs, inline, refs, means) && AllFit(naming, defs) &&
    forall it :: it in inline ==> StructFits(it.schema)
  }

  /** Every definition that is a reference and nothing else has an end that takes what suits it. */
  ghost predicate ReferencesFit(naming: Naming, defs: Defs, refs: Referred) {
    forall d, v {:trigger Suits(naming, defs[d], v, refs)} ::
      d in defs && IsReferrer(naming, defs, d) && Suits(naming, defs[d], v, refs) ==> EndTakes(EndOf(naming, defs, d), v)
  }

  /** One definition, if what it mentions decodes. */
  lemma DefinitionDecodes(naming: Naming, kind: GoType -> Kind, defs: Defs, out: seq<Decl>, inline: seq<Inline>,
                          refs: Referred, means: NamedTypes, below: NamedTypes, d: string, v: Json) returns (decl: Decl)
    requires GoodOutput(naming, kind, defs, out, inline, refs, means, below) && ReferencesFit(naming, defs, refs)
    requires d in defs && IsFirst(naming, defs.Keys, d) && Suits(naming, defs[d], v, refs)
    ensures decl in out && decl.name == naming(d) && DeclDecodes(out, below, decl, v)
  {
    if RefersOn(defs[d]) {
      ReferenceDecodesExactly(naming, kind, defs, out, inline, refs, means, below, d, v);
      decl := Defined(naming(d), Named(RefName(RefOf(defs[d]))));
    } else if v.JNull? {
      var tag: Option<string>;
      decl, tag := DeclarationOf(naming, kind, defs, out, inline, d);
    } else {
      decl := DefinitionDeclares(naming, kind, defs, out, inline, refs, means, below, d, v);
      if IsReference(decl) {
        var e := WrappedObjectEnds(naming, kind, defs, out, inline, refs, means, below, decl.target.name, v);
        assert BareDecodes(below, e, v);
      }
    }
  }

  lemma RefDecodes(naming: Naming, kind: GoType -> Kind, defs: Defs, out: seq<Decl>, inline: seq<Inline>,
                   refs: Referred, means: NamedTypes, below: NamedTypes, ref: string, v: Json) returns (decl: Decl)
    requires GoodOutput(naming, kind, defs, out, inline, refs, means, below) && ReferencesFit(naming, defs, refs)
    requires refs(ref, v)
    ensures decl in out && decl.name == RefName(ref) && DeclDecodes(out, below, decl, v)
  {
    NextDefinition(naming, kind, defs, inline, refs, means, ref, v);
    var d :| d in defs && IsFirst(naming, defs.Keys, d) && naming(d) == RefName(ref) && Suits(naming, defs[d], v, refs);
    decl := DefinitionDecodes(naming, kind, defs, out, inline, refs, means, below, d, v);
  }

  /** Every definition's name decodes the values that suit it. */
  ghost predicate DefinitionsDecode(naming: Naming, defs: Defs, refs: Referred, named: NamedTypes) {
    forall d, w {:trigger Suits(naming, defs[d], w, refs)} ::
      d in defs && IsFirst(naming, defs.Keys, d) && Suits(naming, defs[d], w, refs) ==> named(naming(d), w)
  }

  /** A name decodes what a declaration of it decodes, one level deeper than what that mentions. */
  ghost predicate Deepens(out: seq<Decl>, below: NamedTypes, named: NamedTypes) {
    forall d, w :: d in out && DeclDecodes(out, below, d, w) ==> named(d.name, w)
  }

  /** What is declared decodes one level deeper than what it mentions. */
  lemma OneDeeper(naming: Naming, kind: GoType -> Kind, defs: Defs, out: seq<Decl>, inline: seq<Inline>, refs: Referred,
                  means: NamedTypes, below: NamedTypes, named: NamedTypes)
    requires GoodOutput(naming, kind, defs, out, inline, refs, means, below) && ReferencesFit(naming, defs, refs)
    requires Deepens(out, below, named)
    ensures NamedDecode(naming, named, refs, inline) && DefinitionsDecode(naming, defs, refs, named)
  {
    forall d, w {:trigger Suits(naming, defs[d], w, refs)} |
      d in defs && IsFirst(naming, defs.Keys, d) && Suits(naming, defs[d], w, refs)
      ensures named(naming(d), w)
    {
      var decl := DefinitionDecodes(naming, kind, defs, out, inline, refs, means, below, d, w);
    }
    forall ref, w | refs(ref, w)
      ensures named(RefName(ref), w)
    {
      var decl := RefDecodes(naming, kind, defs, out, inline, refs, means, below, ref, w);
    }
    forall it, w | it in inline && FitsObject(naming, it.schema, w, refs)
      ensures named(it.name, w)
    {
      var decl := InlineDecodes(naming, kind, defs, out, inline, refs, below, it, w);
    }
  }

  lemma EnumsDecodeAt(out: seq<Decl>, depth: nat)
    ensures EnumsDecode(out, NamedAt(out, depth))
  {
    forall e, w | e in out && e.Enum? && ConstantOf(e.constants, w)
      ensures NamedAt(out, depth)(e.name, w)
    {
      EnumDecodes(out, depth, e, w);
    }
  }

  lemma DeclaredDecodes(out: seq<Decl>, depth: nat)
    ensures Deepens(out, NamedAt(out, depth), NamedAt(out, depth + 1))
  {
  }

  lemma {:induction false} GoodToAnyDepth(naming: Naming, kind: GoType -> Kind, defs: Defs, out: seq<Decl>,
                                          inline: seq<Inline>, refs: Referred, means: NamedTypes, level: nat -> NamedTypes,
                                          depth: nat)
    requires Prepared(naming, kind, defs, out, inline, refs, means) && ReferencesFit(naming, defs, refs)
    requires forall n, w :: level(0)(n, w)
    requires forall k: nat :: EnumsDecode(out, level(k)) && Deepens(out, level(k), level(k + 1))
    ensures NamedDecode(naming, level(depth), refs, inline) && DefinitionsDecode(naming, defs, refs, level(depth))
    decreases depth
  {
    if depth > 0 {
      GoodToAnyDepth(naming, kind, defs, out, inline, refs, means, level, depth - 1);
      var below, named := level(depth - 1), level(depth);
      assert EnumsDecode(out, below) && Deepens(out, below, level(depth - 1 + 1));
      OneDeeper(naming, kind, defs, out, inline, refs, means, below, named);
    }
  }

  lemma Levels(out: seq<Decl>, level: nat -> NamedTypes)
    requires forall k: nat :: level(k) == NamedAt(out, k)
    ensures forall n, w :: level(0)(n, w)
    ensures forall k: nat :: EnumsDecode(out, level(k)) && Deepens(out, level(k), level(k + 1))
  {
    forall k: nat
      ensures EnumsDecode(out, level(k)) && Deepens(out, level(k), level(k + 1))
    {
      EnumsDecodeAt(out, k);
      DeclaredDecodes(out, k);
    }
  }

  /** A reference leads to the first definition of its Go name, and is followed by values that suit it. */
  ghost predicate Follows(defs: Defs, pick: Pick, refs: Referred)
    requires Picks(defs, pick)
  {
    forall ref, w {:trigger LeadsTo(defs, pick, refs, ref, w)} :: refs(ref, w) ==> LeadsTo(defs, pick, refs, ref, w)
  }

  ghost predicate LeadsTo(defs: Defs, pick: Pick, refs: Referred, ref: string, w: Json)
    requires Picks(defs, pick)
  {
    pick(RefName(ref)).Some? && IsFirst(ExportName, defs.Keys, pick(RefName(ref)).value) &&
    Suits(ExportName, defs[pick(RefName(ref)).value], w, refs)
  }

  ghost function Meant(defs: Defs, pick: Pick, refs: Referred): (means: NamedTypes)
    requires Picks(defs, pick)
    ensures forall n, w :: means(n, w) <==> MeantBy(defs, pick, refs, n, w)
  {
    (n: string, w: Json) => MeantBy(defs, pick, refs, n, w)
  }

  lemma PickedHasName(defs: Defs, pick: Pick, name: string)
    requires Picks(defs, pick)
    ensures pick(name).Some? ==> pick(name).value in defs && ExportName(pick(name).value) == name
  {
  }

  lemma FollowedRefers(defs: Defs, pick: Pick, refs: Referred, ref: string, w: Json)
    requires Picks(defs, pick) && Follows(defs, pick, refs) && refs(ref, w)
    ensures MeantBy(defs, pick, refs, RefName(ref), w) && RefersTo(ExportName, defs, refs, ref, w)
  {
    PickedHasName(defs, pick, RefName(ref));
    assert LeadsTo(defs, pick, refs, ref, w);
    var d := pick(RefName(ref)).value;
    assert IsFirst(ExportName, defs.Keys, d);
  }

  lemma FollowsInterprets(defs: Defs, pick: Pick, refs: Referred)
    requires Picks(defs, pick) && Follows(defs, pick, refs)
    ensures Interprets(defs, pick, refs)
  {
    forall ref, w | refs(ref, w)
      ensures pick(RefName(ref)).Some? && Admits(defs[pick(RefName(ref)).value], w, refs)
    {
      assert LeadsTo(defs, pick, refs, ref, w);
    }
  }

  lemma MeantKinds(defs: Defs, pick: Pick, refs: Referred, kind: GoType -> Kind, means: NamedTypes)
    requires Picks(defs, pick) && pick("").None? && Follows(defs, pick, refs)
    requires forall d :: d in defs ==> KindTyped(defs[d])
    requires kind == JsonKind(defs, pick) && means == Meant(defs, pick, refs)
    ensures Sane(kind) && KindSound(kind, means)
  {
    FollowsInterprets(defs, pick, refs);
    JsonKindIsSound(defs, pick, refs, means);
  }

  lemma MeantRefs(defs: Defs, pick: Pick, refs: Referred, naming: Naming, means: NamedTypes)
    requires Picks(defs, pick) && Follows(defs, pick, refs) && naming == ExportName && means == Meant(defs, pick, refs)
    ensures forall ref, w :: refs(ref, w) ==> means(RefName(ref), w)
    ensures forall ref, w {:trigger RefersTo(naming, defs, refs, ref, w)} ::
      refs(ref, w) ==> RefersTo(naming, defs, refs, ref, w)
  {
    forall ref, w | refs(ref, w)
      ensures means(RefName(ref), w)
    {
      FollowedRefers(defs, pick, refs, ref, w);
    }
    forall ref, w {:trigger RefersTo(naming, defs, refs, ref, w)} | refs(ref, w)
      ensures RefersTo(naming, defs, refs, ref, w)
    {
      FollowedRefers(defs, pick, refs, ref, w);
    }
  }

  lemma MeantTags(defs: Defs, pick: Pick, naming: Naming, means: NamedTypes)
    requires TagNamesFree(naming, defs)
    requires forall n :: pick(n).Some? ==> pick(n).value in defs && naming(pick(n).value) == n
    requires forall n, w :: pick(n).None? ==> means(n, w)
    ensures forall d, w :: d in defs && IsFlattened(defs[d]) ==> means(naming(d) + TAG_SUFFIX, w)
  {
    forall d, w | d in defs && IsFlattened(defs[d])
      ensures means(naming(d) + TAG_SUFFIX, w)
    {
      assert pick(naming(d) + TAG_SUFFIX).None?;
    }
  }

  lemma MeantIsMeaning(defs: Defs, pick: Pick, inline: seq<Inline>, refs: Referred, naming: Naming,
                       kind: GoType -> Kind, means: NamedTypes)
    requires Picks(defs, pick) && pick("").None? && Follows(defs, pick, refs) && TagNamesFree(naming, defs)
    requires forall d :: d in defs ==> KindTyped(defs[d])
    requires forall it :: it in inline ==> pick(it.name).None?
    requires naming == ExportName && kind == JsonKind(defs, pick) && means == Meant(defs, pick, refs)
    ensures Meaning(naming, kind, defs, inline, refs, means)
  {
    MeantKinds(defs, pick, refs, kind, means);
    MeantRefs(defs, pick, refs, naming, means);
    forall n | pick(n).Some?
      ensures pick(n).value in defs && naming(pick(n).value) == n
    {
      PickedHasName(defs, pick, n);
    }
    MeantTags(defs, pick, naming, means);
  }

  lemma AtDepth(naming: Naming, kind: GoType -> Kind, defs: Defs, out: seq<Decl>, inline: seq<Inline>, refs: Referred,
                means: NamedTypes, depth: nat)
    requires Prepared(naming, kind, defs, out, inline, refs, means) && ReferencesFit(naming, defs, refs)
    ensures DefinitionsDecode(naming, defs, refs, NamedAt(out, depth))
  {
    var level := (k: nat) => NamedAt(out, k);
    Levels(out, level);
    GoodToAnyDepth(naming, kind, defs, out, inline, refs, means, level, depth);
  }

  /** Nothing is asked of the types at depth 0. */
  lemma AtDepthZero(naming: Naming, kind: GoType -> Kind, defs: Defs, out: seq<Decl>, inline: seq<Inline>, refs: Referred,
                    means: NamedTypes)
    requires Prepared(naming, kind, defs, out, inline, refs, means)
    ensures GoodOutput(naming, kind, defs, out, inline, refs, means, NamedAt(out, 0))
  {
    EnumsDecodeAt(out, 0);
  }

  /** A reference that decodes has an end that takes the value. */
  lemma EndTakesWhatDecodes(naming: Naming, kind: GoType -> Kind, defs: Defs, out: seq<Decl>, inline: seq<Inline>,
                            refs: Referred, means: NamedTypes, below: NamedTypes, d: string, decl: Decl, v: Json)
    requires GoodOutput(naming, kind, defs, out, inline, refs, means, below) && DeclaredOnce(out)
    requires IsReferrer(naming, defs, d) && Suits(naming, defs[d], v, refs)
    requires decl in out && decl.name == naming(d) && DeclDecodes(out, below, decl, v)
    ensures EndTakes(EndOf(naming, defs, d), v)
  {
    ReferenceDecodesExactly(naming, kind, defs, out, inline, refs, means, below, d, v);
    OneByName(out, decl, Defined(naming(d), Named(RefName(RefOf(defs[d])))));
  }

  lemma ReferencesOfDecoding(naming: Naming, kind: GoType -> Kind, defs: Defs, out: seq<Decl>, inline: seq<Inline>,
                             refs: Referred, means: NamedTypes)
    requires Prepared(naming, kind, defs, out, inline, refs, means) && DeclaredOnce(out)
    requires DefinitionsDecode(naming, defs, refs, NamedAt(out, 1))
    ensures ReferencesFit(naming, defs, refs)
  {
    AtDepthZero(naming, kind, defs, out, inline, refs, means);
    forall d, v {:trigger Suits(naming, defs[d], v, refs)} |
      d in defs && IsReferrer(naming, defs, d) && Suits(naming, defs[d], v, refs)
      ensures EndTakes(EndOf(naming, defs, d), v)
    {
      var decl :| decl in out && decl.name == naming(d) && DeclDecodes(out, NamedAt(out, 0), decl, v);
      EndTakesWhatDecodes(naming, kind, defs, out, inline, refs, means, NamedAt(out, 0), d, decl, v);
    }
  }

  /** Every value that suits a definition decodes into its type, however far its parts are followed. */
  ghost predicate Decoded(naming: Naming, defs: Defs, refs: Referred, out: seq<Decl>) {
    forall depth: nat :: DefinitionsDecode(naming, defs, refs, NamedAt(out, depth))
  }

  lemma DecodedExactly(naming: Naming, kind: GoType -> Kind, defs: Defs, out: seq<Decl>, inline: seq<Inline>,
                       refs: Referred, means: NamedTypes)
    requires Prepared(naming, kind, defs, out, inline, refs, means) && DeclaredOnce(out)
    ensures Decoded(naming, defs, refs, out) <==> ReferencesFit(naming, defs, refs)
  {
    if ReferencesFit(naming, defs, refs) {
      forall depth: nat
        ensures DefinitionsDecode(naming, defs, refs, NamedAt(out, depth))
      {
        AtDepth(naming, kind, defs, out, inline, refs, means, depth);
      }
    }
    if DefinitionsDecode(naming, defs, refs, NamedAt(out, 1)) {
      ReferencesOfDecoding(naming, kind, defs, out, inline, refs, means);
    }
  }

  /** The definitions and the unnamed objects pass their checks. */
  ghost predicate Checked(naming: Naming, defs: Defs, inline: seq<Inline>) {
    AllFit(naming, defs) && (forall d :: d in defs ==> KindTyped(defs[d])) && TagNamesFree(naming, defs) &&
    forall it :: it in inline ==> StructFits(it.schema)
  }

  /**
    The generated types decode the protocol: a value that suits a definition decodes into the type
    declared for it to any depth, whatever definitions and unnamed objects its parts lead to. That is so
    for every definition and value if and only if the chain of every definition that is a reference and
    nothing else has an end that takes what suits the definition. The definitions and the unnamed
    objects pass their checks, and each of them has a declaration that was made for it.
   */
  lemma GeneratedTypesDecode(defs: Defs, pick: Pick, naming: Naming, kind: GoType -> Kind, out: seq<Decl>,
                             inline: seq<Inline>, refs: Referred)
    requires naming == ExportName && Picks(defs, pick) && kind == JsonKind(defs, pick)
    requires Follows(defs, pick, refs) && pick("").None? && forall it :: it in inline ==> pick(it.name).None?
    requires Checked(naming, defs, inline) && Rendered(naming, kind, defs, out, inline) && DeclaredOnce(out)
    ensures Decoded(naming, defs, refs, out) <==> ReferencesFit(naming, defs, refs)
  {
    MeantIsMeaning(defs, pick, inline, refs, naming, kind, Meant(defs, pick, refs));
    DecodedExactly(naming, kind, defs, out, inline, refs, Meant(defs, pick, refs));
  }
}
