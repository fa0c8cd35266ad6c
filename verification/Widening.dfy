/** One Go type for a field that several arms of a union declare. */
module Widening {
  import opened Options
  import opened Schemas
  import opened GoTypes

  datatype Kind = KString | KInteger | KNumber | KBoolean | NoKind

  function Canonical(k: Kind): GoType {
    match k
    case KString => Str
    case KInteger => Int64
    case KNumber => Float64
    case KBoolean => Bool
    case NoKind => Raw
  }

  /** The kinds of the built-in types, whatever the definitions are. */
  ghost predicate Sane(kind: GoType -> Kind) {
    kind(Str) == KString && kind(Int64) == KInteger && kind(Uint64) == KInteger && kind(Float64) == KNumber &&
    kind(Bool) == KBoolean && kind(Raw) == NoKind &&
    forall elem :: kind(Slice(elem)) == NoKind && kind(MapOf(elem)) == NoKind
  }

  function Widen(kind: GoType -> Kind, a: GoType, b: GoType): GoType {
    if kind(a) != kind(b) || kind(a) == NoKind then Raw else Canonical(kind(a))
  }

  /** What a later arm makes of the type so far. */
  function Merge(kind: GoType -> Kind, a: GoType, b: GoType): GoType {
    if a == b then a else Widen(kind, a, b)
  }

  /** Merging is the join of a semilattice with raw JSON at the top. */
  lemma MergeIsJoin(kind: GoType -> Kind, a: GoType, b: GoType)
    requires Sane(kind)
    ensures Merge(kind, a, a) == a
    ensures Merge(kind, a, b) == Merge(kind, b, a)
    ensures Merge(kind, a, Merge(kind, a, b)) == Merge(kind, a, b)
    ensures Merge(kind, a, Raw) == Raw
  {
    WidenedKind(kind, a, b);
  }

  lemma WidenedKind(kind: GoType -> Kind, a: GoType, b: GoType)
    requires Sane(kind)
    ensures kind(Widen(kind, a, b)) == if kind(a) == kind(b) then kind(a) else NoKind
  {
  }

  lemma MergeIsAssociative(kind: GoType -> Kind, a: GoType, b: GoType, c: GoType)
    requires Sane(kind)
    ensures Merge(kind, Merge(kind, a, b), c) == Merge(kind, a, Merge(kind, b, c))
  {
    WidenedKind(kind, a, b);
    WidenedKind(kind, b, c);
  }

  /** The type of a field over all the arms that have it, in their order. */
  function FoldTypes(kind: GoType -> Kind, types: seq<GoType>): GoType
    requires types != []
  {
    if |types| == 1 then types[0]
    else Merge(kind, FoldTypes(kind, types[..|types| - 1]), types[|types| - 1])
  }

  predicate AllAre(types: seq<GoType>, t: GoType) {
    forall u :: u in types ==> u == t
  }

  predicate AllHaveKind(kind: GoType -> Kind, types: seq<GoType>, k: Kind) {
    forall u :: u in types ==> kind(u) == k
  }

  /** The common type if the arms agree, else the type of their common kind, else raw JSON. */
  function Common(kind: GoType -> Kind, types: seq<GoType>): GoType
    requires types != []
  {
    if AllAre(types, types[0]) then types[0]
    else if kind(types[0]) != NoKind && AllHaveKind(kind, types, kind(types[0])) then Canonical(kind(types[0]))
    else Raw
  }

  lemma SnocConditions(kind: GoType -> Kind, front: seq<GoType>, last: GoType)
    requires Sane(kind) && front != []
    ensures Common(kind, front + [last]) == Merge(kind, Common(kind, front), last)
  {
    var types := front + [last];
    var first := front[0];
    assert types[0] == first && last in types;
    assert forall u :: u in types <==> u in front || u == last;
    assert AllAre(types, first) <==> AllAre(front, first) && last == first;
    assert AllHaveKind(kind, types, kind(first)) <==> AllHaveKind(kind, front, kind(first)) && kind(last) == kind(first);
  }

  lemma {:induction false} FoldIsCommon(kind: GoType -> Kind, types: seq<GoType>)
    requires Sane(kind) && types != []
    ensures FoldTypes(kind, types) == Common(kind, types)
  {
    if |types| > 1 {
      var front := types[..|types| - 1];
      var last := types[|types| - 1];
      FoldIsCommon(kind, front);
      SnocConditions(kind, front, last);
      assert types == front + [last];
    }
  }

  /** Only which types occur matters: not the order of the arms, nor how often. */
  lemma OrderDoesNotMatter(kind: GoType -> Kind, a: seq<GoType>, b: seq<GoType>)
    requires Sane(kind) && a != [] && b != []
    requires forall t :: t in a <==> t in b
    ensures FoldTypes(kind, a) == FoldTypes(kind, b)
  {
    FoldIsCommon(kind, a);
    FoldIsCommon(kind, b);
    assert a[0] in b && b[0] in a;
    if AllAre(a, a[0]) {
      assert AllAre(b, b[0]);
    }
    if AllHaveKind(kind, a, kind(a[0])) {
      assert AllHaveKind(kind, b, kind(b[0]));
    }
  }

  // ---------- resolving named types ----------

  /** The definition a look-up of a Go name comes upon, if there is one. */
  type Pick = string -> Option<string>

  /** Of several definitions exported to one name any may be come upon: a map has no order. */
  ghost predicate Picks(defs: map<string, Schema>, pick: Pick) {
    forall name ::
      match pick(name)
      case Some(d) => d in defs && ExportName(d) == name
      case None => forall d :: d in defs ==> ExportName(d) != name
  }

  function FirstScalar(types: seq<JsonType>): Kind {
    if types == [] then NoKind
    else
      match types[0]
      case StringType => KString
      case IntegerType => KInteger
      case NumberType => KNumber
      case BooleanType => KBoolean
      case _ => FirstScalar(types[1..])
  }

  /** What one look at a definition settles: what is looked for, or the next name to look at. */
  datatype Look<K> = Settled(end: K) | Next(name: string)

  function LookAt(def: Schema): Look<Kind> {
    var base := Base(def);
    if IsStringEnum(def) || EnumUnion(def) then Settled(KString)
    else if FirstScalar(base.types) != NoKind then Settled(FirstScalar(base.types))
    else if |base.allOf| == 1 then Next(RefName(base.allOf[0].ref))
    else Settled(NoKind)
  }

  function LookUp(defs: map<string, Schema>, pick: Pick): (look: string -> Look<Kind>)
    requires Picks(defs, pick)
    ensures Leads(look, Exports(defs))
  {
    (name: string) =>
      var d := pick(name);
      if d.None? then Settled(NoKind) else LookAt(defs[d.value])
  }

  /** The Go names the definitions export to. */
  function Exports(defs: map<string, Schema>): set<string> {
    set d | d in defs :: ExportName(d)
  }

  /** Only these names lead on to another. */
  ghost predicate Leads<K>(look: string -> Look<K>, names: set<string>) {
    forall n :: look(n).Next? ==> n in names
  }

  /** What following names comes to after so many look-ups; None while it is still looking. */
  function SettlesWithin<K>(look: string -> Look<K>, name: string, steps: nat): Option<K>
    decreases steps
  {
    match look(name)
    case Settled(end) => Some(end)
    case Next(n) => if steps == 0 then None else SettlesWithin(look, n, steps - 1)
  }

  lemma {:induction false} MoreStepsAgree<K>(look: string -> Look<K>, name: string, steps: nat, more: nat)
    requires steps <= more && SettlesWithin(look, name, steps).Some?
    ensures SettlesWithin(look, name, more) == SettlesWithin(look, name, steps)
    decreases steps
  {
    if look(name).Next? {
      MoreStepsAgree(look, look(name).name, steps - 1, more - 1);
    }
  }

  /** The same with the names it has passed through; None when it comes back to one of them. */
  function SettlesAt<K>(look: string -> Look<K>, names: set<string>, name: string, seen: set<string>): Option<K>
    requires Leads(look, names)
    decreases names - seen
  {
    match look(name)
    case Settled(end) => Some(end)
    case Next(n) => if name in seen then None else SettlesAt(look, names, n, seen + {name})
  }

  lemma {:induction false} SettledWithinSteps<K>(look: string -> Look<K>, names: set<string>, name: string, seen: set<string>)
    returns (steps: nat)
    requires Leads(look, names) && SettlesAt(look, names, name, seen).Some?
    ensures SettlesWithin(look, name, steps) == SettlesAt(look, names, name, seen)
    decreases names - seen
  {
    steps := 0;
    if look(name).Next? {
      var rest := SettledWithinSteps(look, names, look(name).name, seen + {name});
      steps := rest + 1;
    }
  }

  /** Every name passed leads to another one passed, or to the next. */
  ghost predicate Passed<K>(look: string -> Look<K>, seen: set<string>, next: string) {
    forall n :: n in seen ==> look(n).Next? && (look(n).name in seen || look(n).name == next)
  }

  lemma {:induction false} CircleNeverSettles<K>(look: string -> Look<K>, circle: set<string>, start: string, n: string,
                                        steps: nat)
    requires start in circle && n in circle && Passed(look, circle, start)
    ensures SettlesWithin(look, n, steps).None?
    decreases steps
  {
    if steps > 0 {
      CircleNeverSettles(look, circle, start, look(n).name, steps - 1);
    }
  }

  lemma {:induction false} RevisitNeverSettles<K>(look: string -> Look<K>, names: set<string>, name: string,
                                        seen: set<string>, steps: nat)
    requires Leads(look, names) && SettlesAt(look, names, name, seen).None? && Passed(look, seen, name)
    ensures SettlesWithin(look, name, steps).None?
    decreases names - seen
  {
    if name in seen {
      CircleNeverSettles(look, seen, name, name, steps);
    } else if steps > 0 {
      RevisitNeverSettles(look, names, look(name).name, seen + {name}, steps - 1);
    }
  }

  /**
    Following names from definition to definition, as jsonKind does along single allOf references, ends
    exactly when it does not come back to a name it has passed; otherwise no number of look-ups ends it.
   */
  lemma SettlesUnlessCircular<K>(look: string -> Look<K>, names: set<string>, name: string)
    requires Leads(look, names)
    ensures SettlesAt(look, names, name, {}).Some? <==> exists steps: nat :: SettlesWithin(look, name, steps).Some?
    ensures forall steps: nat :: SettlesWithin(look, name, steps).Some? ==>
      SettlesWithin(look, name, steps) == SettlesAt(look, names, name, {})
  {
    if SettlesAt(look, names, name, {}).Some? {
      var enough := SettledWithinSteps(look, names, name, {});
      forall steps: nat | SettlesWithin(look, name, steps).Some?
        ensures SettlesWithin(look, name, steps) == SettlesAt(look, names, name, {})
      {
        MoreStepsAgree(look, name, steps, if steps <= enough then enough else steps);
        MoreStepsAgree(look, name, enough, if steps <= enough then enough else steps);
      }
    } else {
      forall steps: nat
        ensures SettlesWithin(look, name, steps).None?
      {
        RevisitNeverSettles(look, names, name, {}, steps);
      }
    }
  }

  /** A definition that stands for itself, in two wrappers. */
  function SelfReference(ref: string): Schema {
    PERMISSIVE.(allOf := [PERMISSIVE.(allOf := [PERMISSIVE.(ref := ref)])])
  }

  lemma SelfReferenceLeadsOn(ref: string)
    ensures LookAt(SelfReference(ref)) == Next(RefName(ref))
  {
    var s := SelfReference(ref);
    assert Base(s) == s.allOf[0];
    assert FirstScalar(Base(s).types) == NoKind;
  }

  lemma LookUpOnly(name: string, s: Schema, pick: Pick)
    requires Picks(map[name := s], pick)
    ensures LookUp(map[name := s], pick)(ExportName(name)) == LookAt(s)
  {
    assert name in map[name := s];
  }

  lemma NextIsItself<K>(look: string -> Look<K>, names: set<string>, name: string)
    requires Leads(look, names) && look(name) == Next(name)
    ensures SettlesAt(look, names, name, {}).None? && forall steps: nat :: SettlesWithin(look, name, steps).None?
  {
    forall steps: nat
      ensures SettlesWithin(look, name, steps).None?
    {
      CircleNeverSettles(look, {name}, name, name, steps);
    }
    SettlesUnlessCircular(look, names, name);
  }

  /** Such a definition makes jsonKind look for ever. */
  lemma SelfReferenceNeverSettles(d: string, prefix: string, pick: Pick)
    requires '/' !in d && Picks(map[d := SelfReference(prefix + "/" + d)], pick)
    ensures var defs := map[d := SelfReference(prefix + "/" + d)];
      SettlesAt(LookUp(defs, pick), Exports(defs), ExportName(d), {}).None? &&
      forall steps: nat :: SettlesWithin(LookUp(defs, pick), ExportName(d), steps).None?
  {
    var s := SelfReference(prefix + "/" + d);
    SelfReferenceLeadsOn(prefix + "/" + d);
    RefNamesDefinition(prefix, d);
    LookUpOnly(d, s, pick);
    NextIsItself(LookUp(map[d := s], pick), Exports(map[d := s]), ExportName(d));
  }

  function NameKind(defs: map<string, Schema>, pick: Pick, name: string): Kind
    requires Picks(defs, pick)
  {
    var kind := SettlesAt(LookUp(defs, pick), Exports(defs), name, {});
    if kind.Some? then kind.value else NoKind
  }

  predicate IsScalar(t: JsonType) {
    t == StringType || t == IntegerType || t == NumberType || t == BooleanType
  }

  /** The kind of one scalar type. */
  predicate IsKindOf(k: Kind, t: JsonType) {
    (k == KString <==> t == StringType) && (k == KInteger <==> t == IntegerType) && (k == KNumber <==> t == NumberType) &&
    (k == KBoolean <==> t == BooleanType)
  }

  /** The i-th type is the first scalar one. */
  predicate IsFirstScalar(types: seq<JsonType>, i: nat) {
    i < |types| && IsScalar(types[i]) && forall j :: 0 <= j < i ==> !IsScalar(types[j])
  }

  /** The kind of the first scalar type among them, and none without one. */
  ghost predicate TellsKind(types: seq<JsonType>, k: Kind) {
    (k == NoKind && forall t :: t in types ==> !IsScalar(t)) ||
    exists i: nat :: IsFirstScalar(types, i) && IsKindOf(k, types[i])
  }

  lemma TellsMore(t: JsonType, rest: seq<JsonType>, k: Kind)
    requires !IsScalar(t) && TellsKind(rest, k)
    ensures TellsKind([t] + rest, k)
  {
    if i: nat :| IsFirstScalar(rest, i) && IsKindOf(k, rest[i]) {
      assert IsFirstScalar([t] + rest, i + 1) && ([t] + rest)[i + 1] == rest[i];
    }
  }

  lemma {:induction false} FirstScalarTells(types: seq<JsonType>)
    ensures TellsKind(types, FirstScalar(types))
  {
    if types != [] {
      if IsScalar(types[0]) {
        assert IsFirstScalar(types, 0);
      } else {
        FirstScalarTells(types[1..]);
        TellsMore(types[0], types[1..], FirstScalar(types[1..]));
        assert types == [types[0]] + types[1..];
      }
    }
  }

  lemma {:induction false} NoScalarNoKind(types: seq<JsonType>)
    ensures FirstScalar(types) == NoKind <==> forall t :: t in types ==> !IsScalar(t)
  {
    if types != [] {
      NoScalarNoKind(types[1..]);
      assert types[0] in types;
      assert types == [types[0]] + types[1..];
      assert forall t :: t in types <==> t == types[0] || t in types[1..];
    }
  }

  lemma NextSettlesAlike<K>(look: string -> Look<K>, names: set<string>, name: string)
    requires Leads(look, names) && look(name).Next? && SettlesAt(look, names, name, {}).Some?
    ensures SettlesAt(look, names, look(name).name, {}) == SettlesAt(look, names, name, {})
  {
    var steps := SettledWithinSteps(look, names, name, {});
    assert SettlesWithin(look, look(name).name, steps - 1) == SettlesWithin(look, name, steps);
    SettlesUnlessCircular(look, names, look(name).name);
  }

  /** A definition of text: a string type, an enum of strings only, or a union of text enums. */
  predicate SaysText(def: Schema) {
    StringType in def.types || (def.types == [] && def.enum != [] && forall v :: v in def.enum ==> v.JString?) ||
    AllTextEnums(if def.oneOf != [] then def.oneOf else def.anyOf)
  }

  predicate DeclaresScalar(s: Schema) {
    exists t :: t in s.types && IsScalar(t)
  }

  /** One look at a definition. */
  lemma LookTells(def: Schema)
    ensures SaysText(def) ==> LookAt(def) == Settled(KString)
    ensures !SaysText(def) && (DeclaresScalar(Base(def)) || |Base(def).allOf| != 1) ==>
      LookAt(def).Settled? && TellsKind(Base(def).types, LookAt(def).end)
    ensures !SaysText(def) && !DeclaresScalar(Base(def)) && |Base(def).allOf| == 1 ==>
      LookAt(def) == Next(RefName(Base(def).allOf[0].ref))
  {
    FirstScalarTells(Base(def).types);
    NoScalarNoKind(Base(def).types);
  }

  lemma NameKindFollows(defs: map<string, Schema>, pick: Pick, name: string)
    requires Picks(defs, pick)
    ensures var seen := LookUp(defs, pick)(name);
      match seen
      case Settled(k) => NameKind(defs, pick, name) == k
      case Next(n) =>
        NameKind(defs, pick, name) == NameKind(defs, pick, n) ||
        SettlesAt(LookUp(defs, pick), Exports(defs), name, {}).None?
  {
    var look := LookUp(defs, pick);
    if look(name).Next? && SettlesAt(look, Exports(defs), name, {}).Some? {
      NextSettlesAlike(look, Exports(defs), name);
    }
  }

  /**
    The kind of a name is told by the definition it leads to: text for a definition of text, else the first
    scalar type it declares, null and wrappers stripped, else the kind of the one reference in its wrapper,
    if following that ends, else none.
   */
  lemma NameKindIs(defs: map<string, Schema>, pick: Pick, name: string, d: string)
    requires Picks(defs, pick) && pick(name) == Some(d)
    ensures var base, k := Base(defs[d]), NameKind(defs, pick, name);
      if SaysText(defs[d]) then k == KString
      else if DeclaresScalar(base) || |base.allOf| != 1 then TellsKind(base.types, k)
      else k == NameKind(defs, pick, RefName(base.allOf[0].ref)) || SettlesAt(LookUp(defs, pick), Exports(defs), name, {}).None?
  {
    LookTells(defs[d]);
    NameKindFollows(defs, pick, name);
    assert LookUp(defs, pick)(name) == LookAt(defs[d]);
  }

  /** jsonKind, where it returns; on a name whose chain of references is circular it does not. */
  function JsonKind(defs: map<string, Schema>, pick: Pick): (kind: GoType -> Kind)
    requires Picks(defs, pick)
    ensures Sane(kind)
  {
    (typ: GoType) =>
      match typ
      case Str => KString
      case Int64 => KInteger
      case Uint64 => KInteger
      case Float64 => KNumber
      case Bool => KBoolean
      case Raw => NoKind
      case Slice(_) => NoKind
      case MapOf(_) => NoKind
      case Named(name) => NameKind(defs, pick, name)
  }
}
