/** From schemas to Go names and Go types. */
module GoTypes {
  import Strings = Names
  import opened Options
  import opened Schemas

  // ---------- exported names ----------

  predicate Lower(c: char) { 'a' <= c <= 'z' }

  predicate Upper(c: char) { 'A' <= c <= 'Z' }

  predicate Digit(c: char) { '0' <= c <= '9' }

  predicate Alnum(c: char) { Lower(c) || Upper(c) || Digit(c) }

  function ToUpper(c: char): char {
    if Lower(c) then c - 32 as char else c
  }

  /** Words joined, each with an upper-case first letter; anything else is a word boundary. */
  function Camel(s: string, upper: bool): (r: string)
    ensures forall c :: c in r ==> Alnum(c)
    ensures upper && r != "" ==> !Lower(r[0])
  {
    if s == "" then ""
    else if !Alnum(s[0]) then Camel(s[1..], true)
    else if Digit(s[0]) then [s[0]] + Camel(s[1..], false)
    else [if upper then ToUpper(s[0]) else s[0]] + Camel(s[1..], false)
  }

  const INITIALISM_COUNT: nat := 10

  /** The suffixes that are respelled, in the order they are tried. */
  function Initialism(k: nat): (string, string) {
    match k
    case 0 => ("Id", "ID")
    case 1 => ("Url", "URL")
    case 2 => ("Uri", "URI")
    case 3 => ("Api", "API")
    case 4 => ("Json", "JSON")
    case 5 => ("Http", "HTTP")
    case 6 => ("Mcp", "MCP")
    case 7 => ("Sdp", "SDP")
    case 8 => ("Cwd", "Cwd")
    case _ => ("Ts", "Ts")
  }

  function Respelled(s: string, pair: (string, string)): string {
    if Strings.HasSuffix(s, pair.0) then s[..|s| - |pair.0|] + pair.1 else s
  }

  function WithInitialisms(s: string, table: nat -> (string, string), from: nat): string
    decreases INITIALISM_COUNT - from
  {
    if from >= INITIALISM_COUNT then s else WithInitialisms(Respelled(s, table(from)), table, from + 1)
  }

  function Identifier(s: string): string {
    if s != "" && Digit(s[0]) then "N" + s else s
  }

  function ExportName(s: string): string {
    WithInitialisms(Identifier(Camel(s, true)), Initialism, 0)
  }

  /** A Go identifier that begins with an upper-case letter, or nothing at all. */
  predicate Exported(s: string) {
    (forall c :: c in s ==> Alnum(c)) && (s != "" ==> Upper(s[0]))
  }

  /** A suffix ends in lower case and its new spelling, if it differs, in upper case. */
  predicate GoodPair(pair: (string, string)) {
    pair.0 != "" && pair.1 != "" && Lower(pair.0[|pair.0| - 1]) && Exported(pair.1) &&
    (pair.0 != pair.1 ==> Upper(pair.1[|pair.1| - 1]))
  }

  lemma InitialismsAreGood()
    ensures forall k: nat :: GoodPair(Initialism(k))
  {
  }

  predicate EndsUpper(s: string) {
    s != "" && Upper(s[|s| - 1])
  }

  lemma RespelledOnce(s: string, pair: (string, string))
    requires GoodPair(pair)
    ensures Exported(s) ==> Exported(Respelled(s, pair))
    ensures EndsUpper(s) ==> Respelled(s, pair) == s
    ensures Respelled(s, pair) == s || EndsUpper(Respelled(s, pair))
  {
    if Strings.HasSuffix(s, pair.0) {
      assert s[|s| - 1] == pair.0[|pair.0| - 1];
      assert s == s[..|s| - |pair.0|] + pair.0;
    }
  }

  predicate Untouched(s: string, table: nat -> (string, string), from: nat)
    decreases INITIALISM_COUNT - from
  {
    from >= INITIALISM_COUNT || (Respelled(s, table(from)) == s && Untouched(s, table, from + 1))
  }

  /** Respelling twice is respelling once. */
  lemma {:induction false} InitialismsSettle(s: string, table: nat -> (string, string), from: nat)
    requires forall k: nat :: GoodPair(table(k))
    ensures var r := WithInitialisms(s, table, from);
      (Exported(s) ==> Exported(r)) && (EndsUpper(s) ==> r == s) && (EndsUpper(r) || (r == s && Untouched(s, table, from)))
    decreases INITIALISM_COUNT - from
  {
    if from < INITIALISM_COUNT {
      RespelledOnce(s, table(from));
      InitialismsSettle(Respelled(s, table(from)), table, from + 1);
    }
  }

  lemma {:induction false} NothingToRespell(s: string, table: nat -> (string, string), from: nat)
    requires Untouched(s, table, from)
    ensures WithInitialisms(s, table, from) == s
    decreases INITIALISM_COUNT - from
  {
    if from < INITIALISM_COUNT {
      NothingToRespell(s, table, from + 1);
    }
  }

  lemma {:induction false} CamelKeeps(s: string, upper: bool)
    requires forall c :: c in s ==> Alnum(c)
    requires upper && s != "" ==> !Lower(s[0])
    ensures Camel(s + "_", upper) == s
  {
    if s != "" {
      CamelKeeps(s[1..], false);
      assert (s + "_")[1..] == s[1..] + "_";
      assert s == [s[0]] + s[1..];
    } else {
      assert ("" + "_")[1..] == "";
    }
  }

  lemma IdentifierIsExported(s: string)
    ensures Exported(Identifier(Camel(s, true)))
  {
  }

  lemma RespellingIsIdempotent(s: string, table: nat -> (string, string))
    requires Exported(s) && forall k: nat :: GoodPair(table(k))
    ensures var name := WithInitialisms(s, table, 0);
      Exported(name) && WithInitialisms(name, table, 0) == name
  {
    var name := WithInitialisms(s, table, 0);
    InitialismsSettle(s, table, 0);
    if EndsUpper(name) {
      InitialismsSettle(name, table, 0);
    } else {
      NothingToRespell(name, table, 0);
    }
  }

  /** Exporting an exported name again, even with an empty field appended, gives the same name. */
  lemma ExportIsIdempotent(s: string)
    ensures Exported(ExportName(s))
    ensures ExportName(ExportName(s) + "_") == ExportName(s)
  {
    InitialismsAreGood();
    IdentifierIsExported(s);
    RespellingIsIdempotent(Identifier(Camel(s, true)), Initialism);
    CamelKeeps(ExportName(s), true);
    assert Identifier(ExportName(s)) == ExportName(s);
  }

  // ---------- what exporting keeps ----------

  /** ASCII letters without their case. */
  function Uncased(s: string): string {
    if s == "" then "" else [if Upper(s[0]) then s[0] + 32 as char else s[0]] + Uncased(s[1..])
  }

  /** The letters and digits. */
  function Alnums(s: string): string {
    if s == "" then "" else if Alnum(s[0]) then [s[0]] + Alnums(s[1..]) else Alnums(s[1..])
  }

  lemma {:induction false} UncasedJoin(a: string, b: string)
    ensures Uncased(a + b) == Uncased(a) + Uncased(b)
  {
    if a == "" {
      assert a + b == b;
    } else {
      assert (a + b)[1..] == a[1..] + b;
      UncasedJoin(a[1..], b);
    }
  }

  lemma {:induction false} CamelKeepsLetters(s: string, upper: bool)
    ensures Uncased(Camel(s, upper)) == Uncased(Alnums(s))
  {
    if s != "" {
      CamelKeepsLetters(s[1..], true);
      CamelKeepsLetters(s[1..], false);
    }
  }

  lemma RespellingKeepsLetters(s: string, pair: (string, string))
    requires Uncased(pair.0) == Uncased(pair.1)
    ensures Uncased(Respelled(s, pair)) == Uncased(s)
  {
    if Strings.HasSuffix(s, pair.0) {
      UncasedJoin(s[..|s| - |pair.0|], pair.0);
      UncasedJoin(s[..|s| - |pair.0|], pair.1);
      assert s == s[..|s| - |pair.0|] + pair.0;
    }
  }

  lemma {:induction false} InitialismsKeepLetters(s: string, table: nat -> (string, string), from: nat)
    requires forall k: nat :: Uncased(table(k).0) == Uncased(table(k).1)
    ensures Uncased(WithInitialisms(s, table, from)) == Uncased(s)
    decreases INITIALISM_COUNT - from
  {
    if from < INITIALISM_COUNT {
      RespellingKeepsLetters(s, table(from));
      InitialismsKeepLetters(Respelled(s, table(from)), table, from + 1);
    }
  }

  lemma InitialismsKeepCaseless(k: nat)
    ensures Uncased(Initialism(k).0) == Uncased(Initialism(k).1)
  {
    assert Uncased("Id") == Uncased("ID") && Uncased("Url") == Uncased("URL") && Uncased("Uri") == Uncased("URI");
    assert Uncased("Api") == Uncased("API") && Uncased("Json") == Uncased("JSON") && Uncased("Http") == Uncased("HTTP");
    assert Uncased("Mcp") == Uncased("MCP") && Uncased("Sdp") == Uncased("SDP");
  }

  /**
    An exported name has all the letters and digits of the name in their order, up to case, behind an N
    where the first of them is a digit: names that are exported alike differ in case and separators only.
   */
  lemma ExportKeepsLetters(s: string)
    ensures Uncased(ExportName(s)) == (if Alnums(s) != "" && Digit(Alnums(s)[0]) then "n" else "") + Uncased(Alnums(s))
  {
    CamelKeepsLetters(s, true);
    forall k: nat
      ensures Uncased(Initialism(k).0) == Uncased(Initialism(k).1)
    {
      InitialismsKeepCaseless(k);
    }
    InitialismsKeepLetters(Identifier(Camel(s, true)), Initialism, 0);
    CamelBegins(s, true);
    UncasedJoin("N", Camel(s, true));
    assert Uncased("N") == "n";
  }

  lemma {:induction false} CamelBegins(s: string, upper: bool)
    ensures Camel(s, upper) == "" <==> Alnums(s) == ""
    ensures Alnums(s) != "" ==> (Digit(Camel(s, upper)[0]) <==> Digit(Alnums(s)[0]))
  {
    if s != "" && !Alnum(s[0]) {
      CamelBegins(s[1..], true);
    }
  }

  /** What follows the last slash. */
  function LastSegment(ref: string): string {
    if '/' in ref then (if ref[0] == '/' && '/' !in ref[1..] then ref[1..] else LastSegment(ref[1..])) else ref
  }

  function RefName(ref: string): string {
    if ref == "" then "" else ExportName(LastSegment(ref))
  }

  lemma {:induction false} LastSegmentOf(prefix: string, name: string)
    requires '/' !in name
    ensures LastSegment(prefix + "/" + name) == name
  {
    var ref := prefix + "/" + name;
    if prefix != "" {
      assert ref[1..] == prefix[1..] + "/" + name;
      assert ref[1..][|prefix| - 1] == '/';
      LastSegmentOf(prefix[1..], name);
    } else {
      assert ref[1..] == name;
    }
    assert ref[|prefix|] == '/';
  }

  /** A reference to a definition, wherever definitions are kept, has the definition's Go name. */
  lemma RefNamesDefinition(prefix: string, name: string)
    requires '/' !in name
    ensures RefName(prefix + "/" + name) == ExportName(name)
  {
    LastSegmentOf(prefix, name);
  }

  // ---------- Go types ----------

  datatype GoType =
    | Str | Bool | Int64 | Uint64 | Float64 | Raw
    | Slice(elem: GoType)
    | MapOf(elem: GoType)
    | Named(name: string)

  /** An object type the schema declares without a name. */
  datatype Inline = Inline(name: string, schema: Schema)

  /** The type, and the one unnamed object it may mention. */
  datatype Typed = Typed(typ: GoType, inline: Option<Inline>)

  /** The names a type mentions. */
  function Mentions(typ: GoType): set<string> {
    match typ
    case Named(name) => {name}
    case Slice(elem) => Mentions(elem)
    case MapOf(elem) => Mentions(elem)
    case _ => {}
  }

  /** An array or map of something described by a part of the schema, or just that something. */
  datatype Wrapper = Itself | AsSlice | AsMap

  function Wrap(typ: GoType, wrapper: Wrapper): (r: GoType)
    ensures Mentions(r) == Mentions(typ)
  {
    match wrapper
    case Itself => typ
    case AsSlice => Slice(typ)
    case AsMap => MapOf(typ)
  }

  datatype Inner = Inner(part: Schema, wrapper: Wrapper)

  predicate TypedAs(b: Schema, t: JsonType) {
    b.ref == "" && |b.allOf| != 1 && b.enum == [] && ConcreteType(b.types) == t
  }

  /** The part of the base that the type goes on to. */
  function InnerOf(b: Schema): (r: Option<Inner>)
    ensures r.Some? ==>
      r.value.part in b.allOf || b.items == Some(r.value.part) || b.additional == Additional(r.value.part)
  {
    if b.ref == "" && |b.allOf| == 1 then Some(Inner(b.allOf[0], Itself))
    else if TypedAs(b, ArrayType) && b.items.Some? then Some(Inner(b.items.value, AsSlice))
    else if TypedAs(b, ObjectType) && b.properties == [] && b.additional.Additional? then
      Some(Inner(b.additional.schema, AsMap))
    else None
  }

  predicate IsObject(b: Schema) {
    TypedAs(b, ObjectType) && b.properties != []
  }

  /** The type a base determines outright. */
  function Known(b: Schema): (r: GoType)
    ensures Mentions(r) == if b.ref != "" then {RefName(b.ref)} else {}
  {
    if b.ref != "" then Named(RefName(b.ref))
    else if b.enum != [] then Str
    else
      match ConcreteType(b.types)
      case StringType => Str
      case BooleanType => Bool
      case IntegerType => if b.format == "uint64" || b.format == "uint32" then Uint64 else Int64
      case NumberType => Float64
      case ArrayType => Slice(Raw)
      case ObjectType => if b.additional.AnyAdditional? then MapOf(Raw) else Raw
      case _ => if EnumUnion(b) then Str else Raw
  }

  /** Every arm of the union is an enum whose declared types, if any, are string and null. */
  predicate AllTextEnums(arms: seq<Schema>) {
    arms != [] && forall arm :: arm in arms ==> arm.enum != [] && forall t :: t in arm.types ==> t == StringType || t == NullType
  }

  /**
    Raw JSON is the last resort: without a reference and an enum, for an object that says nothing of its
    members, and for a schema without a known type that is no union of text enums.
   */
  lemma RawIsLastResort(b: Schema)
    ensures Known(b) == Raw <==>
      b.ref == "" && b.enum == [] &&
      match ConcreteType(b.types)
      case ObjectType => !b.additional.AnyAdditional?
      case OtherType => !AllTextEnums(if b.oneOf != [] then b.oneOf else b.anyOf)
      case NullType => !AllTextEnums(if b.oneOf != [] then b.oneOf else b.anyOf)
      case _ => false
  {
  }

  /** The numbers a Go integer type holds. */
  predicate HoldsInteger(typ: GoType, n: int) {
    match typ
    case Int64 => -0x8000_0000_0000_0000 <= n < 0x8000_0000_0000_0000
    case Uint64 => 0 <= n < 0x1_0000_0000_0000_0000
    case _ => false
  }

  /** An integer's format decides the numbers its type holds: those of 64 bits, without a sign for an unsigned format. */
  lemma IntegersHold(b: Schema, n: int)
    requires b.ref == "" && b.enum == [] && ConcreteType(b.types) == IntegerType
    ensures HoldsInteger(Known(b), n) <==>
      if b.format in {"uint64", "uint32"} then 0 <= n < 0x1_0000_0000_0000_0000
      else -0x8000_0000_0000_0000 <= n < 0x8000_0000_0000_0000
  {
  }

  /** How names become Go identifiers: ExportName, wherever its details do not matter. */
  type Naming = string -> string

  /** What an unnamed object at this field is called. */
  function PlaceName(naming: Naming, owner: string, field: string): string {
    naming(owner + "_" + field)
  }

  /** goType; `name` is what an unnamed object at this place is called. */
  function GoTypeOf(s: Schema, name: string): Typed
    decreases s
  {
    var b := Base(s);
    if InnerOf(b).Some? then
      var inner := GoTypeOf(InnerOf(b).value.part, name);
      inner.(typ := Wrap(inner.typ, InnerOf(b).value.wrapper))
    else if IsObject(b) then
      Typed(Named(name), Some(Inline(name, b)))
    else Typed(Known(b), None)
  }

  /** Null and wrappers stripped, arrays and maps followed inwards, there is an object with properties. */
  predicate EndsInObject(s: Schema)
    decreases s
  {
    if InnerOf(Base(s)).Some? then EndsInObject(InnerOf(Base(s)).value.part) else IsObject(Base(s))
  }

  lemma {:induction false} InlineIffObject(s: Schema, name: string)
    ensures GoTypeOf(s, name).inline.Some? <==> EndsInObject(s)
    decreases s
  {
    if InnerOf(Base(s)).Some? {
      InlineIffObject(InnerOf(Base(s)).value.part, name);
    }
  }

  /** The reference that is all of the type, null and wrappers stripped; empty if there is none. */
  function RefOf(s: Schema): string
    decreases s
  {
    if InnerOf(Base(s)).None? then Base(s).ref
    else if InnerOf(Base(s)).value.wrapper.Itself? then RefOf(InnerOf(Base(s)).value.part)
    else ""
  }

  lemma {:induction false} RefIsType(s: Schema, name: string)
    ensures RefOf(s) != "" ==> GoTypeOf(s, name) == Typed(Named(RefName(RefOf(s))), None)
    ensures RefOf(s) == "" && GoTypeOf(s, name).typ.Named? ==> GoTypeOf(s, name).inline.Some?
    decreases s
  {
    if InnerOf(Base(s)).Some? {
      RefIsType(InnerOf(Base(s)).value.part, name);
    }
  }

  /** The type is raw JSON. */
  predicate ComesToRaw(s: Schema)
    decreases s
  {
    if InnerOf(Base(s)).None? then !IsObject(Base(s)) && Known(Base(s)) == Raw
    else InnerOf(Base(s)).value.wrapper.Itself? && ComesToRaw(InnerOf(Base(s)).value.part)
  }

  lemma {:induction false} RawIsType(s: Schema, name: string)
    ensures GoTypeOf(s, name).typ == Raw <==> ComesToRaw(s)
    decreases s
  {
    if InnerOf(Base(s)).Some? {
      RawIsType(InnerOf(Base(s)).value.part, name);
    }
  }

  /** Every reference names one of these. */
  function Names(names: set<string>): string -> bool {
    (ref: string) => RefName(ref) in names
  }

  lemma PartOfPart(a: Schema, b: Schema, c: Schema, known: string -> bool)
    requires PartOf(a, b, known) && PartOf(b, c, known)
    ensures PartOf(a, c, known)
  {
  }

  /** An unnamed object is named after its place, and the type mentions nothing else. */
  lemma {:induction false} InlineIsNamed(s: Schema, name: string)
    requires GoTypeOf(s, name).inline.Some?
    ensures var t := GoTypeOf(s, name);
      t.inline.value.name == name && Mentions(t.typ) == {t.inline.value.name}
    decreases s
  {
    if InnerOf(Base(s)).Some? {
      InlineIsNamed(InnerOf(Base(s)).value.part, name);
    }
  }

  /** An unnamed object is part of the schema it was found in. */
  lemma {:induction false} InlineIsPart(s: Schema, name: string, known: string -> bool)
    requires GoTypeOf(s, name).inline.Some?
    ensures PartOf(GoTypeOf(s, name).inline.value.schema, s, known)
    decreases s
  {
    var b := Base(s);
    BaseIsPart(s, known);
    if InnerOf(b).Some? {
      var part := InnerOf(b).value.part;
      ChildIsPart(b, part, known);
      PartOfPart(part, b, s, known);
      InlineIsPart(part, name, known);
      PartOfPart(GoTypeOf(part, name).inline.value.schema, part, s, known);
    }
  }

  /** Any other name a type mentions is that of a reference written in the schema. */
  lemma {:induction false} MentionsResolve(s: Schema, name: string, names: set<string>)
    requires GoTypeOf(s, name).inline.None? && Resolves(s, Names(names))
    ensures Mentions(GoTypeOf(s, name).typ) <= names
    decreases s
  {
    var b := Base(s);
    BaseIsPart(s, Names(names));
    var inner := InnerOf(b);
    if inner.Some? {
      ChildIsPart(b, inner.value.part, Names(names));
      MentionsResolve(inner.value.part, name, names);
    } else if b.ref != "" {
      assert Names(names)(b.ref);
    }
  }

  predicate NeedsPointer(typ: GoType) {
    !typ.Slice? && !typ.MapOf? && typ != Raw
  }
}
