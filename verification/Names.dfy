/**
  Path and key strings: the byte order used by sort.Strings, splitting and joining on a
  separator, and the lexical check every manifest path passes before it is used.
 */
module Names {

  // ---------- Order ----------

  /** The strict lexicographic order sort.Strings sorts by. */
  predicate Less(a: string, b: string) {
    if b == [] then false
    else if a == [] then true
    else if a[0] != b[0] then a[0] < b[0]
    else Less(a[1..], b[1..])
  }

  lemma {:induction false} LessTransitive(a: string, b: string, c: string)
    requires Less(a, b) && Less(b, c)
    ensures Less(a, c)
  {
    if a != [] && a[0] == b[0] && b[0] == c[0] {
      LessTransitive(a[1..], b[1..], c[1..]);
    }
  }

  lemma {:induction false} LessIrreflexive(a: string)
    ensures !Less(a, a)
  {
    if a != [] {
      LessIrreflexive(a[1..]);
    }
  }

  lemma {:induction false} LessTotal(a: string, b: string)
    ensures Less(a, b) || Less(b, a) || a == b
  {
    if a != [] && b != [] && a[0] == b[0] {
      LessTotal(a[1..], b[1..]);
      assert a == [a[0]] + a[1..] && b == [b[0]] + b[1..];
    }
  }

  /** Strictly sorted, hence free of duplicates. */
  ghost predicate Increasing(keys: seq<string>) {
    forall i, j :: 0 <= i < j < |keys| ==> Less(keys[i], keys[j])
  }

  function Elements<T>(s: seq<T>): set<T> {
    set x | x in s
  }

  lemma NoElements<T>(s: seq<T>)
    ensures Elements(s) == {} <==> s == []
  {
    if s != [] {
      assert s[0] in Elements(s);
    }
  }

  /** A strictly sorted sequence is determined by its elements. */
  lemma {:induction false} IncreasingUnique(a: seq<string>, b: seq<string>)
    requires Increasing(a) && Increasing(b)
    requires Elements(a) == Elements(b)
    ensures a == b
  {
    NoElements(a);
    NoElements(b);
    if a != [] && b != [] {
      assert a[0] in Elements(b) && b[0] in Elements(a);
      var i :| 0 <= i < |b| && b[i] == a[0];
      var j :| 0 <= j < |a| && a[j] == b[0];
      if a[0] != b[0] {
        assert Less(b[0], a[0]) && Less(a[0], b[0]);
        LessTransitive(a[0], b[0], a[0]);
        LessIrreflexive(a[0]);
      }
      TailElements(a);
      TailElements(b);
      IncreasingUnique(a[1..], b[1..]);
      assert a == [a[0]] + a[1..] && b == [b[0]] + b[1..];
    }
  }

  lemma TailElements(a: seq<string>)
    requires Increasing(a) && a != []
    ensures Elements(a[1..]) == Elements(a) - {a[0]}
  {
    LessIrreflexive(a[0]);
    forall x | x in Elements(a) - {a[0]}
      ensures x in a[1..]
    {
      var i :| 0 <= i < |a| && a[i] == x;
      assert a[1..][i - 1] == x;
    }
  }

  lemma IncreasingDistinct(a: seq<string>, i: nat, j: nat)
    requires Increasing(a) && i < |a| && j < |a| && a[i] == a[j]
    ensures i == j
  {
    LessIrreflexive(a[i]);
  }

  /** Puts one new key into its place. */
  method Insert(keys: seq<string>, k: string) returns (r: seq<string>)
    requires Increasing(keys) && k !in keys
    ensures Increasing(r) && Elements(r) == Elements(keys) + {k}
  {
    var i := 0;
    while i < |keys| && Less(keys[i], k)
      invariant 0 <= i <= |keys|
      invariant forall j :: 0 <= j < i ==> Less(keys[j], k)
    {
      i := i + 1;
    }
    r := keys[..i] + ([k] + keys[i..]);
    forall j | i <= j < |keys|
      ensures Less(k, keys[j])
    {
      LessTotal(k, keys[i]);
      if j > i {
        LessTransitive(k, keys[i], keys[j]);
      }
    }
    IncreasingConcat([k], keys[i..]);
    forall x, y | x in keys[..i] && y in [k] + keys[i..]
      ensures Less(x, y)
    {
      var j :| 0 <= j < i && keys[j] == x;
      if y != k {
        LessTransitive(x, k, y);
      }
    }
    IncreasingConcat(keys[..i], [k] + keys[i..]);
    assert keys == keys[..i] + keys[i..];
  }

  lemma IncreasingConcat(a: seq<string>, b: seq<string>)
    requires Increasing(a) && Increasing(b) && forall x, y :: x in a && y in b ==> Less(x, y)
    ensures Increasing(a + b)
  {
    forall i, j | 0 <= i < j < |a + b|
      ensures Less((a + b)[i], (a + b)[j])
    {
      if j < |a| {
        assert Less(a[i], a[j]);
      } else if i >= |a| {
        assert Less(b[i - |a|], b[j - |a|]);
      } else {
        assert a[i] in a && b[j - |a|] in b;
      }
    }
  }

  /** The keys of a map, collected in any order and sorted. */
  method SortedKeys(s: set<string>) returns (keys: seq<string>)
    ensures Increasing(keys) && Elements(keys) == s
  {
    keys := [];
    var rest := s;
    while rest != {}
      invariant rest <= s && Increasing(keys) && Elements(keys) == s - rest
      decreases rest
    {
      var k :| k in rest;
      keys := Insert(keys, k);
      rest := rest - {k};
    }
  }

  // ---------- Splitting ----------

  function Split(s: string, sep: char): (parts: seq<string>)
    ensures |parts| > 0
  {
    if s == [] then [[]]
    else
      var rest := Split(s[1..], sep);
      if s[0] == sep then [[]] + rest else [[s[0]] + rest[0]] + rest[1..]
  }

  function Join(parts: seq<string>, sep: char): string
    requires |parts| > 0
  {
    if |parts| == 1 then parts[0] else parts[0] + [sep] + Join(parts[1..], sep)
  }

  /** Splitting loses nothing, so distinct names have distinct segments. */
  lemma {:induction false} JoinSplit(s: string, sep: char)
    ensures Join(Split(s, sep), sep) == s
  {
    if s != [] {
      JoinSplit(s[1..], sep);
      var rest := Split(s[1..], sep);
      if s[0] == sep {
        assert ([[]] + rest)[1..] == rest;
      } else if |rest| > 1 {
        assert ([[s[0]] + rest[0]] + rest[1..])[1..] == rest[1..];
      }
    }
  }

  lemma SplitInjective(a: string, b: string, sep: char)
    requires Split(a, sep) == Split(b, sep)
    ensures a == b
  {
    JoinSplit(a, sep);
    JoinSplit(b, sep);
  }

  /** A name without the separator followed by the separator is one part. */
  lemma {:induction false} SplitHead(name: string, tail: string, sep: char)
    requires sep !in name
    ensures Split(name + [sep] + tail, sep) == [name] + Split(tail, sep)
  {
    var s := name + [sep] + tail;
    if name == [] {
      assert s[1..] == tail;
    } else {
      SplitHead(name[1..], tail, sep);
      assert s[1..] == name[1..] + [sep] + tail;
      assert [s[0]] + name[1..] == name;
    }
  }

  // ---------- Manifest paths ----------

  const SLASH: char := '/'

  function Segments(name: string): (parts: seq<string>)
    ensures |parts| > 0
  {
    Split(name, SLASH)
  }

  /** unicode.IsSpace. */
  predicate IsSpace(c: char) {
    var n := c as int;
    0x09 <= n <= 0x0D || n == 0x20 || n == 0x85 || n == 0xA0 || n == 0x1680 ||
    0x2000 <= n <= 0x200A || n == 0x2028 || n == 0x2029 || n == 0x202F || n == 0x205F || n == 0x3000
  }

  function TrimLeft(s: string): string {
    if s != [] && IsSpace(s[0]) then TrimLeft(s[1..]) else s
  }

  function TrimRight(s: string): string {
    if s != [] && IsSpace(s[|s| - 1]) then TrimRight(s[..|s| - 1]) else s
  }

  /** strings.TrimSpace. */
  function TrimSpace(s: string): string {
    TrimRight(TrimLeft(s))
  }

  /** Backslashes read as slashes, for validation only. */
  function Normalized(s: string): (r: string)
    ensures |r| == |s|
  {
    seq(|s|, i requires 0 <= i < |s| => if s[i] == '\\' then '/' else s[i])
  }

  predicate PlainSegment(c: string) {
    c != "" && c != "." && c != ".."
  }

  predicate PlainSegments(p: seq<string>) {
    forall c :: c in p ==> PlainSegment(c)
  }

  /** Whether a manifest path passes validateArtifactPath. */
  predicate ValidName(name: string) {
    var t := TrimSpace(name);
    t != "" && '\0' !in t &&
    var n := Normalized(t);
    n[0] != '/' && !(|n| >= 2 && n[1] == ':') && PlainSegments(Segments(n))
  }

  /** Backslashes only split further: a bad raw segment is also a bad normalized one. */
  lemma {:induction false} NormalizedSegments(t: string)
    requires PlainSegments(Segments(Normalized(t))[1..])
    ensures PlainSegments(Segments(t)[1..])
    ensures Segments(t)[0] == Segments(Normalized(t))[0] || '\\' in Segments(t)[0]
  {
    if t != [] {
      var u := t[1..];
      assert Normalized(t)[1..] == Normalized(u);
      var N, M := Segments(Normalized(t)), Segments(Normalized(u));
      assert N[1..] == if t[0] == '/' || t[0] == '\\' then M else M[1..];
      NormalizedSegments(u);
      var T, U := Segments(t), Segments(u);
      assert T[1..] == if t[0] == '/' then U else U[1..];
      if t[0] == '/' {
        assert U == [U[0]] + U[1..];
      }
    }
  }

  lemma AppendToLast(s: string, c: char)
    requires c != SLASH
    ensures var p := Segments(s);
            Segments(s + [c]) == p[..|p| - 1] + [p[|p| - 1] + [c]]
  {
    if s == [] {
      assert s + [c] == [c] && [c][1..] == [];
      var rest := Split([c][1..], SLASH);
      assert Split([c], SLASH) == [[[c][0]] + rest[0]] + rest[1..];
      assert [c] + rest[0] == rest[0] + [c];
    } else {
      AppendToLast(s[1..], c);
      assert (s + [c])[1..] == s[1..] + [c];
      var q := Segments(s[1..]);
      var p := Segments(s);
      if s[0] == SLASH {
        assert p == [[]] + q;
      } else if |q| > 1 {
        assert p[|p| - 1] == q[|q| - 1];
        assert p[..|p| - 1] == [[s[0]] + q[0]] + q[1..|q| - 1];
      } else {
        assert [s[0]] + (q[0] + [c]) == ([s[0]] + q[0]) + [c];
      }
    }
  }

  lemma {:induction false} TrimLeftKeepsPlain(s: string)
    requires PlainSegments(Segments(TrimLeft(s)))
    ensures PlainSegments(Segments(s))
  {
    if s != [] && IsSpace(s[0]) {
      TrimLeftKeepsPlain(s[1..]);
      var p := Segments(s[1..]);
      assert Segments(s) == [[s[0]] + p[0]] + p[1..];
      assert s[0] != '.' && ([s[0]] + p[0])[0] == s[0];
    }
  }

  lemma {:induction false} TrimRightKeepsPlain(s: string)
    requires PlainSegments(Segments(TrimRight(s)))
    ensures PlainSegments(Segments(s))
  {
    if s != [] && IsSpace(s[|s| - 1]) {
      var c := s[|s| - 1];
      TrimRightKeepsPlain(s[..|s| - 1]);
      assert s == s[..|s| - 1] + [c];
      AppendToLast(s[..|s| - 1], c);
      var p := Segments(s[..|s| - 1]);
      var last := p[|p| - 1] + [c];
      assert last[|last| - 1] == c && c != '.';
    }
  }

  /**
    Whatever survives validation names something strictly below the root it is joined to:
    the check trims and normalizes a copy, yet it is the raw name that has no empty, dot or
    dot-dot segment.
   */
  lemma {:induction false} ValidNameIsConfined(name: string)
    requires ValidName(name)
    ensures PlainSegments(Segments(name))
  {
    var t := TrimSpace(name);
    var N := Segments(Normalized(t));
    NormalizedSegments(t);
    var T := Segments(t);
    assert T == [T[0]] + T[1..];
    if '\\' in T[0] {
      assert PlainSegment(T[0]);
    }
    assert PlainSegments(T);
    TrimRightKeepsPlain(TrimLeft(name));
    TrimLeftKeepsPlain(name);
  }

  /** A name without a slash is its own only segment. */
  lemma {:induction false} NoSlashOneSegment(s: string)
    requires SLASH !in s
    ensures Segments(s) == [s]
  {
    if s != [] {
      NoSlashOneSegment(s[1..]);
      assert [s[0]] + s[1..] == s;
    }
  }

  /**
    A name that neither begins nor ends with a space and has no backslash or NUL is accepted exactly if it
    is not empty, has no empty, dot or dot-dot segment, and no colon for its second character.
   */
  lemma OrdinaryNamesExactly(name: string)
    requires name != "" ==> !IsSpace(name[0]) && !IsSpace(name[|name| - 1])
    requires '\\' !in name && '\0' !in name
    ensures ValidName(name) <==> name != "" && PlainSegments(Segments(name)) && !(|name| >= 2 && name[1] == ':')
  {
    assert TrimSpace(name) == name;
    assert Normalized(name) == name;
    if name != "" && name[0] == '/' {
      assert Segments(name)[0] == "" && Segments(name)[0] in Segments(name);
    }
  }

  predicate HasSuffix(s: string, suffix: string) {
    |suffix| <= |s| && s[|s| - |suffix|..] == suffix
  }

  /** unicode.ToLower, as far as its results are ASCII letters. */
  function LowerCase(c: char): char {
    if 'A' <= c <= 'Z' then ((c as int) + 32) as char
    else if c == '\U{212A}' then 'k'
    else if c == '\U{130}' then 'i'
    else c
  }

  function ToLower(s: string): string {
    seq(|s|, i requires 0 <= i < |s| => LowerCase(s[i]))
  }

  /** Simple case folding, as far as it meets ASCII letters. */
  function Fold(c: char): char {
    if 'A' <= c <= 'Z' then ((c as int) + 32) as char
    else if c == '\U{212A}' then 'k'
    else if c == '\U{17F}' then 's'
    else c
  }

  predicate EqualFold(a: string, b: string) {
    |a| == |b| && forall i :: 0 <= i < |a| ==> Fold(a[i]) == Fold(b[i])
  }
}
