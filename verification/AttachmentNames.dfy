/** Which names an attachment may have, and how a message's path names one. */
module AttachmentNames {
  import opened Names
  import opened Options

  const MAX_NAME := 255
  const KENNEL := ".kennel"
  const LEGACY := ".ao"
  const ATTACHMENTS := "attachments"

  predicate NameChar(c: char, allowDot: bool) {
    'a' <= c <= 'z' || 'A' <= c <= 'Z' || '0' <= c <= '9' || c == '-' || c == '_' || (allowDot && c == '.')
  }

  predicate HasDoubleDot(s: string) {
    exists i :: 0 <= i < |s| - 1 && s[i] == '.' && s[i + 1] == '.'
  }

  predicate ValidPart(part: string, allowDot: bool) {
    part != "" && part[0] != '.' && part[|part| - 1] != '.' && !HasDoubleDot(part) &&
    forall c :: c in part ==> NameChar(c, allowDot)
  }

  /** strings.IndexByte; the length when the byte is not there. */
  function IndexOf(s: string, c: char): (i: nat)
    ensures i <= |s| && c !in s[..i] && (i < |s| ==> s[i] == c)
  {
    if s == "" || s[0] == c then 0 else 1 + IndexOf(s[1..], c)
  }

  /** filepath.Ext of a single segment. */
  function Extension(name: string): string {
    if name == "" then ""
    else if '.' in name[1..] then Extension(name[1..])
    else if name[0] == '.' then name
    else Extension(name[1..])
  }

  function Remainder(name: string): Option<string> {
    if "attachment-" <= name then Some(name[|"attachment-"|..])
    else if "image-" <= name then Some(name[|"image-"|..])
    else None
  }

  /** validateName; its own character checks make the filepath.Base comparison redundant. */
  predicate ValidAttachment(name: string) {
    name != "" && |name| <= MAX_NAME && '/' !in name && '\\' !in name && '\0' !in name &&
    Remainder(name).Some? &&
    var rest := Remainder(name).value;
    var dot := IndexOf(rest, '.');
    0 < dot < |rest| - 1 && ValidPart(rest[..dot], false) && ValidPart(rest[dot + 1..], true) &&
    ToLower(Extension(name)) != ".svg" && ToLower(Extension(name)) != ".svgz"
  }

  /** The extension begins at the last dot. */
  lemma {:induction false} ExtensionBegins(name: string, k: nat)
    requires k < |name| && name[k] == '.' && '.' !in name[k + 1..]
    ensures Extension(name) == name[k..]
  {
    if k > 0 {
      assert name[1..][k - 1] == '.' && name[1..][k..] == name[k + 1..];
      ExtensionBegins(name[1..], k - 1);
      assert name[1..][k - 1..] == name[k..];
    }
  }

  /** Whatever its case, an extension without further dots is found. */
  lemma ExtensionFound(name: string, ext: string)
    requires |ext| > 1 && ext[0] == '.' && '.' !in ext[1..] && HasSuffix(ToLower(name), ext)
    ensures ToLower(Extension(name)) == ext
  {
    var k := |name| - |ext|;
    forall i | 0 <= i < |ext|
      ensures ToLower(name)[k + i] == ext[i] && ToLower(name[k..])[i] == ext[i]
    {
      assert ToLower(name)[k..][i] == ext[i];
    }
    assert name[k] == '.' by {
      assert ToLower(name)[k + 0] == ext[0];
    }
    forall i | k < i < |name|
      ensures name[i] != '.'
    {
      assert ToLower(name)[k + (i - k)] == ext[i - k] == ext[1..][i - k - 1];
    }
    ExtensionBegins(name, k);
    assert ToLower(name[k..]) == ext;
  }

  /** A valid name is one plain segment of harmless characters, and in no spelling an SVG. */
  lemma ValidAttachmentIsHarmless(name: string)
    requires ValidAttachment(name)
    ensures PlainSegment(name) && Segments(name) == [name] && forall c :: c in name ==> NameChar(c, true)
    ensures !HasSuffix(ToLower(name), ".svg") && !HasSuffix(ToLower(name), ".svgz")
  {
    NoSlashOneSegment(name);
    PartsMakeName(name);
    if HasSuffix(ToLower(name), ".svg") {
      ExtensionFound(name, ".svg");
    }
    if HasSuffix(ToLower(name), ".svgz") {
      ExtensionFound(name, ".svgz");
    }
  }

  lemma RestIsHarmless(rest: string, dot: nat)
    requires dot < |rest| && rest[dot] == '.' && ValidPart(rest[..dot], false) && ValidPart(rest[dot + 1..], true)
    ensures forall c :: c in rest ==> NameChar(c, true)
  {
    forall i | 0 <= i < |rest|
      ensures NameChar(rest[i], true)
    {
      if i < dot {
        assert rest[i] in rest[..dot];
      } else if i > dot {
        assert rest[dot + 1..][i - dot - 1] == rest[i];
      }
    }
  }

  lemma HeadIsHarmless(head: string)
    requires head == "attachment-" || head == "image-"
    ensures |head| > 2 && forall c :: c in head ==> NameChar(c, true)
  {
  }

  lemma PartsMakeName(name: string)
    requires ValidAttachment(name)
    ensures |name| > 2 && forall c :: c in name ==> NameChar(c, true)
  {
    var rest := Remainder(name).value;
    var head := name[..|name| - |rest|];
    HeadIsHarmless(head);
    RestIsHarmless(rest, IndexOf(rest, '.'));
    assert name == head + rest;
  }

  // ---------- exactly which names ----------

  predicate WordChar(c: char) {
    'a' <= c <= 'z' || 'A' <= c <= 'Z' || '0' <= c <= '9' || c == '-' || c == '_'
  }

  /** A stem of word characters. */
  predicate IsStem(stem: string) {
    stem != "" && forall c :: c in stem ==> WordChar(c)
  }

  /** Word characters with single dots between them. */
  predicate IsExtension(ext: string) {
    ext != "" && ext[0] != '.' && ext[|ext| - 1] != '.' && (forall c :: c in ext ==> WordChar(c) || c == '.') &&
    forall i :: 0 <= i < |ext| - 1 ==> ext[i] != '.' || ext[i + 1] != '.'
  }

  /** One of the two prefixes, a stem, a dot and an extension. */
  ghost predicate IsComposed(name: string) {
    exists prefix, stem, ext ::
      (prefix == "attachment-" || prefix == "image-") && IsStem(stem) && IsExtension(ext) && name == prefix + (stem + "." + ext)
  }

  predicate IsSvg(name: string) {
    HasSuffix(ToLower(name), ".svg") || HasSuffix(ToLower(name), ".svgz")
  }

  lemma {:induction false} ExtensionIsSuffix(name: string)
    ensures HasSuffix(name, Extension(name))
  {
    if name != "" && Extension(name) != name {
      ExtensionIsSuffix(name[1..]);
      assert name[|name| - |Extension(name)|..] == name[1..][|name| - 1 - |Extension(name)|..];
    }
  }

  lemma SvgExtension(name: string, ext: string)
    requires |ext| > 1 && ext[0] == '.' && '.' !in ext[1..]
    ensures ToLower(Extension(name)) == ext <==> HasSuffix(ToLower(name), ext)
  {
    if HasSuffix(ToLower(name), ext) {
      ExtensionFound(name, ext);
    }
    ExtensionIsSuffix(name);
    var k := |name| - |Extension(name)|;
    assert ToLower(name)[k..] == ToLower(name[k..]);
  }

  lemma PartsAre(part: string)
    ensures ValidPart(part, false) <==> IsStem(part)
    ensures ValidPart(part, true) <==> IsExtension(part)
  {
    if IsStem(part) {
      assert part[0] in part && part[|part| - 1] in part;
      forall i | 0 <= i < |part| - 1
        ensures part[i] != '.'
      {
        assert part[i] in part;
      }
    }
  }

  lemma {:induction false} IndexIs(s: string, c: char, k: nat)
    requires k < |s| && s[k] == c && c !in s[..k]
    ensures IndexOf(s, c) == k
  {
    if k > 0 {
      assert s[0] == s[..k][0] && s[..k][1..] == s[1..][..k - 1];
      IndexIs(s[1..], c, k - 1);
    }
  }

  lemma DotIsFound(stem: string, ext: string)
    requires IsStem(stem)
    ensures var rest := stem + "." + ext;
      IndexOf(rest, '.') == |stem| && rest[..|stem|] == stem && rest[|stem| + 1..] == ext
  {
    var rest := stem + "." + ext;
    assert rest[..|stem|] == stem && rest[|stem| + 1..] == ext;
    assert '.' !in stem;
    IndexIs(rest, '.', |stem|);
  }

  /** What follows the prefix. */
  predicate ValidRest(rest: string) {
    var dot := IndexOf(rest, '.');
    0 < dot < |rest| - 1 && ValidPart(rest[..dot], false) && ValidPart(rest[dot + 1..], true)
  }

  lemma ComposedRest(stem: string, ext: string)
    requires IsStem(stem) && IsExtension(ext)
    ensures ValidRest(stem + "." + ext) && forall c :: c in stem + "." + ext ==> NameChar(c, true)
  {
    DotIsFound(stem, ext);
    PartsAre(stem);
    PartsAre(ext);
    RestIsHarmless(stem + "." + ext, |stem|);
  }

  lemma RestIsComposed(rest: string) returns (stem: string, ext: string)
    requires ValidRest(rest)
    ensures IsStem(stem) && IsExtension(ext) && rest == stem + "." + ext
  {
    var dot := IndexOf(rest, '.');
    stem, ext := rest[..dot], rest[dot + 1..];
    PartsAre(stem);
    PartsAre(ext);
  }

  lemma PrefixIsCut(prefix: string, rest: string)
    requires prefix == "attachment-" || prefix == "image-"
    ensures Remainder(prefix + rest) == Some(rest)
  {
    var name := prefix + rest;
    assert name[0] == prefix[0] && "attachment-"[0] == 'a' && "image-"[0] == 'i';
    assert prefix <= name && name[|prefix|..] == rest;
  }

  lemma PrefixOf(name: string) returns (prefix: string)
    requires Remainder(name).Some?
    ensures (prefix == "attachment-" || prefix == "image-") && name == prefix + Remainder(name).value
  {
    prefix := if "attachment-" <= name then "attachment-" else "image-";
  }

  lemma NotSvg(name: string)
    ensures IsSvg(name) <==> ToLower(Extension(name)) == ".svg" || ToLower(Extension(name)) == ".svgz"
  {
    SvgExtension(name, ".svg");
    SvgExtension(name, ".svgz");
  }

  lemma HarmlessTogether(prefix: string, rest: string)
    requires prefix == "attachment-" || prefix == "image-"
    requires forall c :: c in rest ==> NameChar(c, true)
    ensures forall c :: c in prefix + rest ==> NameChar(c, true)
  {
    HeadIsHarmless(prefix);
  }

  lemma ComposedIsValid(prefix: string, stem: string, ext: string, name: string)
    requires prefix == "attachment-" || prefix == "image-"
    requires IsStem(stem) && IsExtension(ext) && name == prefix + (stem + "." + ext) && |name| <= MAX_NAME && !IsSvg(name)
    ensures ValidAttachment(name)
  {
    var rest := stem + "." + ext;
    ComposedRest(stem, ext);
    PrefixIsCut(prefix, rest);
    HarmlessTogether(prefix, rest);
    NotSvg(name);
    assert ValidRest(rest) && |rest| > 0;
  }

  lemma ValidIsComposed(name: string)
    requires ValidAttachment(name)
    ensures IsComposed(name)
  {
    var rest := Remainder(name).value;
    assert ValidRest(rest);
    var prefix := PrefixOf(name);
    var stem, ext := RestIsComposed(rest);
  }

  /** The names that are accepted, exactly. */
  lemma ValidAttachmentExactly(name: string)
    ensures ValidAttachment(name) <==> |name| <= 255 && IsComposed(name) && !IsSvg(name)
  {
    if ValidAttachment(name) {
      ValidIsComposed(name);
      ValidAttachmentIsHarmless(name);
    }
    if |name| <= 255 && IsComposed(name) && !IsSvg(name) {
      var prefix, stem, ext :|
        (prefix == "attachment-" || prefix == "image-") && IsStem(stem) && IsExtension(ext) && name == prefix + (stem + "." + ext);
      ComposedIsValid(prefix, stem, ext, name);
    }
  }

  /** validateSessionID. */
  predicate ValidSession(id: string) {
    PlainSegment(id) && '/' !in id && '\\' !in id && '\0' !in id
  }

  function TrimSlash(s: string): string {
    if s != "" && s[0] == '/' then s[1..] else s
  }

  /** NameFromWorkspacePath. */
  function NameFromWorkspacePath(raw: string): Option<string> {
    var parts := Segments(TrimSlash(Normalized(raw)));
    if |parts| != 3 || parts[1] != ATTACHMENTS then None
    else if parts[0] != KENNEL && parts[0] != LEGACY then None
    else if !ValidAttachment(parts[2]) then None
    else Some(parts[2])
  }

  function WorkspacePath(container: string, name: string): string {
    container + "/" + ATTACHMENTS + "/" + name
  }

  /**
    A stored path names an attachment exactly when, its slashes made uniform and one leading slash
    dropped, it is that valid name directly under one of the two containers.
   */
  lemma PathNamesAttachment(raw: string, name: string)
    ensures NameFromWorkspacePath(raw) == Some(name) <==>
      ValidAttachment(name) &&
      (TrimSlash(Normalized(raw)) == WorkspacePath(KENNEL, name) || TrimSlash(Normalized(raw)) == WorkspacePath(LEGACY, name))
  {
    var path := TrimSlash(Normalized(raw));
    var parts := Segments(path);
    JoinSplit(path, SLASH);
    if NameFromWorkspacePath(raw) == Some(name) {
      JoinThree(parts);
    }
    if ValidAttachment(name) {
      PathSplits(KENNEL, name);
      PathSplits(LEGACY, name);
    }
  }

  lemma JoinThree(parts: seq<string>)
    requires |parts| == 3 && parts[1] == ATTACHMENTS
    ensures Join(parts, SLASH) == WorkspacePath(parts[0], parts[2])
  {
    assert Join(parts[1..], SLASH) == parts[1] + [SLASH] + Join(parts[1..][1..], SLASH);
  }

  lemma PathSplits(container: string, name: string)
    requires '/' !in name && '/' !in container
    ensures Segments(WorkspacePath(container, name)) == [container, ATTACHMENTS, name]
  {
    assert WorkspacePath(container, name) == container + ['/'] + (ATTACHMENTS + ['/'] + name);
    SplitHead(container, ATTACHMENTS + ['/'] + name, '/');
    SplitHead(ATTACHMENTS, name, '/');
    NoSlashOneSegment(name);
  }

  lemma NormalizedParts(a: string, name: string)
    requires '\\' !in name
    ensures Normalized(a + name) == Normalized(a) + name
  {
  }

  /** A path the store writes is recognized again, with either kind of slash and either container. */
  lemma WrittenPathIsRecognized(name: string, raw: string)
    requires ValidAttachment(name)
    requires raw == WorkspacePath(KENNEL, name) || raw == KENNEL + "\\" + ATTACHMENTS + "\\" + name
    ensures NameFromWorkspacePath(raw) == Some(name)
  {
    NormalizedParts(KENNEL + "/" + ATTACHMENTS + "/", name);
    NormalizedParts(KENNEL + "\\" + ATTACHMENTS + "\\", name);
    assert Normalized(KENNEL + "\\" + ATTACHMENTS + "\\") == KENNEL + "/" + ATTACHMENTS + "/";
    assert Normalized(raw) == WorkspacePath(KENNEL, name);
    PathNamesAttachment(raw, name);
  }
}
