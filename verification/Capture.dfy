/** Capturing a workspace: which changed paths are kept, within which bounds, and how it is judged. */
module Capture {
  import opened Options
  import opened Names
  import opened FileTree
  import opened Resolution
  import opened Receipts
  import opened Publication

  // ---------- Secret-like names ----------

  predicate ContainsText(s: string, t: string) {
    t <= s || (s != [] && ContainsText(s[1..], t))
  }

  /** secretPath, for a validated name. */
  predicate SecretPath(name: string) {
    var parts := Segments(name);
    var base := ToLower(parts[|parts| - 1]);
    base == ".env" || ".env." <= base || HasSuffix(base, ".pem") || HasSuffix(base, ".key") ||
    ContainsText(base, "credentials") || ContainsText(base, "secret")
  }

  /** What follows the last slash, or all of it. */
  ghost predicate IsLastName(name: string, base: string) {
    SLASH !in base && (name == base || exists dir :: name == dir + [SLASH] + base)
  }

  /** A last name that says it is a secret, in any case. */
  ghost predicate SaysSecret(base: string) {
    var b := ToLower(base);
    b == ".env" || (exists r :: b == ".env." + r) || (exists r :: b == r + ".pem") || (exists r :: b == r + ".key") ||
    (exists q, r :: b == q + "credentials" + r) || exists q, r :: b == q + "secret" + r
  }

  function Last(parts: seq<string>): string
    requires parts != []
  {
    parts[|parts| - 1]
  }

  /** The last segment after one more character in front. */
  lemma LastOfMore(c: char, rest: string)
    ensures var parts := Segments([c] + rest);
      Last(parts) == if c == SLASH || |Segments(rest)| > 1 then Last(Segments(rest)) else [c] + Last(Segments(rest))
  {
    assert ([c] + rest)[1..] == rest;
  }

  /** A segment has no slash in it. */
  lemma {:induction false} LastHasNoSlash(name: string)
    ensures SLASH !in Last(Segments(name))
    ensures |Segments(name)| == 1 ==> name == Last(Segments(name))
  {
    if name != [] {
      LastHasNoSlash(name[1..]);
      LastOfMore(name[0], name[1..]);
      assert name == [name[0]] + name[1..];
    }
  }

  lemma {:induction false} LastSegmentIsLastName(name: string)
    ensures IsLastName(name, Last(Segments(name)))
  {
    LastHasNoSlash(name);
    if |Segments(name)| > 1 {
      var dir := DirBefore(name);
    }
  }

  lemma {:induction false} DirBefore(name: string) returns (dir: string)
    requires |Segments(name)| > 1
    ensures name == dir + [SLASH] + Last(Segments(name))
  {
    LastOfMore(name[0], name[1..]);
    assert name == [name[0]] + name[1..];
    if |Segments(name[1..])| > 1 {
      var rest := DirBefore(name[1..]);
      dir := [name[0]] + rest;
    } else {
      LastHasNoSlash(name[1..]);
      dir := "";
    }
  }

  /** Whatever precedes it, the last name is the last segment. */
  lemma {:induction false} LastNameIsSegment(dir: string, base: string)
    requires SLASH !in base
    ensures |Segments(dir + [SLASH] + base)| > 1 && Last(Segments(dir + [SLASH] + base)) == base
  {
    var name := dir + [SLASH] + base;
    if dir == [] {
      assert name == [SLASH] + base;
      LastOfMore(SLASH, base);
      NoSlashOneSegment(base);
    } else {
      assert name == [dir[0]] + (dir[1..] + [SLASH] + base);
      LastNameIsSegment(dir[1..], base);
      LastOfMore(dir[0], dir[1..] + [SLASH] + base);
    }
  }

  lemma LastNameIsLast(name: string, base: string)
    requires IsLastName(name, base)
    ensures base == Last(Segments(name))
  {
    if name == base {
      NoSlashOneSegment(name);
    } else {
      var dir :| name == dir + [SLASH] + base;
      LastNameIsSegment(dir, base);
    }
  }

  lemma {:induction false} ContainsMeans(s: string, t: string)
    ensures ContainsText(s, t) <==> exists q, r :: s == q + t + r
  {
    if t <= s {
      assert s == "" + t + s[|t|..];
    } else if s != [] {
      ContainsMeans(s[1..], t);
      if ContainsText(s[1..], t) {
        var q, r :| s[1..] == q + t + r;
        assert s == ([s[0]] + q) + t + r;
      }
      if q, r :| s == q + t + r {
        assert q == "" ==> s == t + r;
        assert s[1..] == q[1..] + t + r;
      }
    } else {
      forall q: string, r: string
        ensures s != q + t + r
      {
        assert |q + t + r| == |q| + |t| + |r|;
      }
    }
  }

  lemma AffixesMean(s: string, t: string)
    ensures t <= s <==> exists r :: s == t + r
    ensures HasSuffix(s, t) <==> exists r :: s == r + t
  {
    if t <= s {
      assert s == t + s[|t|..];
    }
    if HasSuffix(s, t) {
      assert s == s[..|s| - |t|] + t;
    }
  }

  /** A name is secret-like exactly when its last segment says so. */
  lemma SecretNames(name: string, base: string)
    requires IsLastName(name, base)
    ensures SecretPath(name) <==> SaysSecret(base)
  {
    LastNameIsLast(name, base);
    var b := ToLower(base);
    AffixesMean(b, ".env.");
    AffixesMean(b, ".pem");
    AffixesMean(b, ".key");
    ContainsMeans(b, "credentials");
    ContainsMeans(b, "secret");
  }

  // ---------- The verdict ----------

  /** retentionSeverity. */
  function Severity(s: RetentionState): nat {
    match s
    case Retained => 0
    case Unsupported => 1
    case Incomplete => 2
    case RetentionFailed => 3
  }

  /** What degrade leaves: the verdict only ever gets worse. */
  function Degraded(s: RetentionState, d: RetentionState): RetentionState {
    if Severity(d) <= Severity(s) then s else d
  }

  function DegradeAll(s: RetentionState, ds: seq<RetentionState>): RetentionState {
    if ds == [] then s else Degraded(DegradeAll(s, ds[..|ds| - 1]), ds[|ds| - 1])
  }

  /** The final verdict is the worst one reported, and one that was reported. */
  lemma {:induction false} VerdictIsTheWorst(s: RetentionState, ds: seq<RetentionState>)
    ensures var v := DegradeAll(s, ds);
            (v == s || v in ds) && Severity(s) <= Severity(v) && forall d :: d in ds ==> Severity(d) <= Severity(v)
    decreases |ds|
  {
    if ds != [] {
      var n := |ds| - 1;
      VerdictIsTheWorst(s, ds[..n]);
      assert forall d :: d in ds <==> d in ds[..n] || d == ds[n];
    }
  }

  /** So it does not depend on the order in which the walk reached the paths. */
  lemma VerdictIgnoresOrder(s: RetentionState, a: seq<RetentionState>, b: seq<RetentionState>)
    requires Elements(a) == Elements(b)
    ensures DegradeAll(s, a) == DegradeAll(s, b)
  {
    VerdictIsTheWorst(s, a);
    VerdictIsTheWorst(s, b);
    var v, w := DegradeAll(s, a), DegradeAll(s, b);
    assert v in a ==> v in Elements(b);
    assert w in b ==> w in Elements(a);
    assert Severity(v) == Severity(w);
  }

  /** What a path that could not be represented does to the verdict. */
  function Penalty(reason: Reason): RetentionState {
    match reason
    case Represented => Retained
    case BoundDeclined => Incomplete
    case _ => Unsupported
  }

  function Penalties(files: seq<ArtifactFile>): seq<RetentionState> {
    seq(|files|, i requires 0 <= i < |files| => Penalty(files[i].reason))
  }

  /** A retained verdict leaves no path unrepresented. */
  lemma RetainedRepresentsAll(files: seq<ArtifactFile>)
    requires DegradeAll(Retained, Penalties(files)) == Retained
    ensures forall f :: f in files ==> f.reason == Represented
  {
    VerdictIsTheWorst(Retained, Penalties(files));
    forall f | f in files
      ensures f.reason == Represented
    {
      var i :| 0 <= i < |files| && files[i] == f;
      assert Penalties(files)[i] in Penalties(files);
    }
  }

  // ---------- One path ----------

  function SizeOf(f: ArtifactFile): int {
    if f.size.Some? then f.size.value else 0
  }

  function TotalSize(files: seq<ArtifactFile>): int {
    if files == [] then 0 else TotalSize(files[..|files| - 1]) + SizeOf(files[|files| - 1])
  }

  /** f records what the capture of one listed path may say about the workspace t. */
  predicate CapturedAs(t: Tree, root: Path, name: string, kind: ChangeKind, remaining: int, f: ArtifactFile)
    requires WellFormed(t)
  {
    var info := Lstat(t, root + Segments(name));
    f.path == name && ValidName(name) &&
    if f.reason == Represented && f.kind != Deleted then
      !SecretPath(name) && f.kind == kind && info.Info? && info.node.File? &&
      f == ArtifactFile(name, kind, Sha256(info.node.content), Some(|info.node.content|), Some(info.node.perm),
                        0 in info.node.content, Represented) &&
      0 < remaining && |info.node.content| <= remaining
    else
      f.digest == NoDigest && f.size == None && f.mode == None &&
      match f.reason
      case Represented => !SecretPath(name) && (info == NotExist || kind == Deleted)
      case SecretLike => SecretPath(name) && f.kind == kind
      case NotRegular => !SecretPath(name) && f.kind == kind && kind != Deleted && info.Info? && !info.node.File?
      case BoundDeclined =>
        !SecretPath(name) && f.kind == kind && kind != Deleted && info.Info? && info.node.File? &&
        (remaining <= 0 || |info.node.content| > remaining)
      case ChangedDuringRead => !SecretPath(name) && f.kind == kind && kind != Deleted && info.Info? && info.node.File?
  }

  // ---------- The capture ----------

  class CaptureState {
    var state: RetentionState
    var bytes: map<string, Bytes>
    var total: int

    constructor ()
      ensures state == Retained && bytes == map[] && total == 0
    {
      state, bytes, total := Retained, map[], 0;
    }

    method Degrade(d: RetentionState)
      modifies this`state
      ensures state == Degraded(old(state), d)
      ensures Severity(old(state)) <= Severity(state) && Severity(d) <= Severity(state) && (state == old(state) || state == d)
    {
      if Severity(d) <= Severity(state) {
        return;
      }
      state := d;
    }
  }

  /** Captures one path; None stands for an error that ends the whole capture. */
  method CaptureOne(disk: Disk, root: Path, name: string, kind: ChangeKind, c: CaptureState, maxBytes: int)
    returns (r: Option<ArtifactFile>)
    requires disk.Valid() && 0 <= c.total <= maxBytes
    modifies c
    ensures r.Some? ==>
              var f := r.value;
              && CapturedAs(disk.tree, root, name, kind, maxBytes - old(c.total), f)
              && c.state == Degraded(old(c.state), Penalty(f.reason))
              && c.total == old(c.total) + SizeOf(f) && 0 <= c.total <= maxBytes
              && (Live(f) ==> f.digest != NoDigest && c.bytes == old(c.bytes)[name := BytesOf(f.digest)])
              && (!Live(f) ==> c.bytes == old(c.bytes))
    ensures disk.reliable && ValidName(name) ==>
              (SecretPath(name) || kind == Deleted || Lstat(disk.tree, root + Segments(name)) != Failed ==> r.Some?)
  {
    var f := ArtifactFile(name, kind, NoDigest, None, None, false, Represented);
    if !ValidName(name) {
      return None;
    }
    if SecretPath(name) {
      c.Degrade(Unsupported);
      return Some(f.(reason := SecretLike));
    }
    var full := root + Segments(name);
    var info := Lstat(disk.tree, full);
    if info == NotExist || kind == Deleted {
      return Some(f.(kind := Deleted));
    }
    match info {
      case Failed => return None;
      case Info(node) =>
        if !node.File? {
          c.Degrade(Unsupported);
          return Some(f.(reason := NotRegular));
        }
        var remaining := maxBytes - c.total;
        if remaining <= 0 || |node.content| > remaining {
          c.Degrade(Incomplete);
          return Some(f.(reason := BoundDeclined));
        }
        FollowingChangesNothing(disk.tree, [], full, MAX_LINKS);
        var unstable: bool := *;
        match ReadFile(disk.tree, full) {
          case Content(content) =>
            if !disk.reliable && unstable {
              c.Degrade(Unsupported);
              return Some(f.(reason := ChangedDuringRead));
            }
            f := f.(digest := Sha256(content), size := Some(|content|), mode := Some(node.perm), isBinary := 0 in content);
            c.bytes := c.bytes[name := content];
            c.total := c.total + |content|;
            r := Some(f);
        }
    }
  }

  /** The i-th entry is what the i-th sorted key of the listing may yield under what is left of the bound. */
  ghost predicate EntryOk(t: Tree, root: Path, listing: map<string, ChangeKind>, keys: seq<string>, maxBytes: int,
                          files: seq<ArtifactFile>, i: nat)
    requires WellFormed(t) && i < |files| && i < |keys|
  {
    keys[i] in listing && CapturedAs(t, root, keys[i], listing[keys[i]], maxBytes - TotalSize(files[..i]), files[i])
  }

  ghost predicate EntriesOk(t: Tree, root: Path, listing: map<string, ChangeKind>, keys: seq<string>, maxBytes: int,
                            files: seq<ArtifactFile>)
    requires WellFormed(t)
  {
    |files| <= |keys| && forall i {:trigger EntryOk(t, root, listing, keys, maxBytes, files, i)} ::
                           0 <= i < |files| ==> EntryOk(t, root, listing, keys, maxBytes, files, i)
  }

  lemma EntriesExtend(t: Tree, root: Path, listing: map<string, ChangeKind>, keys: seq<string>, maxBytes: int,
                      files: seq<ArtifactFile>, f: ArtifactFile)
    requires WellFormed(t) && EntriesOk(t, root, listing, keys, maxBytes, files) && |files| < |keys|
    requires keys[|files|] in listing
    requires CapturedAs(t, root, keys[|files|], listing[keys[|files|]], maxBytes - TotalSize(files), f)
    ensures EntriesOk(t, root, listing, keys, maxBytes, files + [f])
  {
    var more := files + [f];
    forall i | 0 <= i < |more|
      ensures EntryOk(t, root, listing, keys, maxBytes, more, i)
    {
      EntryStays(t, root, listing, keys, maxBytes, files, f, i);
    }
  }

  lemma EntryStays(t: Tree, root: Path, listing: map<string, ChangeKind>, keys: seq<string>, maxBytes: int,
                   files: seq<ArtifactFile>, f: ArtifactFile, i: nat)
    requires WellFormed(t) && |files| < |keys| && i <= |files|
    requires i < |files| ==> EntryOk(t, root, listing, keys, maxBytes, files, i)
    requires i == |files| ==> keys[i] in listing && CapturedAs(t, root, keys[i], listing[keys[i]], maxBytes - TotalSize(files), f)
    ensures EntryOk(t, root, listing, keys, maxBytes, files + [f], i)
  {
    assert (files + [f])[..i] == files[..i];
    if i == |files| {
      assert files[..i] == files;
    }
  }

  lemma AccountsExtend(files: seq<ArtifactFile>, f: ArtifactFile)
    ensures TotalSize(files + [f]) == TotalSize(files) + SizeOf(f)
    ensures DegradeAll(Retained, Penalties(files + [f])) == Degraded(DegradeAll(Retained, Penalties(files)), Penalty(f.reason))
  {
    var more := files + [f];
    assert more[..|files|] == files;
    assert Penalties(more) == Penalties(files) + [Penalty(f.reason)];
    assert Penalties(more)[..|files|] == Penalties(files);
  }

  /** A fresh key leaves the bytes captured so far in place. */
  lemma CapturedExtend(t: Tree, root: Path, listing: map<string, ChangeKind>, keys: seq<string>, maxBytes: int,
                       files: seq<ArtifactFile>, f: ArtifactFile, was: map<string, Bytes>, bytes: map<string, Bytes>)
    requires WellFormed(t) && EntriesOk(t, root, listing, keys, maxBytes, files) && |files| < |keys|
    requires Increasing(keys) && f.path == keys[|files|] && Captured(files, was)
    requires if Live(f) then f.digest != NoDigest && bytes == was[f.path := BytesOf(f.digest)] else bytes == was
    ensures Captured(files + [f], bytes)
  {
    forall g | g in files + [f] && Live(g)
      ensures g.path in bytes && g.digest == Sha256(bytes[g.path])
    {
      if g in files {
        var i :| 0 <= i < |files| && files[i] == g;
        assert EntryOk(t, root, listing, keys, maxBytes, files, i);
        assert Less(keys[i], keys[|files|]);
        LessIrreflexive(keys[i]);
      }
    }
  }

  /** What collecting has come to after some of the keys. */
  ghost predicate SoFar(t: Tree, root: Path, listing: map<string, ChangeKind>, keys: seq<string>, maxBytes: int,
                        files: seq<ArtifactFile>, total: int, state: RetentionState, bytes: map<string, Bytes>)
    requires WellFormed(t)
  {
    EntriesOk(t, root, listing, keys, maxBytes, files) &&
    total == TotalSize(files) && 0 <= total <= maxBytes && state == DegradeAll(Retained, Penalties(files)) && Captured(files, bytes)
  }

  lemma SoFarExtends(t: Tree, root: Path, listing: map<string, ChangeKind>, keys: seq<string>, maxBytes: int,
                     files: seq<ArtifactFile>,
                     f: ArtifactFile, total: int, state: RetentionState, was: map<string, Bytes>, bytes: map<string, Bytes>)
    requires WellFormed(t) && Increasing(keys) && |files| < |keys| && keys[|files|] in listing
    requires SoFar(t, root, listing, keys, maxBytes, files, total, state, was)
    requires CapturedAs(t, root, keys[|files|], listing[keys[|files|]], maxBytes - total, f) && 0 <= total + SizeOf(f) <= maxBytes
    requires if Live(f) then f.digest != NoDigest && bytes == was[keys[|files|] := BytesOf(f.digest)] else bytes == was
    ensures SoFar(t, root, listing, keys, maxBytes, files + [f], total + SizeOf(f), Degraded(state, Penalty(f.reason)), bytes)
  {
    EntriesExtend(t, root, listing, keys, maxBytes, files, f);
    AccountsExtend(files, f);
    CapturedExtend(t, root, listing, keys, maxBytes, files, f, was, bytes);
  }

  lemma EntriesHaveKeys(t: Tree, root: Path, listing: map<string, ChangeKind>, keys: seq<string>, maxBytes: int,
                        files: seq<ArtifactFile>)
    requires WellFormed(t) && EntriesOk(t, root, listing, keys, maxBytes, files) && |files| == |keys|
    ensures PathsOf(files) == keys
  {
    forall j | 0 <= j < |files|
      ensures files[j].path == keys[j]
    {
      assert EntryOk(t, root, listing, keys, maxBytes, files, j);
    }
  }

  /**
    collect: every listed path, in sorted order, exactly once. The bytes kept never exceed the
    bound and add up to the recorded sizes, and the verdict is the worst of what happened.
   */
  method Collect(disk: Disk, root: Path, listing: map<string, ChangeKind>, maxBytes: nat)
    returns (ok: bool, files: seq<ArtifactFile>, c: CaptureState)
    requires disk.Valid()
    ensures fresh(c)
    ensures ok ==> Increasing(PathsOf(files)) && Elements(PathsOf(files)) == listing.Keys
    ensures ok ==> EntriesOk(disk.tree, root, listing, PathsOf(files), maxBytes, files)
    ensures ok ==> c.total == TotalSize(files) && 0 <= c.total <= maxBytes
    ensures ok ==> c.state == DegradeAll(Retained, Penalties(files))
    ensures ok ==> Captured(files, c.bytes)
  {
    c := new CaptureState();
    files := [];
    var keys := SortedKeys(listing.Keys);
    var i := 0;
    while i < |keys|
      invariant 0 <= i <= |keys| && |files| == i
      invariant SoFar(disk.tree, root, listing, keys, maxBytes, files, c.total, c.state, c.bytes)
    {
      assert keys[i] in Elements(keys);
      ghost var total, state, was := c.total, c.state, c.bytes;
      var r := CaptureOne(disk, root, keys[i], listing[keys[i]], c, maxBytes);
      if r.None? {
        return false, files, c;
      }
      SoFarExtends(disk.tree, root, listing, keys, maxBytes, files, r.value, total, state, was, c.bytes);
      files := files + [r.value];
      i := i + 1;
    }
    EntriesHaveKeys(disk.tree, root, listing, keys, maxBytes, files);
    ok := true;
  }
}
