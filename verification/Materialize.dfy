/** Writing a composed handoff onto a successor's checkout. */
module Materialize {
  import opened Options
  import opened Names
  import opened FileTree
  import opened Receipts

  /** One predecessor change; mode holds the permission bits. */
  datatype HandoffFile = HandoffFile(path: string, kind: ChangeKind, content: Bytes, mode: int, digest: Digest)

  datatype Handoff = Handoff(
    inputVersions: seq<Version>,
    workspaceKind: WorkspaceKind,
    baseRevision: string,
    repositoryIdentity: string,
    files: seq<HandoffFile>)

  function Full(root: Path, f: HandoffFile): (p: Path)
    ensures p != []
  {
    root + Segments(f.path)
  }

  /** physicalDirectory: the destination with every link on the way to it resolved. */
  function PhysicalDirectory(t: Tree, p: Path): (r: Option<Path>)
    requires WellFormed(t)
    ensures r.Some? ==> PhysicalDir(t, r.value)
  {
    match Walk(t, [], p, true, MAX_LINKS)
    case Found(q) => if t[q].Dir? then Some(q) else None
    case _ => None
  }

  // ---------- Specification ----------

  /** The name is acceptable and nothing but directories lies on the way to it. */
  ghost predicate Reachable(t: Tree, root: Path, name: string) {
    ValidName(name) && Clear(t, root, Segments(name))
  }

  /** What applying one entry does. */
  ghost function Applied(t: Tree, root: Path, f: HandoffFile): Step {
    var full := Full(root, f);
    if !Reachable(t, root, f.path) then Step(t, false)
    else if f.kind == Deleted then
      if full !in t then Step(t, true)
      else if t[full].File? then Step(t - {full}, true)
      else Step(t, false)
    else
      var u := WithDirs(t, Parent(full));
      if full in t && !t[full].File? then Step(u, false)
      else Step(u[full := File(f.content, f.mode)], true)
  }

  ghost function ApplyAll(t: Tree, root: Path, files: seq<HandoffFile>): Step {
    if files == [] then Step(t, true)
    else
      var n := |files| - 1;
      var before := ApplyAll(t, root, files[..n]);
      if before.ok then Applied(before.tree, root, files[n]) else before
  }

  /** The entry holds: the path is absent, or a regular file with the listed bytes and mode. */
  ghost predicate Holds(t: Tree, root: Path, f: HandoffFile) {
    var full := Full(root, f);
    Reachable(t, root, f.path) &&
    if f.kind == Deleted then full !in t
    else full in t && t[full].File? && Sha256(t[full].content) == f.digest && t[full].perm == f.mode
  }

  ghost predicate HoldsAll(t: Tree, root: Path, files: seq<HandoffFile>) {
    forall f :: f in files ==> Holds(t, root, f)
  }

  predicate Same(t: Tree, u: Tree, p: Path) {
    (p in t <==> p in u) && (p in t ==> t[p] == u[p])
  }

  ghost predicate Listed(root: Path, files: seq<HandoffFile>, p: Path) {
    exists f :: f in files && p == Full(root, f)
  }

  /** p is a directory some listed path needs, strictly below the root. */
  ghost predicate Towards(root: Path, files: seq<HandoffFile>, p: Path) {
    root < p && exists f :: f in files && p < Full(root, f)
  }

  ghost predicate Framed(t: Tree, u: Tree, root: Path, files: seq<HandoffFile>, p: Path) {
    Same(t, u, p) ||
    (Listed(root, files, p) && (p in t ==> t[p].File?)) ||
    (p !in t && p in u && u[p].Dir? && Towards(root, files, p))
  }

  /** Nothing differs but files at listed paths and new directories on the way to them. */
  ghost predicate OnlyTouches(t: Tree, u: Tree, root: Path, files: seq<HandoffFile>) {
    forall p :: Framed(t, u, root, files, p)
  }

  lemma TouchesTransitive(t: Tree, u: Tree, v: Tree, root: Path, some: seq<HandoffFile>, files: seq<HandoffFile>)
    requires OnlyTouches(t, u, root, files) && OnlyTouches(u, v, root, some)
    requires forall f :: f in some ==> f in files
    ensures OnlyTouches(t, v, root, files)
  {
    forall p
      ensures Framed(t, v, root, files, p)
    {
      assert Framed(t, u, root, files, p) && Framed(u, v, root, some, p);
    }
  }

  // ---------- One entry ----------

  lemma ReachablePlain(t: Tree, root: Path, f: HandoffFile)
    requires WellFormed(t) && PhysicalDir(t, root) && Reachable(t, root, f.path)
    ensures PlainSegments(Segments(f.path)) && Plain(t, Parent(Full(root, f)))
  {
    ValidNameIsConfined(f.path);
    var segs, p := Segments(f.path), Parent(Full(root, f));
    ClearFromRoot(t, root, segs);
    forall k | 0 <= k <= |p|
      ensures DirIfPresent(t, p[..k])
    {
      assert p[..k] == [] + Full(root, f)[..k];
      assert k > 0 ==> DirIfPresent(t, [] + Full(root, f)[..k]);
    }
    assert forall c :: c in p ==> c in Full(root, f);
  }

  lemma AppliedKeepsForm(t: Tree, root: Path, f: HandoffFile)
    requires WellFormed(t) && PhysicalDir(t, root)
    ensures WellFormed(Applied(t, root, f).tree) && PhysicalDir(Applied(t, root, f).tree, root)
  {
    if Reachable(t, root, f.path) {
      ReachablePlain(t, root, f);
      var full := Full(root, f);
      assert Base(full) == Base(Segments(f.path));
      WithDirsKeepsForm(t, Parent(full));
      var u := WithDirs(t, Parent(full));
      assert Parent(full)[..|Parent(full)|] == Parent(full);
      if f.kind == Deleted && full in t && t[full].File? {
        DropKeepsForm(t, full);
      } else if f.kind != Deleted && (full in t ==> t[full].File?) {
        PutKeepsForm(u, full, File(f.content, f.mode));
      }
    }
  }

  lemma AppliedTouches(t: Tree, root: Path, f: HandoffFile)
    requires WellFormed(t) && PhysicalDir(t, root)
    ensures OnlyTouches(t, Applied(t, root, f).tree, root, [f])
  {
    var full, u := Full(root, f), Applied(t, root, f).tree;
    assert f in [f];
    forall q
      ensures Framed(t, u, root, [f], q)
    {
      if q == full {
        assert Listed(root, [f], q);
      } else if !Same(t, u, q) {
        TowardsFull(t, root, f, q);
      }
    }
  }

  /** A directory created for f lies strictly between the root and f. */
  lemma TowardsFull(t: Tree, root: Path, f: HandoffFile, q: Path)
    requires WellFormed(t) && PhysicalDir(t, root)
    requires q !in t && q <= Parent(Full(root, f))
    ensures Towards(root, [f], q)
  {
    var full := Full(root, f);
    assert q == full[..|q|] && root == full[..|root|];
    if |q| < |root| {
      assert q == root[..|q|];
      PrefixIsDir(t, root, |q|);
    }
    assert f in [f];
  }

  lemma {:induction false} ApplyAllFrame(t: Tree, root: Path, files: seq<HandoffFile>)
    requires WellFormed(t) && PhysicalDir(t, root)
    ensures WellFormed(ApplyAll(t, root, files).tree) && PhysicalDir(ApplyAll(t, root, files).tree, root)
    ensures OnlyTouches(t, ApplyAll(t, root, files).tree, root, files)
    decreases |files|
  {
    if files != [] {
      var n := |files| - 1;
      var before := ApplyAll(t, root, files[..n]);
      ApplyAllFrame(t, root, files[..n]);
      TouchesMore(t, before.tree, root, files[..n], files);
      if before.ok {
        AppliedKeepsForm(before.tree, root, files[n]);
        AppliedTouches(before.tree, root, files[n]);
        TouchesTransitive(t, before.tree, ApplyAll(t, root, files).tree, root, [files[n]], files);
      }
    }
  }

  lemma TouchesMore(t: Tree, u: Tree, root: Path, some: seq<HandoffFile>, files: seq<HandoffFile>)
    requires OnlyTouches(t, u, root, some)
    requires forall f :: f in some ==> f in files
    ensures OnlyTouches(t, u, root, files)
  {
    forall p
      ensures Framed(t, u, root, files, p)
    {
      assert Framed(t, u, root, some, p);
    }
  }

  // ---------- The custody walk ----------

  /** filepath.EvalSymlinks. */
  function EvalSymlinks(t: Tree, p: Path): Option<Path>
    requires WellFormed(t)
  {
    match Walk(t, [], p, true, MAX_LINKS)
    case Found(q) => Some(q)
    case _ => None
  }

  ghost predicate DirsUpTo(t: Tree, root: Path, parts: Path, i: nat)
    requires i <= |parts|
  {
    forall k {:trigger PhysicalDir(t, root + parts[..k])} :: 0 <= k < i ==> PhysicalDir(t, root + parts[..k])
  }

  /**
    confinedPhysicalPath: walks down one name at a time. It accepts exactly the names with
    nothing but directories on the way, whatever links the checkout contains.
   */
  method ConfinedPhysicalPath(disk: Disk, root: Path, name: string) returns (ok: bool)
    requires disk.Valid() && PhysicalDir(disk.tree, root)
    ensures ok ==> Reachable(disk.tree, root, name)
    ensures disk.reliable && Reachable(disk.tree, root, name) ==> ok
  {
    ok := ValidName(name);
    if !ok {
      return;
    }
    ValidNameIsConfined(name);
    ghost var t := disk.tree;
    var parts := Segments(name);
    var i, resolved, done := 0, root, false;
    assert root + parts[..0] == root;
    while i < |parts| && ok && !done
      invariant 0 <= i <= |parts| && resolved == root + parts[..i] && DirsUpTo(t, root, parts, i)
      invariant resolved in t && !t[resolved].Link?
      invariant done && ok ==> Clear(t, root, parts)
      invariant disk.reliable && Clear(t, root, parts) ==> ok
      decreases |parts| - i, ok && !done
    {
      var candidate := resolved + [parts[i]];
      assert parts[..i + 1] == parts[..i] + [parts[i]];
      assert candidate == root + parts[..i + 1] && PlainSegment(parts[i]);
      Descend(t, root, parts, i);
      var fault: bool := *;
      var info := if !disk.reliable && fault then Failed else Lstat(disk.tree, candidate);
      match info {
        case NotExist =>
          done := true;
        case Failed =>
          ok := false;
        case Info(node) =>
          if node.Link? {
            ok := i == |parts| - 1;
            done := true;
          } else {
            var physical := EvalSymlinks(disk.tree, candidate);
            ok := physical.Some? && root <= physical.value;
            resolved := candidate;
            i := i + 1;
          }
      }
    }
    if ok && !done {
      ClearWhenPresent(t, root, parts);
    }
  }

  lemma ClearWhenPresent(t: Tree, root: Path, parts: Path)
    requires DirsUpTo(t, root, parts, |parts|)
    ensures Clear(t, root, parts)
  {
    forall k | 0 < k < |parts|
      ensures DirIfPresent(t, root + parts[..k])
    {
      assert PhysicalDir(t, root + parts[..k]);
    }
  }

  /** Directories up to a name that is missing, or the last name, leave the path clear. */
  lemma ClearBeyond(t: Tree, root: Path, parts: Path, i: nat)
    requires WellFormed(t) && i < |parts| && DirsUpTo(t, root, parts, i + 1)
    requires root + parts[..i + 1] !in t || i + 1 == |parts|
    ensures Clear(t, root, parts)
  {
    forall k | 0 < k < |parts|
      ensures DirIfPresent(t, root + parts[..k])
    {
      if k <= i {
        assert PhysicalDir(t, root + parts[..k]);
      } else if k > i + 1 {
        assert root + parts[..k] == (root + parts[..i + 1]) + parts[i + 1..k];
        MissingAncestor(t, root + parts[..i + 1], root + parts[..k]);
      }
    }
  }

  /** What the walk learns from the i-th name, given the names before it. */
  lemma Descend(t: Tree, root: Path, parts: Path, i: nat)
    requires WellFormed(t) && PhysicalDir(t, root) && PlainSegments(parts)
    requires i < |parts| && DirsUpTo(t, root, parts, i)
    requires root + parts[..i] in t && !t[root + parts[..i]].Link?
    ensures var here, next := root + parts[..i], root + parts[..i + 1];
            var info := Lstat(t, next);
            && (t[here].File? ==> info == Failed && !Clear(t, root, parts))
            && (t[here].Dir? ==> DirsUpTo(t, root, parts, i + 1))
            && (t[here].Dir? && next in t ==> info == Info(t[next]) && (!t[next].Link? ==> EvalSymlinks(t, next) == Some(next)))
            && (t[here].Dir? && next in t && t[next].Link? ==> (Clear(t, root, parts) <==> i == |parts| - 1))
            && (t[here].Dir? && next !in t ==> info == NotExist && Clear(t, root, parts))
  {
    var here, next := root + parts[..i], root + parts[..i + 1];
    assert parts[..i + 1] == parts[..i] + [parts[i]];
    assert next == here + [parts[i]] && PlainSegment(parts[i]);
    if t[here].File? {
      assert i == 0 ==> here == root;
      LstatBelowFile(t, here, [parts[i]]);
      assert !DirIfPresent(t, root + parts[..i]);
    } else {
      LookupInDir(t, here, parts[i], false);
      LookupInDir(t, here, parts[i], true);
      assert DirsUpTo(t, root, parts, i + 1);
      if next !in t || i == |parts| - 1 {
        ClearBeyond(t, root, parts, i);
      } else if t[next].Link? {
        assert !DirIfPresent(t, root + parts[..i + 1]);
      }
    }
  }

  // ---------- Applying entries ----------

  lemma LstatFull(t: Tree, root: Path, f: HandoffFile)
    requires WellFormed(t) && PhysicalDir(t, root) && Reachable(t, root, f.path)
    ensures var full := Full(root, f);
            && Lstat(t, full) == (if full in t then Info(t[full]) else NotExist)
            && (full in t && !t[full].Dir? ==> Removed(t, full) == Step(t - {full}, true))
  {
    ValidNameIsConfined(f.path);
    ResolveClear(t, root, Segments(f.path), false);
  }

  /** Once its directory is there and the old file is gone, writing f lands on f. */
  lemma WrittenFull(t: Tree, root: Path, f: HandoffFile, content: Bytes, mode: int)
    requires WellFormed(t) && PhysicalDir(t, root) && Reachable(t, root, f.path)
    requires PhysicalDir(t, Parent(Full(root, f))) && Full(root, f) !in t
    ensures Written(t, Full(root, f), content, mode) == Step(t[Full(root, f) := File(content, mode)], true)
  {
    ValidNameIsConfined(f.path);
    ResolveClear(t, root, Segments(f.path), true);
  }

  lemma MidDirsTouches(t: Tree, root: Path, f: HandoffFile, u: Tree)
    requires WellFormed(t) && PhysicalDir(t, root) && Reachable(t, root, f.path)
    requires MidDirs(t, Parent(Full(root, f)), u)
    ensures OnlyTouches(t, u, root, [f])
  {
    ReachablePlain(t, root, f);
    forall q
      ensures Framed(t, u, root, [f], q)
    {
      if !Same(t, u, q) {
        TowardsFull(t, root, f, q);
      }
    }
  }

  lemma MidwayPasses(t: Tree, root: Path, f: HandoffFile, u: Tree)
    requires WellFormed(t) && PhysicalDir(t, root) && Reachable(t, root, f.path)
    requires Midway(t, Parent(Full(root, f)), u)
    ensures WellFormed(u) && OnlyTouches(t, u, root, [f])
  {
    MidwayFormed(t, Parent(Full(root, f)), u);
    MidDirsTouches(t, root, f, u);
  }

  lemma ListedChange(t: Tree, u: Tree, v: Tree, root: Path, f: HandoffFile)
    requires OnlyTouches(t, u, root, [f]) && ChangedAt(u, v, Full(root, f))
    ensures OnlyTouches(t, v, root, [f])
  {
    assert f in [f] && Listed(root, [f], Full(root, f));
    forall q
      ensures Framed(t, v, root, [f], q)
    {
      assert Framed(t, u, root, [f], q);
      assert Same(u, v, q) || (q == Full(root, f) && (q in u ==> u[q].File?));
    }
  }

  /** Every state the disk went through since before is a tree that differs from t in listed places only. */
  ghost predicate Passed(history: seq<Tree>, before: nat, t: Tree, root: Path, files: seq<HandoffFile>) {
    forall i :: before <= i < |history| ==> WellFormed(history[i]) && OnlyTouches(t, history[i], root, files)
  }

  /** removeMaterialized. */
  method RemoveMaterialized(disk: Disk, path: Path, ghost root: Path, ghost f: HandoffFile) returns (ok: bool)
    requires disk.Valid() && PhysicalDir(disk.tree, root) && Reachable(disk.tree, root, f.path)
    requires path == Full(root, f) && f.kind == Deleted
    modifies disk
    ensures disk.Valid() && old(disk.history) <= disk.history
    ensures Passed(disk.history, |old(disk.history)|, old(disk.tree), root, [f])
    ensures ok ==> Applied(old(disk.tree), root, f) == Step(disk.tree, true)
    ensures disk.reliable ==> ok == Applied(old(disk.tree), root, f).ok
  {
    ghost var t := disk.tree;
    LstatFull(t, root, f);
    match Lstat(disk.tree, path) {
      case NotExist => return true;
      case Failed => return false;
      case Info(node) =>
        if !node.File? {
          return false;
        }
        ok := disk.Remove(path);
        AppliedTouches(t, root, f);
        ListedChange(t, t, t, root, f) by { forall q ensures Framed(t, t, root, [f], q) {} }
    }
  }

  /** Makes the directories a reachable file needs. */
  method MakeParent(disk: Disk, path: Path, ghost root: Path, ghost f: HandoffFile) returns (ok: bool)
    requires disk.Valid() && PhysicalDir(disk.tree, root) && Reachable(disk.tree, root, f.path) && path == Full(root, f)
    modifies disk
    ensures disk.Valid() && old(disk.history) < disk.history
    ensures Passed(disk.history, |old(disk.history)|, old(disk.tree), root, [f])
    ensures ok ==> disk.tree == WithDirs(old(disk.tree), Parent(path))
    ensures disk.reliable ==> ok
  {
    ghost var t := disk.tree;
    ReachablePlain(t, root, f);
    ok := disk.MakeDirs(Parent(path), root);
    forall i | |old(disk.history)| <= i < |disk.history|
      ensures WellFormed(disk.history[i]) && OnlyTouches(t, disk.history[i], root, [f])
    {
      MidwayPasses(t, root, f, disk.history[i]);
    }
  }

  /** writeMaterialized. */
  method WriteMaterialized(disk: Disk, path: Path, ghost root: Path, f: HandoffFile) returns (ok: bool)
    requires disk.Valid() && PhysicalDir(disk.tree, root) && Reachable(disk.tree, root, f.path)
    requires path == Full(root, f) && f.kind != Deleted
    modifies disk
    ensures disk.Valid() && old(disk.history) <= disk.history
    ensures Passed(disk.history, |old(disk.history)|, old(disk.tree), root, [f])
    ensures ok ==> Applied(old(disk.tree), root, f) == Step(disk.tree, true)
    ensures disk.reliable ==> ok == Applied(old(disk.tree), root, f).ok
  {
    ghost var t := disk.tree;
    StillReachable(t, root, f);
    ok := MakeParent(disk, path, root, f);
    if ok {
      ghost var u, before := disk.tree, disk.history;
      assert u == before[|before| - 1];
      ok := ReplaceMaterialized(disk, path, root, f);
      forall i | |before| <= i < |disk.history|
        ensures WellFormed(disk.history[i]) && OnlyTouches(t, disk.history[i], root, [f])
      {
        assert ChangedAt(u, disk.history[i], path);
        ListedChange(t, u, disk.history[i], root, f);
      }
    }
  }

  /** Nothing differs but a file at p. */
  ghost predicate ChangedAt(t: Tree, u: Tree, p: Path) {
    forall q :: Same(t, u, q) || (q == p && (p in t ==> t[p].File?))
  }

  /** The rest of writeMaterialized, once the directories are there. */
  method ReplaceMaterialized(disk: Disk, path: Path, ghost root: Path, f: HandoffFile) returns (ok: bool)
    requires disk.Valid() && PhysicalDir(disk.tree, root) && Reachable(disk.tree, root, f.path)
    requires path == Full(root, f) && PhysicalDir(disk.tree, Parent(path))
    modifies disk
    ensures disk.Valid() && old(disk.history) <= disk.history
    ensures forall i :: |old(disk.history)| <= i < |disk.history| ==>
                          WellFormed(disk.history[i]) && ChangedAt(old(disk.tree), disk.history[i], path)
    ensures ok ==> disk.tree == old(disk.tree)[path := File(f.content, f.mode)]
    ensures ok ==> path !in old(disk.tree) || old(disk.tree)[path].File?
    ensures disk.reliable ==> ok == (path !in old(disk.tree) || old(disk.tree)[path].File?)
  {
    ghost var u := disk.tree;
    ok := RemoveExisting(disk, path, root, f);
    if ok {
      ghost var v, before := disk.tree, disk.history;
      ClearFewer(u, v, root, Segments(f.path));
      WrittenFull(v, root, f, f.content, f.mode);
      ok := disk.WriteFile(path, f.content, f.mode);
      forall i | |before| <= i < |disk.history|
        ensures WellFormed(disk.history[i]) && ChangedAt(u, disk.history[i], path)
      {
        MidWriteChanges(u, v, disk.history[i], root, f);
      }
    }
  }

  lemma MidWriteChanges(u: Tree, v: Tree, h: Tree, root: Path, f: HandoffFile)
    requires WellFormed(v) && PhysicalDir(v, root) && Reachable(v, root, f.path)
    requires PhysicalDir(v, Parent(Full(root, f)))
    requires v == u - {Full(root, f)} && MidWrite(v, Full(root, f), h)
    requires Full(root, f) in u ==> u[Full(root, f)].File?
    ensures WellFormed(h) && ChangedAt(u, h, Full(root, f))
  {
    if h != v {
      var c: Bytes, m: int :| Written(v, Full(root, f), c, m) == Step(h, true);
      WrittenFull(v, root, f, c, m);
      MutationsKeepForm(v, Full(root, f), c, m);
    }
  }

  /** Makes room for a file; refuses to displace anything but a regular file. */
  method RemoveExisting(disk: Disk, path: Path, ghost root: Path, ghost f: HandoffFile) returns (ok: bool)
    requires disk.Valid() && PhysicalDir(disk.tree, root) && Reachable(disk.tree, root, f.path)
    requires path == Full(root, f)
    modifies disk
    ensures disk.Valid() && old(disk.history) <= disk.history
    ensures forall i :: |old(disk.history)| <= i < |disk.history| ==>
                          WellFormed(disk.history[i]) && ChangedAt(old(disk.tree), disk.history[i], path)
    ensures ok ==> disk.tree == old(disk.tree) - {path} && (path in old(disk.tree) ==> old(disk.tree)[path].File?)
    ensures disk.reliable ==> ok == (path !in old(disk.tree) || old(disk.tree)[path].File?)
  {
    LstatFull(disk.tree, root, f);
    match Lstat(disk.tree, path) {
      case NotExist =>
        assert disk.tree - {path} == disk.tree;
        ok := true;
      case Failed =>
        ok := false;
      case Info(node) =>
        ok := node.File?;
        if ok {
          ok := disk.Remove(path);
        }
    }
  }

  /** Creating the directories of f leaves the way to f clear and f itself as it was. */
  lemma StillReachable(t: Tree, root: Path, f: HandoffFile)
    requires WellFormed(t) && PhysicalDir(t, root) && Reachable(t, root, f.path)
    ensures var full := Full(root, f);
            var u := WithDirs(t, Parent(full));
            && WellFormed(u) && PhysicalDir(u, root) && Reachable(u, root, f.path)
            && PhysicalDir(u, Parent(full)) && Same(t, u, full)
  {
    ReachablePlain(t, root, f);
    WithDirsKeepsForm(t, Parent(Full(root, f)));
    ClearFewer(t, WithDirs(t, Parent(Full(root, f))), root, Segments(f.path));
  }

  /** One iteration of the apply loop. */
  method ApplyFile(disk: Disk, root: Path, f: HandoffFile) returns (ok: bool)
    requires disk.Valid() && PhysicalDir(disk.tree, root)
    modifies disk
    ensures disk.Valid() && old(disk.history) <= disk.history
    ensures Passed(disk.history, |old(disk.history)|, old(disk.tree), root, [f])
    ensures ok ==> Applied(old(disk.tree), root, f) == Step(disk.tree, true)
    ensures disk.reliable ==> ok == Applied(old(disk.tree), root, f).ok
  {
    ok := ConfinedPhysicalPath(disk, root, f.path);
    if ok {
      if f.kind == Deleted {
        ok := RemoveMaterialized(disk, Full(root, f), root, f);
      } else {
        ok := WriteMaterialized(disk, Full(root, f), root, f);
      }
    }
  }

  /** One iteration of verifyMaterialized. */
  method CheckFile(disk: Disk, root: Path, f: HandoffFile) returns (ok: bool)
    requires disk.Valid() && PhysicalDir(disk.tree, root)
    ensures ok ==> Holds(disk.tree, root, f)
    ensures disk.reliable ==> ok == Holds(disk.tree, root, f)
  {
    ok := ConfinedPhysicalPath(disk, root, f.path);
    if !ok {
      return;
    }
    var full := Full(root, f);
    LstatFull(disk.tree, root, f);
    if f.kind == Deleted {
      return Lstat(disk.tree, full) == NotExist;
    }
    ValidNameIsConfined(f.path);
    ResolveClear(disk.tree, root, Segments(f.path), true);
    match ReadFile(disk.tree, full) {
      case NoContent => return false;
      case Content(body) =>
        var info := Lstat(disk.tree, full);
        ok := Sha256(body) == f.digest && info.Info? && info.node.File? && info.node.perm == f.mode;
    }
  }

  /** verifyMaterialized. */
  method VerifyMaterialized(disk: Disk, root: Path, files: seq<HandoffFile>) returns (ok: bool)
    requires disk.Valid() && PhysicalDir(disk.tree, root)
    ensures ok ==> HoldsAll(disk.tree, root, files)
    ensures disk.reliable ==> ok == HoldsAll(disk.tree, root, files)
  {
    var i := 0;
    while i < |files|
      invariant 0 <= i <= |files|
      invariant forall j :: 0 <= j < i ==> Holds(disk.tree, root, files[j])
    {
      ok := CheckFile(disk, root, files[i]);
      if !ok {
        assert files[i] in files;
        return;
      }
      i := i + 1;
    }
    ok := true;
  }

  // ---------- Materialize ----------

  datatype Outcome = Done | BaseMismatch | NoWorkspace | Refused

  lemma ApplyAllSnoc(t: Tree, root: Path, files: seq<HandoffFile>, f: HandoffFile)
    ensures var before := ApplyAll(t, root, files);
            ApplyAll(t, root, files + [f]) == if before.ok then Applied(before.tree, root, f) else before
  {
    assert (files + [f])[..|files|] == files;
  }

  lemma {:induction false} ApplyAllStops(t: Tree, root: Path, files: seq<HandoffFile>, n: nat)
    requires n <= |files| && !ApplyAll(t, root, files[..n]).ok
    ensures !ApplyAll(t, root, files).ok
    decreases |files| - n
  {
    if n == |files| {
      assert files[..n] == files;
    } else {
      assert files[..n + 1][..n] == files[..n];
      ApplyAllStops(t, root, files, n + 1);
    }
  }

  /** Every entry applies, and holds afterwards. */
  ghost predicate Succeeds(t: Tree, root: Path, files: seq<HandoffFile>) {
    ApplyAll(t, root, files).ok && HoldsAll(ApplyAll(t, root, files).tree, root, files)
  }

  /** Where the loop stands before entry i, and what the next entry means for the whole. */
  lemma NextEntry(t: Tree, u: Tree, root: Path, files: seq<HandoffFile>, i: nat)
    requires WellFormed(t) && PhysicalDir(t, root)
    requires i < |files| && ApplyAll(t, root, files[..i]) == Step(u, true)
    ensures OnlyTouches(t, u, root, files)
    ensures ApplyAll(t, root, files[..i + 1]) == Applied(u, root, files[i])
    ensures PhysicalDir(Applied(u, root, files[i]).tree, root)
    ensures Succeeds(t, root, files) ==> Applied(u, root, files[i]).ok
  {
    ApplyAllFrame(t, root, files[..i]);
    TouchesMore(t, u, root, files[..i], files);
    assert files[..i + 1][..i] == files[..i];
    AppliedKeepsForm(u, root, files[i]);
    if !Applied(u, root, files[i]).ok {
      ApplyAllStops(t, root, files, i + 1);
    }
  }

  lemma PassedOn(h0: seq<Tree>, h: seq<Tree>, before: nat, t: Tree, u: Tree, root: Path, f: HandoffFile,
                 files: seq<HandoffFile>)
    requires h0 <= h && Passed(h0, before, t, root, files)
    requires f in files && OnlyTouches(t, u, root, files) && Passed(h, |h0|, u, root, [f])
    ensures Passed(h, before, t, root, files)
  {
    forall k | before <= k < |h|
      ensures OnlyTouches(t, h[k], root, files)
    {
      if k >= |h0| {
        TouchesTransitive(t, u, h[k], root, [f], files);
      }
    }
  }

  /** Applies the entries in order, then checks every one of them. */
  method Write(disk: Disk, root: Path, files: seq<HandoffFile>) returns (ok: bool)
    requires disk.Valid() && PhysicalDir(disk.tree, root)
    modifies disk
    ensures disk.Valid() && old(disk.history) <= disk.history
    ensures Passed(disk.history, |old(disk.history)|, old(disk.tree), root, files)
    ensures ok ==> ApplyAll(old(disk.tree), root, files) == Step(disk.tree, true) && HoldsAll(disk.tree, root, files)
    ensures disk.reliable && Succeeds(old(disk.tree), root, files) ==> ok
  {
    ghost var t := disk.tree;
    var i := 0;
    while i < |files|
      invariant 0 <= i <= |files|
      invariant disk.Valid() && PhysicalDir(disk.tree, root) && old(disk.history) <= disk.history
      invariant ApplyAll(t, root, files[..i]) == Step(disk.tree, true)
      invariant Passed(disk.history, |old(disk.history)|, t, root, files)
    {
      ghost var u, before := disk.tree, disk.history;
      NextEntry(t, u, root, files, i);
      ok := ApplyFile(disk, root, files[i]);
      PassedOn(before, disk.history, |old(disk.history)|, t, u, root, files[i], files);
      if !ok {
        return;
      }
      i := i + 1;
    }
    assert files[..i] == files;
    ok := VerifyMaterialized(disk, root, files);
  }

  /** Looking at the path shows the change: nothing, or a regular file with the listed bytes and mode. */
  ghost predicate Shows(t: Tree, root: Path, f: HandoffFile)
    requires WellFormed(t)
  {
    var info := Lstat(t, root + Segments(f.path));
    if f.kind == Deleted then info == NotExist
    else info.Info? && info.node.File? && Sha256(info.node.content) == f.digest && info.node.perm == f.mode
  }

  lemma HeldIsShown(t: Tree, root: Path, files: seq<HandoffFile>)
    requires WellFormed(t) && PhysicalDir(t, root) && HoldsAll(t, root, files)
    ensures forall f :: f in files ==> Shows(t, root, f)
  {
    forall f | f in files
      ensures Shows(t, root, f)
    {
      assert Holds(t, root, f);
      LstatFull(t, root, f);
    }
  }

  /**
    Materialize. Wherever it stops, only listed paths and new directories towards them differ;
    when it is done the tree is the overlay, and every entry has been seen to hold.
   */
  method Materialize(disk: Disk, handoff: Handoff, destination: Path, baseRevision: string) returns (r: Outcome)
    requires disk.Valid()
    modifies disk
    ensures disk.Valid() && old(disk.history) <= disk.history
    ensures r == BaseMismatch <==>
              handoff.workspaceKind == GitWorktree &&
              (Blank(handoff.baseRevision) || Blank(baseRevision) || handoff.baseRevision != baseRevision)
    ensures r == BaseMismatch || r == NoWorkspace ==> disk.history == old(disk.history)
    ensures r == Done || r == Refused ==> PhysicalDirectory(old(disk.tree), destination).Some?
    ensures r == Done || r == Refused ==>
              Passed(disk.history, |old(disk.history)|, old(disk.tree), PhysicalDirectory(old(disk.tree), destination).value, handoff.files)
    ensures r == Done ==>
              var root := PhysicalDirectory(old(disk.tree), destination).value;
              ApplyAll(old(disk.tree), root, handoff.files) == Step(disk.tree, true) && HoldsAll(disk.tree, root, handoff.files)
    ensures r == Done ==>
              var root := PhysicalDirectory(old(disk.tree), destination).value;
              forall f :: f in handoff.files ==> Shows(disk.tree, root, f)
    ensures r == NoWorkspace <==> r != BaseMismatch && PhysicalDirectory(old(disk.tree), destination).None?
    ensures disk.reliable && r != BaseMismatch && PhysicalDirectory(old(disk.tree), destination).Some? ==>
              Succeeds(old(disk.tree), PhysicalDirectory(old(disk.tree), destination).value, handoff.files) ==> r == Done
  {
    if handoff.workspaceKind == GitWorktree {
      if Blank(handoff.baseRevision) || Blank(baseRevision) {
        return BaseMismatch;
      }
      if handoff.baseRevision != baseRevision {
        return BaseMismatch;
      }
    }
    match PhysicalDirectory(disk.tree, destination) {
      case None => return NoWorkspace;
      case Some(root) =>
        var ok := Write(disk, root, handoff.files);
        r := if ok then Done else Refused;
        if ok {
          ApplyAllFrame(old(disk.tree), root, handoff.files);
          HeldIsShown(disk.tree, root, handoff.files);
        }
    }
  }
}
