/** Building a fresh directory of files: the stage both publication and export write into. */
module Bundle {
  import opened Names
  import opened FileTree
  import opened Receipts
  import opened Materialize
  import opened Overlay

  const EMPTY_TREE: Tree := map[[] := Dir]

  lemma PlainIsReachable(t: Tree, base: Path, f: HandoffFile)
    requires WellFormed(t) && PhysicalDir(t, base) && ValidName(f.path)
    ensures Plain(t, Parent(Full(base, f))) <==> Reachable(t, base, f.path)
  {
    var segs, p := Segments(f.path), Parent(Full(base, f));
    if Plain(t, p) {
      forall k | 0 < k < |segs|
        ensures DirIfPresent(t, base + segs[..k])
      {
        assert base + segs[..k] == p[..|base| + k] && DirIfPresent(t, p[..|base| + k]);
      }
    }
    if Reachable(t, base, f.path) {
      ReachablePlain(t, base, f);
    }
  }

  /** Creating directories for f below a linkless base stays there, however far it gets. */
  lemma MidDirsStaged(t: Tree, h: Tree, base: Path, f: HandoffFile)
    requires WellFormed(t) && Linkless(t, base) && ValidName(f.path)
    requires MidDirs(t, Parent(Full(base, f)), h)
    requires !Reachable(t, base, f.path) ==> h == t
    ensures OnlyTouches(t, h, base, [f]) && Linkless(h, base)
  {
    if Reachable(t, base, f.path) {
      MidDirsTouches(t, base, f, h);
    } else {
      forall p ensures Framed(t, h, base, [f], p) {}
    }
  }

  /** Below a linkless base a write replaces or creates exactly the file it names. */
  lemma WrittenInPlace(u: Tree, base: Path, f: HandoffFile, content: Bytes, mode: int)
    requires WellFormed(u) && Linkless(u, base) && Reachable(u, base, f.path) && PhysicalDir(u, Parent(Full(base, f)))
    ensures var full := Full(base, f);
            Written(u, full, content, mode) ==
            if full in u && u[full].Dir? then Step(u, false) else Step(u[full := File(content, mode)], true)
  {
    ValidNameIsConfined(f.path);
    ResolveClear(u, base, Segments(f.path), true);
  }

  lemma MidWriteInPlace(u: Tree, h: Tree, base: Path, f: HandoffFile)
    requires WellFormed(u) && Linkless(u, base) && Reachable(u, base, f.path) && PhysicalDir(u, Parent(Full(base, f)))
    requires MidWrite(u, Full(base, f), h)
    ensures ChangedAt(u, h, Full(base, f)) && Linkless(h, base) && WellFormed(h)
  {
    if h != u {
      var c: Bytes, m: int :| Written(u, Full(base, f), c, m) == Step(h, true);
      WrittenInPlace(u, base, f, c, m);
      MutationsKeepForm(u, Full(base, f), c, m);
      assert |Full(base, f)| > |base|;
    }
  }

  /** Writes a file whose directory is there, over an older version if there is one. */
  method WriteOver(disk: Disk, base: Path, f: HandoffFile) returns (ok: bool)
    requires disk.Valid() && Linkless(disk.tree, base) && Reachable(disk.tree, base, f.path)
    requires PhysicalDir(disk.tree, Parent(Full(base, f)))
    modifies disk
    ensures disk.Valid() && old(disk.history) <= disk.history && Linkless(disk.tree, base)
    ensures forall i :: |old(disk.history)| <= i < |disk.history| ==>
                          ChangedAt(old(disk.tree), disk.history[i], Full(base, f)) && WellFormed(disk.history[i])
    ensures ok ==> disk.tree == old(disk.tree)[Full(base, f) := File(f.content, f.mode)]
    ensures ok ==> DirFree(old(disk.tree), Full(base, f))
    ensures disk.reliable && DirFree(old(disk.tree), Full(base, f)) ==> ok
  {
    ghost var u := disk.tree;
    WrittenInPlace(u, base, f, f.content, f.mode);
    ok := disk.WriteFile(Full(base, f), f.content, f.mode);
    forall i | |old(disk.history)| <= i < |disk.history|
      ensures ChangedAt(u, disk.history[i], Full(base, f)) && Linkless(disk.history[i], base) && WellFormed(disk.history[i])
    {
      MidWriteInPlace(u, disk.history[i], base, f);
    }
    assert disk.tree == disk.history[|disk.history| - 1];
  }

  predicate DirFree(t: Tree, p: Path) {
    p in t ==> !t[p].Dir?
  }

  /** Creates the directories a file needs and writes it in place. */
  method PutFile(disk: Disk, base: Path, f: HandoffFile) returns (ok: bool)
    requires disk.Valid() && Linkless(disk.tree, base)
    requires ValidName(f.path) && f.kind != Deleted
    modifies disk
    ensures disk.Valid() && old(disk.history) <= disk.history
    ensures Linkless(disk.tree, base)
    ensures Passed(disk.history, |old(disk.history)|, old(disk.tree), base, [f])
    ensures forall i :: |old(disk.history)| <= i < |disk.history| ==> WellFormed(disk.history[i])
    ensures ok ==> Applied(old(disk.tree), base, f) == Step(disk.tree, true)
    ensures disk.reliable ==> ok == Applied(old(disk.tree), base, f).ok
  {
    ghost var t := disk.tree;
    PlainIsReachable(t, base, f);
    BelowBase(t, base, f);
    ok := disk.MakeDirs(Parent(Full(base, f)), base);
    forall i | |old(disk.history)| <= i < |disk.history|
      ensures OnlyTouches(t, disk.history[i], base, [f]) && Linkless(disk.history[i], base) && WellFormed(disk.history[i])
    {
      MidwayFormed(t, Parent(Full(base, f)), disk.history[i]);
      MidDirsStaged(t, disk.history[i], base, f);
    }
    assert disk.tree == disk.history[|disk.history| - 1];
    if ok {
      ghost var u, before := disk.tree, disk.history;
      StillReachable(t, base, f);
      ok := WriteOver(disk, base, f);
      forall i | |before| <= i < |disk.history|
        ensures OnlyTouches(t, disk.history[i], base, [f])
      {
        ListedChange(t, u, disk.history[i], base, f);
      }
    }
  }

  lemma BelowBase(t: Tree, base: Path, f: HandoffFile)
    requires WellFormed(t) && PhysicalDir(t, base) && ValidName(f.path)
    ensures PlainSegments(Parent(Full(base, f))) && base <= Parent(Full(base, f))
    ensures Linkless(t, base) && Reachable(t, base, f.path) ==>
              (DirFree(t, Full(base, f)) <==> (Full(base, f) in t ==> t[Full(base, f)].File?))
  {
    ValidNameIsConfined(f.path);
    NamesArePlain(t, base);
  }

  // ---------- What a finished bundle holds ----------

  /** Only files to write, each path once. */
  ghost predicate Writes(es: seq<HandoffFile>) {
    (forall e :: e in es ==> e.kind != Deleted) && Faithful(es) &&
    forall i, j :: 0 <= i < j < |es| ==> es[i].path != es[j].path
  }

  lemma AncestorIsDir(t: Tree, base: Path, rest: Path, k: nat)
    requires Clear(t, base, rest) && 0 < k < |rest|
    ensures DirIfPresent(t, base + rest[..k])
  {
  }

  lemma PutKeepsOthers(t: Tree, base: Path, f: HandoffFile, g: HandoffFile)
    requires WellFormed(t) && PhysicalDir(t, base)
    requires f.kind != Deleted && g.kind != Deleted && f.path != g.path
    requires Applied(t, base, f).ok && Holds(t, base, g)
    ensures Holds(Applied(t, base, f).tree, base, g)
  {
    var fs, gs := Segments(f.path), Segments(g.path);
    if fs == gs {
      SplitInjective(f.path, g.path, SLASH);
    }
    if gs < fs {
      assert base + fs[..|gs|] == Full(base, g);
      AncestorIsDir(t, base, fs, |gs|);
    }
    if fs < gs {
      assert Full(base, g)[..|Full(base, f)|] == Full(base, f);
      PrefixIsDir(t, Full(base, g), |Full(base, f)|);
    }
    AppliedKeepsOthers(t, base, f, g);
  }

  /** Once every write has gone through, every file is there as written. */
  lemma {:induction false} AllWritten(t: Tree, base: Path, es: seq<HandoffFile>)
    requires WellFormed(t) && PhysicalDir(t, base) && Writes(es) && ApplyAll(t, base, es).ok
    ensures HoldsAll(ApplyAll(t, base, es).tree, base, es)
    decreases |es|
  {
    if es != [] {
      var n := |es| - 1;
      var u := ApplyAll(t, base, es[..n]).tree;
      AllWritten(t, base, es[..n]);
      ApplyAllFrame(t, base, es[..n]);
      AppliedWhenReady(u, base, es[n]);
      forall e | e in es
        ensures Holds(ApplyAll(t, base, es).tree, base, e)
      {
        if e in es[..n] {
          var i :| 0 <= i < n && es[i] == e;
          PutKeepsOthers(u, base, es[n], e);
        } else {
          assert e == es[n];
        }
      }
    }
  }

  ghost predicate Needed(es: seq<HandoffFile>, p: Path) {
    exists e :: e in es && p <= Full([], e)
  }

  /** The tree holds the listed files, the directories they need, and nothing else. */
  ghost predicate ExactTree(u: Tree, es: seq<HandoffFile>) {
    WellFormed(u) && HoldsAll(u, [], es) &&
    forall p {:trigger Needed(es, p)} :: p in u && p != [] ==> Needed(es, p)
  }

  lemma EmptyIsFine()
    ensures WellFormed(EMPTY_TREE) && Linkless(EMPTY_TREE, [])
  {
  }

  lemma StagedIsExact(es: seq<HandoffFile>)
    requires Writes(es) && ApplyAll(EMPTY_TREE, [], es).ok
    ensures ExactTree(ApplyAll(EMPTY_TREE, [], es).tree, es)
  {
    EmptyIsFine();
    AllWritten(EMPTY_TREE, [], es);
    ApplyAllFrame(EMPTY_TREE, [], es);
    var u := ApplyAll(EMPTY_TREE, [], es).tree;
    forall p | p in u && p != []
      ensures Needed(es, p)
    {
      assert Framed(EMPTY_TREE, u, [], es, p);
    }
  }

  /** An exact tree is determined by the files it holds. */
  lemma ExactUnique(u: Tree, v: Tree, es: seq<HandoffFile>, fs: seq<HandoffFile>)
    requires ExactTree(u, es) && ExactTree(v, fs) && Writes(es)
    requires forall e :: e in es <==> e in fs
    ensures u == v
  {
    forall p
      ensures Same(u, v, p)
    {
      if p != [] {
        ExactWithin(u, v, es, fs, p);
        ExactWithin(v, u, fs, es, p);
      }
    }
    SameEverywhere(u, v);
  }

  lemma SameEverywhere(u: Tree, v: Tree)
    requires forall p :: Same(u, v, p)
    ensures u == v
  {
    forall p
      ensures p in u <==> p in v
    {
      assert Same(u, v, p);
    }
    forall p | p in u
      ensures u[p] == v[p]
    {
      assert Same(u, v, p);
    }
  }

  lemma ExactWithin(u: Tree, v: Tree, es: seq<HandoffFile>, fs: seq<HandoffFile>, p: Path)
    requires ExactTree(u, es) && WellFormed(v) && HoldsAll(v, [], fs)
    requires forall e :: e in es ==> e in fs && e.kind != Deleted
    requires p != []
    ensures p in u ==> p in v && u[p] == v[p]
  {
    if p in u {
      assert Needed(es, p);
      var e :| e in es && p <= Full([], e);
      ExactAt(u, v, e, p);
    }
  }

  /** Two trees that hold the same file agree on it and on its directories. */
  lemma ExactAt(u: Tree, v: Tree, e: HandoffFile, p: Path)
    requires WellFormed(u) && WellFormed(v) && Holds(u, [], e) && Holds(v, [], e)
    requires e.kind != Deleted && p <= Full([], e)
    ensures p in u && p in v && u[p] == v[p]
  {
    var full := Full([], e);
    assert p == full[..|p|];
    if p != full {
      PrefixIsDir(u, full, |p|);
      PrefixIsDir(v, full, |p|);
    }
  }
}
