/** What Materialize means for the successor's checkout, whatever that checkout contains. */
module Overlay {
  import opened Names
  import opened FileTree
  import opened Receipts
  import opened Materialize

  /** The digests of a handoff are those of the bytes it carries, as Compose guarantees. */
  ghost predicate Faithful(files: seq<HandoffFile>) {
    forall f :: f in files && f.kind != Deleted ==> f.digest == Sha256(f.content)
  }

  /**
    On success the tree is the base overlaid by the handoff: listed paths are absent or hold the
    listed bytes and mode, and anything else that is or was a file or a link is as before.
   */
  lemma OverlaysTheBase(t: Tree, root: Path, files: seq<HandoffFile>)
    requires WellFormed(t) && PhysicalDir(t, root)
    requires Faithful(files) && Succeeds(t, root, files)
    ensures var u := ApplyAll(t, root, files).tree;
            && (forall f :: f in files && f.kind == Deleted ==> Full(root, f) !in u)
            && (forall f :: f in files && f.kind != Deleted ==>
                              Full(root, f) in u && u[Full(root, f)] == File(f.content, f.mode))
            && (forall p :: !Listed(root, files, p) ==> Same(t, u, p) || (p !in t && u[p] == Dir && Towards(root, files, p)))
  {
    ApplyAllFrame(t, root, files);
    var u := ApplyAll(t, root, files).tree;
    forall f | f in files
      ensures f.kind == Deleted ==> Full(root, f) !in u
      ensures f.kind != Deleted ==> Full(root, f) in u && u[Full(root, f)] == File(f.content, f.mode)
    {
      assert Holds(u, root, f);
    }
    forall p | !Listed(root, files, p)
      ensures Same(t, u, p) || (p !in t && u[p] == Dir && Towards(root, files, p))
    {
      assert Framed(t, u, root, files, p);
    }
  }

  // ---------- Custody ----------

  /** What differs is strictly below the root and below real directories, and was a file if it was there. */
  ghost predicate InCustody(t: Tree, u: Tree, root: Path, p: Path) {
    Same(t, u, p) ||
    (root < p && (p in t ==> t[p].File?) && forall k {:trigger p[..k]} :: 0 <= k < |p| ==>
       (p in t ==> PhysicalDir(t, p[..k])) && (p in u ==> PhysicalDir(u, p[..k])))
  }

  lemma TouchedInCustody(t: Tree, u: Tree, root: Path, files: seq<HandoffFile>, p: Path)
    requires WellFormed(t) && WellFormed(u) && OnlyTouches(t, u, root, files)
    ensures InCustody(t, u, root, p)
  {
    assert Framed(t, u, root, files, p);
    forall k {:trigger p[..k]} | 0 <= k < |p|
      ensures p in t ==> PhysicalDir(t, p[..k])
      ensures p in u ==> PhysicalDir(u, p[..k])
    {
      if p in t {
        PrefixIsDir(t, p, k);
      }
      if p in u {
        PrefixIsDir(u, p, k);
      }
    }
  }

  /**
    Custody of the workspace: in every state that Materialize passes through, on every checkout and
    wherever it stops, nothing outside the physical root differs, every directory and every link of
    the checkout is as it was, and what differs lies below real directories only. `Passed` is what
    Materialize promises of its whole history.
   */
  lemma Custody(history: seq<Tree>, before: nat, t: Tree, root: Path, files: seq<HandoffFile>, i: nat, p: Path)
    requires WellFormed(t) && Passed(history, before, t, root, files) && before <= i < |history|
    ensures InCustody(t, history[i], root, p)
  {
    TouchedInCustody(t, history[i], root, files, p);
  }

  /** Directories and links of the base survive as they were: only regular files are displaced. */
  lemma {:induction false} OnlyFilesAreDisplaced(t: Tree, root: Path, files: seq<HandoffFile>, p: Path)
    requires WellFormed(t) && PhysicalDir(t, root)
    requires p in t && !t[p].File?
    ensures Same(t, ApplyAll(t, root, files).tree, p)
    decreases |files|
  {
    if files != [] {
      var n := |files| - 1;
      OnlyFilesAreDisplaced(t, root, files[..n], p);
      ApplyAllFrame(t, root, files[..n]);
    }
  }

  // ---------- Running it again ----------

  lemma AppliedSettled(t: Tree, root: Path, f: HandoffFile)
    requires WellFormed(t) && PhysicalDir(t, root) && Holds(t, root, f)
    requires f.kind != Deleted ==> f.digest == Sha256(f.content)
    ensures Applied(t, root, f) == Step(t, true)
  {
    if f.kind != Deleted {
      var full := Full(root, f);
      assert Sits(t, full);
      WithDirsPresent(t, Parent(full));
      assert t[full := File(f.content, f.mode)] == t;
    }
  }

  /** After a success, materializing the same handoff again succeeds and changes nothing. */
  lemma {:induction false} RerunChangesNothing(t: Tree, root: Path, files: seq<HandoffFile>)
    requires WellFormed(t) && PhysicalDir(t, root)
    requires Faithful(files) && HoldsAll(t, root, files)
    ensures ApplyAll(t, root, files) == Step(t, true) && Succeeds(t, root, files)
    decreases |files|
  {
    if files != [] {
      var n := |files| - 1;
      RerunChangesNothing(t, root, files[..n]);
      AppliedSettled(t, root, files[n]);
    }
  }

  // ---------- Exactly when it succeeds ----------

  predicate Apart(f: HandoffFile, g: HandoffFile) {
    !(Segments(f.path) <= Segments(g.path)) && !(Segments(g.path) <= Segments(f.path))
  }

  /** No listed path is another one or lies below it. */
  ghost predicate PrefixFree(files: seq<HandoffFile>) {
    forall i, j :: 0 <= i < j < |files| ==> Apart(files[i], files[j])
  }

  /** The place of f can be reached, and nothing but a regular file is in the way. */
  ghost predicate Ready(t: Tree, root: Path, f: HandoffFile) {
    Reachable(t, root, f.path) && (Full(root, f) in t ==> t[Full(root, f)].File?)
  }

  lemma AppliedKeepsOthers(t: Tree, root: Path, f: HandoffFile, g: HandoffFile)
    requires Apart(f, g) && Applied(t, root, f).ok
    ensures var u := Applied(t, root, f).tree;
            && (Ready(u, root, g) <==> Ready(t, root, g))
            && (Holds(u, root, g) <==> Holds(t, root, g))
  {
    var u, full, gfull := Applied(t, root, f).tree, Full(root, f), Full(root, g);
    var segs, gsegs := Segments(f.path), Segments(g.path);
    forall k | 0 < k < |gsegs|
      ensures DirIfPresent(t, root + gsegs[..k]) <==> DirIfPresent(u, root + gsegs[..k])
    {
      BelowRoot(root, gsegs[..k], segs);
      assert gsegs[..k] <= gsegs;
    }
    if Reachable(t, root, g.path) {
      ClearSame(t, u, root, gsegs);
    }
    if Reachable(u, root, g.path) {
      ClearSame(u, t, root, gsegs);
    }
    BelowRoot(root, gsegs, segs);
    assert gfull <= Parent(full) ==> gfull <= full;
  }

  lemma BelowRoot(root: Path, a: Path, b: Path)
    ensures root + a <= root + b <==> a <= b
    ensures root + a == root + b <==> a == b
  {
    if root + a <= root + b {
      assert a == (root + a)[|root|..] && b == (root + b)[|root|..];
      forall i | 0 <= i < |a|
        ensures a[i] == b[i]
      {
        assert (root + a)[|root| + i] == (root + b)[|root| + i];
      }
    }
  }

  lemma ClearSame(t: Tree, u: Tree, root: Path, rest: Path)
    requires Clear(t, root, rest)
    requires forall k {:trigger DirIfPresent(u, root + rest[..k])} ::
      0 < k < |rest| ==> (DirIfPresent(t, root + rest[..k]) <==> DirIfPresent(u, root + rest[..k]))
    ensures Clear(u, root, rest)
  {
    forall k | 0 < k < |rest|
      ensures DirIfPresent(u, root + rest[..k])
    {
      assert DirIfPresent(t, root + rest[..k]);
    }
  }

  lemma {:induction false} ApplyAllKeepsOthers(t: Tree, root: Path, files: seq<HandoffFile>, g: HandoffFile)
    requires (forall f :: f in files ==> Apart(f, g)) && ApplyAll(t, root, files).ok
    ensures Ready(ApplyAll(t, root, files).tree, root, g) <==> Ready(t, root, g)
    decreases |files|
  {
    if files != [] {
      var n := |files| - 1;
      ApplyAllKeepsOthers(t, root, files[..n], g);
      AppliedKeepsOthers(ApplyAll(t, root, files[..n]).tree, root, files[n], g);
    }
  }

  lemma AppliedWhenReady(t: Tree, root: Path, f: HandoffFile)
    requires WellFormed(t) && PhysicalDir(t, root)
    ensures Applied(t, root, f).ok <==> Ready(t, root, f)
    ensures Ready(t, root, f) && (f.kind != Deleted ==> f.digest == Sha256(f.content)) ==>
              Holds(Applied(t, root, f).tree, root, f)
  {
    if Ready(t, root, f) {
      var u := Applied(t, root, f).tree;
      forall q | DirIfPresent(t, q) && !DirIfPresent(u, q)
        ensures q == Full(root, f)
      {
      }
      forall k | 0 < k < |Segments(f.path)|
        ensures DirIfPresent(u, root + Segments(f.path)[..k])
      {
        assert DirIfPresent(t, root + Segments(f.path)[..k]);
        assert |root + Segments(f.path)[..k]| < |Full(root, f)|;
      }
    }
  }

  /**
    For paths that do not nest, Materialize can be predicted from the checkout it starts on: it
    goes through exactly when every listed path is reachable and free or held by a regular file.
   */
  lemma {:induction false} SucceedsExactlyWhenReady(t: Tree, root: Path, files: seq<HandoffFile>)
    requires WellFormed(t) && PhysicalDir(t, root)
    requires PrefixFree(files) && Faithful(files)
    ensures Succeeds(t, root, files) <==> forall f :: f in files ==> Ready(t, root, f)
    ensures ApplyAll(t, root, files).ok <==> forall f :: f in files ==> Ready(t, root, f)
    decreases |files|
  {
    if files != [] {
      var n := |files| - 1;
      var before := ApplyAll(t, root, files[..n]);
      SucceedsExactlyWhenReady(t, root, files[..n]);
      assert forall f :: f in files <==> f in files[..n] || f == files[n];
      if before.ok {
        ApplyAllFrame(t, root, files[..n]);
        forall f | f in files[..n]
          ensures Apart(f, files[n])
        {
          var i :| 0 <= i < n && files[i] == f;
        }
        ApplyAllKeepsOthers(t, root, files[..n], files[n]);
        AppliedWhenReady(before.tree, root, files[n]);
        if Ready(t, root, files[n]) {
          forall f | f in files[..n]
            ensures Holds(Applied(before.tree, root, files[n]).tree, root, f)
          {
            AppliedKeepsOthers(before.tree, root, files[n], f);
          }
        }
      }
    }
  }
}
