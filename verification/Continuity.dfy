/** The whole hand-over: what a successor finds after Retain, Compose and Materialize. */
module Continuity {
  import opened Options
  import opened Names
  import opened FileTree
  import opened Receipts
  import opened Materialize
  import opened Overlay
  import opened Publication
  import opened Compose
  import opened Capture
  import opened Retention

  /** The regular file at p, if there is one. */
  function RegularAt(t: Tree, p: Path): Option<Node> {
    if p in t && t[p].File? then Some(t[p]) else None
  }

  /** The file or link at p, if there is one; directories do not count as differences. */
  function LeafAt(t: Tree, p: Path): Option<Node> {
    if p in t && !t[p].Dir? then Some(t[p]) else None
  }

  ghost predicate Lists(listing: map<string, ChangeKind>, q: Path) {
    exists name :: name in listing && Segments(name) == q
  }

  /** The listing names every place where base and workspace hold different files or links. */
  ghost predicate Covers(base: Tree, broot: Path, work: Tree, wroot: Path, listing: map<string, ChangeKind>) {
    forall q :: LeafAt(base, broot + q) != LeafAt(work, wroot + q) ==> Lists(listing, q)
  }

  /** A path is only called deleted when the workspace has no file or link there. */
  ghost predicate HonestDeletions(work: Tree, wroot: Path, listing: map<string, ChangeKind>) {
    forall name :: name in listing && listing[name] == Deleted ==> LeafAt(work, wroot + Segments(name)) == None
  }

  /** One predecessor's result on its way from a workspace to a copy of that workspace's base. */
  datatype Transfer = Transfer(
    work: Tree,
    wroot: Path,
    listing: map<string, ChangeKind>,
    maxBytes: nat,
    receipt: Receipt,
    published: Published,
    base: Tree,
    broot: Path,
    handoff: Handoff,
    result: Tree)

  /** The receipt is complete and its files are published intact. */
  ghost predicate Kept(x: Transfer) {
    WellFormed(x.work) && PhysicalDir(x.work, x.wroot) && ValidStore(x.published) &&
    HonestDeletions(x.work, x.wroot, x.listing) &&
    ValidReceipt(x.receipt) && Complete(x.receipt) &&
    IsCapture(x.work, x.wroot, x.listing, x.maxBytes, x.receipt.files) &&
    KeyOf(x.receipt) in x.published && AllIntact(x.published[KeyOf(x.receipt)], x.receipt.files)
  }

  /** It was composed and written, successfully, onto a copy of the base. */
  ghost predicate HandedOver(x: Transfer) {
    Kept(x) &&
    WellFormed(x.base) && PhysicalDir(x.base, x.broot) &&
    Covers(x.base, x.broot, x.work, x.wroot, x.listing) &&
    IsComposition(x.published, [x.receipt], x.handoff) &&
    ApplyAll(x.base, x.broot, x.handoff.files) == Step(x.result, true) &&
    HoldsAll(x.result, x.broot, x.handoff.files)
  }

  /** The handed-over entries are those of the receipt. */
  lemma HandedEntries(x: Transfer, e: HandoffFile)
    requires ValidStore(x.published) && IsComposition(x.published, [x.receipt], x.handoff)
    ensures e in x.handoff.files <==> exists f :: f in x.receipt.files && ReadEntry(x.published, x.receipt, f) == Some(e)
  {
    var r := x.receipt;
    assert e in x.handoff.files <==> e in Elements(x.handoff.files);
    assert [r][..0] == [] && AllEntries(x.published, [r]) == AllEntries(x.published, []) + Entries(x.published, r, r.files);
    EntriesAre(x.published, r, r.files, e);
  }

  /** A kept file reads back as the change it stands for. */
  lemma KeptReadsBack(x: Transfer, f: ArtifactFile)
    requires Kept(x) && f in x.receipt.files
    ensures var e := ReadEntry(x.published, x.receipt, f);
            e.Some? && (f.kind != Deleted ==> f.mode.Some? && e.value.mode == f.mode.value)
  {
    if f.kind != Deleted {
      assert Live(f) && Intact(x.published[KeyOf(x.receipt)], f);
    }
  }

  /** What a kept entry says about its place in the workspace. */
  lemma KeptEntry(x: Transfer, f: ArtifactFile)
    requires Kept(x) && f in x.receipt.files
    ensures f.path in x.listing && ValidName(f.path)
    ensures var p := x.wroot + Segments(f.path);
            var info := Lstat(x.work, p);
            if f.kind == Deleted then LeafAt(x.work, p) == None
            else info.Info? && info.node.File? && f.digest == Sha256(info.node.content) && f.mode == Some(info.node.perm)
  {
    var i :| 0 <= i < |x.receipt.files| && x.receipt.files[i] == f;
    assert EntryOk(x.work, x.wroot, x.listing, PathsOf(x.receipt.files), x.maxBytes, x.receipt.files, i);
    assert f.reason == Represented;
    var p := x.wroot + Segments(f.path);
    if f.kind == Deleted && p in x.work {
      LstatPresent(x.work, p);
    }
  }

  lemma ListedIsKept(x: Transfer, q: Path) returns (f: ArtifactFile)
    requires Kept(x) && Lists(x.listing, q)
    ensures f in x.receipt.files && Segments(f.path) == q
  {
    var name :| name in x.listing && Segments(name) == q;
    assert name in Elements(PathsOf(x.receipt.files));
    var i :| 0 <= i < |x.receipt.files| && PathsOf(x.receipt.files)[i] == name;
    f := x.receipt.files[i];
  }

  lemma HandedIsListed(x: Transfer, e: HandoffFile)
    requires HandedOver(x) && e in x.handoff.files
    ensures Lists(x.listing, Segments(e.path))
  {
    HandedEntries(x, e);
    var f :| f in x.receipt.files && ReadEntry(x.published, x.receipt, f) == Some(e);
    KeptEntry(x, f);
  }

  /** Where nothing is listed the copy of the base is as it was, new directories aside. */
  lemma UnlistedIsKept(x: Transfer, q: Path)
    requires HandedOver(x) && !Lists(x.listing, q)
    ensures LeafAt(x.result, x.broot + q) == LeafAt(x.base, x.broot + q) == LeafAt(x.work, x.wroot + q)
  {
    ApplyAllFrame(x.base, x.broot, x.handoff.files);
    assert Framed(x.base, x.result, x.broot, x.handoff.files, x.broot + q);
    if Listed(x.broot, x.handoff.files, x.broot + q) {
      var e :| e in x.handoff.files && x.broot + q == Full(x.broot, e);
      BelowRoot(x.broot, q, Segments(e.path));
      HandedIsListed(x, e);
    }
  }

  /** A complete receipt has no place for a link, so links are never listed. */
  lemma LinkIsNotListed(x: Transfer, l: Path)
    requires Kept(x) && x.wroot + l in x.work && x.work[x.wroot + l].Link?
    ensures !Lists(x.listing, l)
  {
    if Lists(x.listing, l) {
      LstatPresent(x.work, x.wroot + l);
      var g := ListedIsKept(x, l);
      KeptEntry(x, g);
    }
  }

  /** A link in the workspace is also in the result. */
  lemma LinkSurvives(x: Transfer, l: Path)
    requires HandedOver(x) && x.wroot + l in x.work && x.work[x.wroot + l].Link?
    ensures x.broot + l in x.result && x.result[x.broot + l].Link?
  {
    LinkIsNotListed(x, l);
    UnlistedIsKept(x, l);
  }

  /** A kept file was physically inside the workspace: no link led to it. */
  lemma KeptIsInside(x: Transfer, f: ArtifactFile, k: nat)
    requires HandedOver(x) && f in x.receipt.files && f.kind != Deleted && 0 < k < |Segments(f.path)|
    requires DirIfPresent(x.result, x.broot + Segments(f.path)[..k])
    ensures DirIfPresent(x.work, x.wroot + Segments(f.path)[..k])
  {
    var l := Segments(f.path)[..k];
    KeptIsBelowNoFile(x, f, k);
    if x.wroot + l in x.work && x.work[x.wroot + l].Link? {
      LinkSurvives(x, l);
    }
  }

  lemma KeptIsBelowNoFile(x: Transfer, f: ArtifactFile, k: nat)
    requires Kept(x) && f in x.receipt.files && f.kind != Deleted && 0 < k < |Segments(f.path)|
    ensures var p := x.wroot + Segments(f.path)[..k]; p in x.work ==> !x.work[p].File?
  {
    var segs := Segments(f.path);
    var p := x.wroot + segs[..k];
    KeptEntry(x, f);
    assert x.wroot + segs == p + segs[k..];
    if p in x.work && x.work[p].File? {
      LstatBelowFile(x.work, p, segs[k..]);
    }
  }

  /** A listed place holds in the successor what it holds in the workspace. */
  lemma ListedIsReproduced(x: Transfer, f: ArtifactFile)
    requires HandedOver(x) && f in x.receipt.files
    ensures RegularAt(x.result, x.broot + Segments(f.path)) == RegularAt(x.work, x.wroot + Segments(f.path))
  {
    var segs := Segments(f.path);
    KeptReadsBack(x, f);
    KeptEntry(x, f);
    var e := ReadEntry(x.published, x.receipt, f).value;
    HandedEntries(x, e);
    assert Holds(x.result, x.broot, e);
    if f.kind != Deleted {
      forall k | 0 < k < |segs|
        ensures DirIfPresent(x.work, x.wroot + segs[..k])
      {
        assert DirIfPresent(x.result, x.broot + segs[..k]);
        KeptIsInside(x, f, k);
      }
      ValidNameIsConfined(f.path);
      ResolveClear(x.work, x.wroot, segs, false);
    }
  }

  /**
    Hand-over reproduces the work: whenever the receipt is complete and the writing succeeds, the
    successor's regular files are exactly the workspace's, bytes and modes, deletions included,
    at every path and not just at the listed ones.
   */
  lemma HandOverReproducesTheWork(x: Transfer, q: Path)
    requires HandedOver(x)
    ensures RegularAt(x.result, x.broot + q) == RegularAt(x.work, x.wroot + q)
  {
    if Lists(x.listing, q) {
      var f := ListedIsKept(x, q);
      ListedIsReproduced(x, f);
    } else {
      UnlistedIsKept(x, q);
    }
  }

  /** Runs the three operations in turn; ends with the successor holding the workspace's files. */
  method HandOver(store: Store, workspace: Disk, workspacePath: Path, input: Input, seen: Observation,
                  successor: Disk, destination: Path, baseRevision: string)
    returns (done: bool)
    requires workspace != successor && workspace.Valid() && successor.Valid() && ValidStore(store.published)
    requires var w, b := PhysicalDirectory(workspace.tree, workspacePath), PhysicalDirectory(successor.tree, destination);
             w.Some? && b.Some? ==>
               Covers(successor.tree, b.value, workspace.tree, w.value, seen.listing) &&
               HonestDeletions(workspace.tree, w.value, seen.listing)
    modifies store`published, successor
    ensures ValidStore(store.published) && successor.Valid()
    ensures done ==>
              var w, b := PhysicalDirectory(workspace.tree, workspacePath), PhysicalDirectory(old(successor.tree), destination);
              w.Some? && b.Some? && forall q :: RegularAt(successor.tree, b.value + q) == RegularAt(workspace.tree, w.value + q)
  {
    ghost var base := successor.tree;
    var r, all := Retain(store, workspace, workspacePath, input, seen);
    if r.None? || !Complete(r.value) {
      return false;
    }
    var h := Compose.Compose(store, [r.value]);
    if h.None? {
      return false;
    }
    var outcome := Materialize.Materialize(successor, h.value, destination, baseRevision);
    done := outcome == Done;
    if done {
      ghost var w, b := PhysicalDirectory(workspace.tree, workspacePath), PhysicalDirectory(base, destination);
      ghost var x := Transfer(workspace.tree, w.value, seen.listing, store.maxBytes, r.value, store.published,
                              base, b.value, h.value, successor.tree);
      assert Kept(x);
      assert Covers(x.base, x.broot, x.work, x.wroot, x.listing);
      AllReproduced(x);
    }
  }

  lemma AllReproduced(x: Transfer)
    requires HandedOver(x)
    ensures forall q :: RegularAt(x.result, x.broot + q) == RegularAt(x.work, x.wroot + q)
  {
    forall q
      ensures RegularAt(x.result, x.broot + q) == RegularAt(x.work, x.wroot + q)
    {
      HandOverReproducesTheWork(x, q);
    }
  }
}
