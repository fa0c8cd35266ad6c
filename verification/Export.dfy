/** Delivering a retained result: staged beside the destination, then renamed into place. */
module Export {
  import opened Options
  import opened Names
  import opened FileTree
  import opened Resolution
  import opened Receipts
  import opened Materialize
  import opened Overlay
  import opened Bundle
  import opened Publication
  import opened ExportVerify

  // ---------- What may be delivered ----------

  datatype Decision = Decision(id: string, outcome: string, contractRevisionId: string, accepts: bool, byUser: bool, valid: bool)

  datatype Request = Request(
    receipt: Receipt,
    decision: Option<Decision>,
    contractRevisionId: string,
    acceptedVersion: Version,
    draft: bool,
    destination: Path)

  /** bindAcceptance: the owner accepted this very result, under this very Contract revision. */
  predicate BindsAcceptance(req: Request) {
    req.decision.Some? &&
    var d := req.decision.value;
    d.valid && d.accepts && d.byUser &&
    d.outcome == req.receipt.outcome &&
    !Blank(req.contractRevisionId) && d.contractRevisionId == req.contractRevisionId &&
    req.acceptedVersion != NoVersion && req.acceptedVersion == req.receipt.version
  }

  predicate Collides(f: ArtifactFile) {
    f.kind != Deleted && EqualFold(f.path, MANIFEST_NAME)
  }

  predicate Allowed(req: Request) {
    ValidReceipt(req.receipt) && Complete(req.receipt) &&
    (if req.draft then req.decision.None? else BindsAcceptance(req)) &&
    forall f :: f in req.receipt.files ==> !Collides(f)
  }

  function ManifestOf(req: Request, now: int): ExportManifest {
    ExportManifest(req.receipt.attempt, req.receipt.outcome, req.receipt.version, if req.draft then Draft else Accepted,
                   req.receipt.contractRevision, req.contractRevisionId,
                   if req.decision.Some? then req.decision.value.id else "", now, req.receipt.files)
  }

  /** The same delivery, as recovery asks about it. */
  function AuthorizedBy(req: Request): Authorized {
    Authorized(req.receipt, req.contractRevisionId, if req.decision.Some? then req.decision.value.id else "", req.draft)
  }

  // ---------- While the destination is absent ----------

  /** Recovery would answer that no transfer completed. */
  ghost predicate StillAbsent(t: Tree, dest: Path) {
    WellFormed(t) && Lstat(t, dest) == NotExist
  }

  /** Making the parent directories never brings the destination itself into being. */
  lemma MakingParentsKeepsAbsent(t: Tree, u: Tree, dest: Path)
    requires StillAbsent(t, dest) && WellFormed(u) && dest != [] && PlainSegments(dest)
    requires ByMakingDirs(t, Parent(dest), u)
    ensures StillAbsent(u, dest)
  {
    if u != t {
      var k, v :| 0 < k <= |Parent(dest)| && WellFormed(v) && MadeDir(v, Parent(dest)[..k]) == Step(u, true);
      assert Parent(dest)[..k] == dest[..k] && dest == dest[..k] + dest[k..];
      assert forall c :: c in dest[..k] ==> c in dest;
      assert forall c :: c in dest[k..] ==> c in dest;
      NothingBelowNewDir(v, u, dest[..k], dest[k..]);
    }
  }

  /** h is t with things added or changed at and below stage, and nowhere else. */
  ghost predicate OnlyStage(t: Tree, h: Tree, stage: Path) {
    WellFormed(h) && forall p :: !(stage <= p) ==> Same(t, h, p)
  }

  /** Whatever happens in the stage, the destination beside it stays absent. */
  lemma StagingKeepsAbsent(t: Tree, h: Tree, dest: Path, q: Path, stage: Path)
    requires StillAbsent(t, dest) && dest != [] && PlainSegments(dest)
    requires Leads(t, Parent(dest), q)
    requires |stage| == |q| + 1 && q <= stage && stage != q + [Base(dest)] && stage !in t
    requires OnlyStage(t, h, stage)
    ensures StillAbsent(h, dest) && Leads(h, Parent(dest), q) && q + [Base(dest)] !in h
  {
    var d, rest := q + [Base(dest)], [Base(dest)];
    assert Parent(dest) + rest == dest;
    forall p | p in t
      ensures p in h && h[p] == t[p]
    {
      assert p != stage;
      if stage <= p {
        MissingAncestor(t, stage, p);
      }
      assert Same(t, h, p);
    }
    FoundStaysFound(t, h, [], Parent(dest), true, MAX_LINKS);
    LookupThrough(t, Parent(dest), q, rest, false);
    assert !(stage <= d);
    assert Same(t, h, d) && Parent(d) == q;
    LookupThrough(h, Parent(dest), q, rest, false);
  }

  // ---------- Filling the stage ----------

  lemma TouchingBelowIsOnlyStage(t: Tree, u: Tree, h: Tree, stage: Path, files: seq<HandoffFile>)
    requires OnlyStage(t, u, stage) && WellFormed(h) && OnlyTouches(u, h, stage, files)
    ensures OnlyStage(t, h, stage)
  {
    forall p | !(stage <= p)
      ensures Same(t, h, p)
    {
      assert Framed(u, h, stage, files, p) && Same(t, u, p);
    }
  }

  /** The staged file is there with its digest; its mode is not part of a delivery. */
  ghost predicate Staged(t: Tree, base: Path, f: ArtifactFile) {
    f.kind != Deleted ==> Holding(t, base, Segments(f.path), f.digest)
  }

  /** A write to one path leaves what is staged at the others, and restages its own. */
  lemma PutKeepsStaged(t: Tree, base: Path, e: HandoffFile, f: ArtifactFile)
    requires WellFormed(t) && PhysicalDir(t, base)
    requires e.kind != Deleted && e.digest == Sha256(e.content) && Applied(t, base, e).ok
    requires ValidName(f.path) && Staged(t, base, f)
    requires f.kind != Deleted && f.path == e.path ==> f.digest == e.digest
    ensures Staged(Applied(t, base, e).tree, base, f)
  {
    if f.kind != Deleted {
      if f.path == e.path {
        AppliedWhenReady(t, base, e);
      } else {
        var node := t[base + Segments(f.path)];
        PutKeepsOthers(t, base, e, HandoffFile(f.path, f.kind, node.content, node.perm, f.digest));
      }
    }
  }

  lemma PutIsStaged(t: Tree, base: Path, e: HandoffFile, f: ArtifactFile)
    requires WellFormed(t) && PhysicalDir(t, base)
    requires e.kind != Deleted && e.digest == Sha256(e.content) && Applied(t, base, e).ok
    requires f.path == e.path && f.digest == e.digest
    ensures Staged(Applied(t, base, e).tree, base, f)
  {
    AppliedWhenReady(t, base, e);
  }

  /** Every file that is there to deliver can be read. */
  ghost predicate Readable(pub: Published, r: Receipt)
    requires ValidStore(pub)
  {
    forall f :: f in r.files && f.kind != Deleted ==> Read(pub, r, f).Some?
  }

  /** What reading the files yields, in order. */
  function Blobs(pub: Published, r: Receipt, files: seq<ArtifactFile>): seq<HandoffFile>
    requires ValidStore(pub)
  {
    if files == [] then []
    else
      var n := |files| - 1;
      var before := Blobs(pub, r, files[..n]);
      if files[n].kind == Deleted || Read(pub, r, files[n]).None? then before else before + [Read(pub, r, files[n]).value]
  }

  lemma {:induction false} BlobsSoFar(pub: Published, r: Receipt, i: nat)
    requires ValidStore(pub) && i <= |r.files|
    ensures Blobs(pub, r, r.files[..i]) <= Blobs(pub, r, r.files)
    decreases |r.files| - i
  {
    if i == |r.files| {
      assert r.files[..i] == r.files;
    } else {
      assert r.files[..i + 1][..i] == r.files[..i];
      BlobsSoFar(pub, r, i + 1);
    }
  }

  /** The stage can take everything there is to deliver. */
  ghost predicate Writable(u: Tree, stage: Path, pub: Published, r: Receipt)
    requires ValidStore(pub)
  {
    ApplyAll(u, stage, Blobs(pub, r, r.files)).ok
  }

  /** The stage after the first i files. */
  ghost predicate Filled(u: Tree, stage: Path, pub: Published, r: Receipt, i: nat, s: Tree)
    requires ValidStore(pub) && i <= |r.files|
  {
    ApplyAll(u, stage, Blobs(pub, r, r.files[..i])) == Step(s, true)
  }

  lemma BlobsSnoc(pub: Published, r: Receipt, i: nat)
    requires ValidStore(pub) && i < |r.files| && r.files[i].kind != Deleted && Read(pub, r, r.files[i]).Some?
    ensures Blobs(pub, r, r.files[..i + 1]) == Blobs(pub, r, r.files[..i]) + [Read(pub, r, r.files[i]).value]
  {
    assert r.files[..i + 1][..i] == r.files[..i];
  }

  /** Where some of the writes cannot be made, not all of them can. */
  lemma StopsEarly(u: Tree, stage: Path, some: seq<HandoffFile>, all: seq<HandoffFile>)
    requires some <= all && !ApplyAll(u, stage, some).ok
    ensures !ApplyAll(u, stage, all).ok
  {
    assert all[..|some|] == some;
    ApplyAllStops(u, stage, all, |some|);
  }

  /** One file more: it is written where it can be, and where it cannot the stage cannot take them all. */
  lemma FilledNext(u: Tree, stage: Path, pub: Published, r: Receipt, i: nat, s: Tree)
    requires ValidStore(pub) && i < |r.files| && Filled(u, stage, pub, r, i, s)
    requires r.files[i].kind != Deleted && Read(pub, r, r.files[i]).Some?
    ensures var next := Applied(s, stage, Read(pub, r, r.files[i]).value);
      if next.ok then Filled(u, stage, pub, r, i + 1, next.tree) else !Writable(u, stage, pub, r)
  {
    BlobsSnoc(pub, r, i);
    ApplyAllSnoc(u, stage, Blobs(pub, r, r.files[..i]), Read(pub, r, r.files[i]).value);
    if !Applied(s, stage, Read(pub, r, r.files[i]).value).ok {
      BlobsSoFar(pub, r, i + 1);
      StopsEarly(u, stage, Blobs(pub, r, r.files[..i + 1]), Blobs(pub, r, r.files));
    }
  }

  lemma BlobsLast(pub: Published, r: Receipt, files: seq<ArtifactFile>)
    requires ValidStore(pub) && files != [] && files[|files| - 1].kind == Deleted
    ensures Blobs(pub, r, files) == Blobs(pub, r, files[..|files| - 1])
  {
  }

  lemma FilledSkip(u: Tree, stage: Path, pub: Published, r: Receipt, i: nat, s: Tree)
    requires ValidStore(pub) && i < |r.files| && Filled(u, stage, pub, r, i, s) && r.files[i].kind == Deleted
    ensures Filled(u, stage, pub, r, i + 1, s)
  {
    var some := r.files[..i + 1];
    assert |some| - 1 == i && some[i] == r.files[i] && some[..i] == r.files[..i];
    BlobsLast(pub, r, some);
  }

  lemma FilledAll(u: Tree, stage: Path, pub: Published, r: Receipt, s: Tree)
    requires ValidStore(pub) && Filled(u, stage, pub, r, |r.files|, s)
    ensures ApplyAll(u, stage, Blobs(pub, r, r.files)) == Step(s, true)
  {
    assert r.files[..|r.files|] == r.files;
  }

  /** What was just written reads back. */
  lemma WrittenReadsBack(u: Tree, stage: Path, e: HandoffFile, s: Tree)
    requires WellFormed(u) && PhysicalDir(u, stage) && Applied(u, stage, e) == Step(s, true)
    requires e.kind != Deleted && e.digest == Sha256(e.content)
    ensures WellFormed(s) && ReadFile(s, Full(stage, e)) == Content(e.content)
  {
    AppliedWhenReady(u, stage, e);
    AppliedKeepsForm(u, stage, e);
    ValidNameIsConfined(e.path);
    ResolveClear(s, stage, Segments(e.path), true);
  }

  /** Reads one retained file, writes it to the stage and reads back what landed. */
  method StageFile(disk: Disk, store: Store, receipt: Receipt, f: ArtifactFile, stage: Path, ghost t: Tree)
    returns (ok: bool)
    requires disk.Valid() && ValidStore(store.published) && Linkless(disk.tree, stage) && OnlyStage(t, disk.tree, stage)
    requires ValidReceipt(receipt) && f in receipt.files && f.kind != Deleted
    modifies disk
    ensures disk.Valid() && old(disk.history) <= disk.history
    ensures Linkless(disk.tree, stage) && OnlyStage(t, disk.tree, stage)
    ensures forall i :: |old(disk.history)| <= i < |disk.history| ==> OnlyStage(t, disk.history[i], stage)
    ensures ok ==> Staged(disk.tree, stage, f)
    ensures ok && Coherent(receipt.files) ==>
              forall g :: g in receipt.files && Staged(old(disk.tree), stage, g) ==> Staged(disk.tree, stage, g)
    ensures var blob := Read(store.published, receipt, f);
      (ok ==> blob.Some? && Applied(old(disk.tree), stage, blob.value) == Step(disk.tree, true)) &&
      (disk.reliable && store.reliable && blob.Some? && Applied(old(disk.tree), stage, blob.value).ok ==> ok)
  {
    ghost var u := disk.tree;
    var fault: bool := *;
    var blob := if !store.reliable && fault then None else Read(store.published, receipt, f);
    if blob.None? {
      return false;
    }
    var e := blob.value;
    ok := PutFile(disk, stage, e);
    forall i | |old(disk.history)| <= i < |disk.history|
      ensures OnlyStage(t, disk.history[i], stage)
    {
      TouchingBelowIsOnlyStage(t, u, disk.history[i], stage, [e]);
    }
    if ok {
      PutIsStaged(u, stage, e, f);
      forall g | g in receipt.files && Coherent(receipt.files) && Staged(u, stage, g)
        ensures Staged(disk.tree, stage, g)
      {
        PutKeepsStaged(u, stage, e, g);
      }
      AppliedTouches(u, stage, e);
      TouchingBelowIsOnlyStage(t, u, disk.tree, stage, [e]);
      WrittenReadsBack(u, stage, e, disk.tree);
      var written := ReadFile(disk.tree, Full(stage, e));
      ok := written.Content? && Sha256(written.bytes) == f.digest;
    } else {
      ghost var last := |disk.history| - 1;
      assert disk.tree == u || (last >= |old(disk.history)| && disk.tree == disk.history[last]);
    }
  }

  /** The first i files are in the stage, if the list does not contradict itself. */
  ghost predicate StagedUpTo(s: Tree, stage: Path, r: Receipt, i: nat)
    requires i <= |r.files|
  {
    Coherent(r.files) ==> forall j :: 0 <= j < i ==> Staged(s, stage, r.files[j])
  }

  /** One iteration: a removed file needs nothing, any other is staged. */
  method StageNext(disk: Disk, store: Store, receipt: Receipt, i: nat, stage: Path, ghost t: Tree,
                   ghost u: Tree) returns (ok: bool)
    requires disk.Valid() && ValidStore(store.published) && Linkless(disk.tree, stage) && OnlyStage(t, disk.tree, stage)
    requires ValidReceipt(receipt) && i < |receipt.files|
    requires Filled(u, stage, store.published, receipt, i, disk.tree) && StagedUpTo(disk.tree, stage, receipt, i)
    modifies disk
    ensures disk.Valid() && old(disk.history) <= disk.history
    ensures Linkless(disk.tree, stage) && OnlyStage(t, disk.tree, stage)
    ensures forall k :: |old(disk.history)| <= k < |disk.history| ==> OnlyStage(t, disk.history[k], stage)
    ensures ok ==> Filled(u, stage, store.published, receipt, i + 1, disk.tree) && StagedUpTo(disk.tree, stage, receipt, i + 1)
    ensures disk.reliable && store.reliable && Readable(store.published, receipt) ==>
              Writable(u, stage, store.published, receipt) ==> ok
  {
    var f := receipt.files[i];
    if f.kind == Deleted {
      FilledSkip(u, stage, store.published, receipt, i, disk.tree);
      return true;
    }
    if Read(store.published, receipt, f).Some? {
      FilledNext(u, stage, store.published, receipt, i, disk.tree);
    }
    ok := StageFile(disk, store, receipt, f, stage, t);
  }

  /** The loop over the retained files. */
  method StageFiles(disk: Disk, store: Store, receipt: Receipt, stage: Path, ghost t: Tree) returns (ok: bool)
    requires disk.Valid() && ValidStore(store.published) && Linkless(disk.tree, stage) && OnlyStage(t, disk.tree, stage)
    requires ValidReceipt(receipt)
    modifies disk
    ensures disk.Valid() && old(disk.history) <= disk.history
    ensures Linkless(disk.tree, stage) && OnlyStage(t, disk.tree, stage)
    ensures forall i :: |old(disk.history)| <= i < |disk.history| ==> OnlyStage(t, disk.history[i], stage)
    ensures ok && Coherent(receipt.files) ==> forall g :: g in receipt.files ==> Staged(disk.tree, stage, g)
    ensures ok ==> ApplyAll(old(disk.tree), stage, Blobs(store.published, receipt, receipt.files)) == Step(disk.tree, true)
    ensures disk.reliable && store.reliable && Readable(store.published, receipt) ==>
              Writable(old(disk.tree), stage, store.published, receipt) ==> ok
  {
    ghost var u := disk.tree;
    var i := 0;
    while i < |receipt.files|
      invariant 0 <= i <= |receipt.files|
      invariant disk.Valid() && old(disk.history) <= disk.history
      invariant Linkless(disk.tree, stage) && OnlyStage(t, disk.tree, stage)
      invariant forall k :: |old(disk.history)| <= k < |disk.history| ==> OnlyStage(t, disk.history[k], stage)
      invariant Filled(u, stage, store.published, receipt, i, disk.tree) && StagedUpTo(disk.tree, stage, receipt, i)
    {
      ok := StageNext(disk, store, receipt, i, stage, t, u);
      if !ok {
        return;
      }
      i := i + 1;
    }
    FilledAll(u, stage, store.published, receipt, disk.tree);
    ok := true;
  }

  // ---------- The manifest ----------

  predicate Ordinary(c: char) {
    !IsSpace(c) && c != SLASH && c != '\\' && c != '\0' && c != ':' && c != '.'
  }

  /** A name of ordinary characters, dots inside it aside, is a valid single segment. */
  lemma OrdinaryNameIsValid(n: string)
    requires |n| >= 2 && Ordinary(n[0]) && Ordinary(n[1]) && Ordinary(n[|n| - 1])
    requires forall i :: 0 <= i < |n| ==> Ordinary(n[i]) || n[i] == '.'
    ensures ValidName(n) && Segments(n) == [n]
  {
    assert TrimLeft(n) == n && TrimRight(n) == n;
    assert Normalized(n) == n;
    NoSlashOneSegment(n);
    assert n != "." && n != "..";
  }

  lemma OrdinaryHead(i: nat)
    requires i < 9
    ensures |MANIFEST_NAME| == 18 && Ordinary(MANIFEST_NAME[i])
  {
    var n := MANIFEST_NAME;
    assert n[0] == 'K' && n[1] == 'E' && n[2] == 'N' && n[3] == 'N' && n[4] == 'E' && n[5] == 'L' && n[6] == '-';
    assert n[7] == 'E' && n[8] == 'X';
  }

  lemma OrdinaryTail(i: nat)
    requires 9 <= i < 18
    ensures |MANIFEST_NAME| == 18 && (Ordinary(MANIFEST_NAME[i]) || (i == 13 && MANIFEST_NAME[i] == '.'))
  {
    var n := MANIFEST_NAME;
    assert n[9] == 'P' && n[10] == 'O' && n[11] == 'R' && n[12] == 'T' && n[13] == '.';
    assert n[14] == 'j' && n[15] == 's' && n[16] == 'o' && n[17] == 'n';
  }

  lemma OrdinaryCharacters(n: string)
    requires n == MANIFEST_NAME
    ensures |n| == 18 && Ordinary(n[0]) && Ordinary(n[1]) && Ordinary(n[17])
    ensures forall i :: 0 <= i < |n| ==> Ordinary(n[i]) || n[i] == '.'
  {
    OrdinaryHead(0);
    OrdinaryHead(1);
    OrdinaryTail(17);
    forall i | 0 <= i < |n|
      ensures Ordinary(n[i]) || n[i] == '.'
    {
      if i < 9 {
        OrdinaryHead(i);
      } else {
        OrdinaryTail(i);
      }
    }
  }

  lemma ManifestNameIsValid()
    ensures ValidName(MANIFEST_NAME) && Segments(MANIFEST_NAME) == [MANIFEST_NAME]
  {
    OrdinaryCharacters(MANIFEST_NAME);
    OrdinaryNameIsValid(MANIFEST_NAME);
  }

  /** Writes the manifest into the stage, beside what is staged there under other names. */
  method WriteManifest(disk: Disk, name: string, encoded: Bytes, receipt: Receipt, stage: Path,
                       ghost t: Tree) returns (ok: bool)
    requires disk.Valid() && Linkless(disk.tree, stage) && OnlyStage(t, disk.tree, stage)
    requires ValidName(name) && Segments(name) == [name]
    requires ValidReceipt(receipt) && forall f :: f in receipt.files && f.kind != Deleted ==> f.path != name
    modifies disk
    ensures disk.Valid() && old(disk.history) <= disk.history && PhysicalDir(disk.tree, stage) && OnlyStage(t, disk.tree, stage)
    ensures forall i :: |old(disk.history)| <= i < |disk.history| ==> OnlyStage(t, disk.history[i], stage)
    ensures ok ==> Holding(disk.tree, stage, [name], Sha256(encoded))
    ensures ok ==> forall g :: g in receipt.files && Staged(old(disk.tree), stage, g) ==> Staged(disk.tree, stage, g)
    ensures disk.reliable && DirFree(old(disk.tree), stage + [name]) ==> ok
  {
    ghost var u := disk.tree;
    var e := HandoffFile(name, Added, encoded, 384, Sha256(encoded)); // 0600
    SingleSegmentReachable(u, stage, e);
    ok := WriteOver(disk, stage, e);
    forall i | |old(disk.history)| <= i < |disk.history|
      ensures OnlyStage(t, disk.history[i], stage)
    {
      ChangeBelowIsOnlyStage(t, u, disk.history[i], stage, Full(stage, e));
    }
    if ok {
      WrittenBeside(u, stage, e, receipt);
      ChangeBelowIsOnlyStage(t, u, disk.tree, stage, Full(stage, e));
    } else {
      ghost var last := |disk.history| - 1;
      assert disk.tree == u || (last >= |old(disk.history)| && disk.tree == disk.history[last]);
    }
  }

  lemma SingleSegmentReachable(u: Tree, stage: Path, e: HandoffFile)
    requires WellFormed(u) && PhysicalDir(u, stage) && ValidName(e.path) && Segments(e.path) == [e.path]
    ensures Reachable(u, stage, e.path) && Parent(Full(stage, e)) == stage && stage <= Full(stage, e)
    ensures WithDirs(u, Parent(Full(stage, e))) == u
  {
    WithDirsPresent(u, stage);
  }

  lemma WrittenBeside(u: Tree, stage: Path, e: HandoffFile, receipt: Receipt)
    requires WellFormed(u) && Linkless(u, stage) && ValidName(e.path) && Segments(e.path) == [e.path]
    requires e.kind != Deleted && e.digest == Sha256(e.content) && DirFree(u, Full(stage, e))
    requires ValidReceipt(receipt) && forall f :: f in receipt.files && f.kind != Deleted ==> f.path != e.path
    ensures var s := u[Full(stage, e) := File(e.content, e.mode)];
            && Holding(s, stage, [e.path], e.digest)
            && forall g :: g in receipt.files && Staged(u, stage, g) ==> Staged(s, stage, g)
  {
    SingleSegmentReachable(u, stage, e);
    var s := u[Full(stage, e) := File(e.content, e.mode)];
    assert Applied(u, stage, e) == Step(s, true);
    AppliedWhenReady(u, stage, e);
    assert Holds(s, stage, e);
    forall g | g in receipt.files && Staged(u, stage, g)
      ensures Staged(s, stage, g)
    {
      PutKeepsStaged(u, stage, e, g);
    }
  }

  lemma ChangeBelowIsOnlyStage(t: Tree, u: Tree, h: Tree, stage: Path, p: Path)
    requires OnlyStage(t, u, stage) && WellFormed(h) && ChangedAt(u, h, p) && stage <= p
    ensures OnlyStage(t, h, stage)
  {
    forall q | !(stage <= q)
      ensures Same(t, h, q)
    {
      assert Same(t, u, q) && Same(u, h, q);
    }
  }

  // ---------- The rename ----------

  /** What is held below the stage is held below the destination once it is renamed. */
  lemma HoldingMoves(s: Tree, stage: Path, d: Path, segs: Path, digest: Digest)
    requires WellFormed(s) && Moved(s, stage, d).ok && segs != [] && Holding(s, stage, segs, digest)
    ensures Holding(Moved(s, stage, d).tree, d, segs, digest)
  {
    var u := Moved(s, stage, d).tree;
    forall k | 0 < k < |segs|
      ensures DirIfPresent(u, d + segs[..k])
    {
      MovedAt(s, stage, d, d + segs[..k]);
      assert (d + segs[..k])[|d|..] == segs[..k];
      assert DirIfPresent(s, stage + segs[..k]);
    }
    MovedAt(s, stage, d, d + segs);
    assert (d + segs)[|d|..] == segs;
  }

  /** The parent leads where it led, and the destination is now the staged directory. */
  lemma RenamedLeads(t: Tree, s: Tree, dest: Path, q: Path, stage: Path)
    requires dest != [] && PlainSegments(dest) && WellFormed(t) && Leads(t, Parent(dest), q)
    requires |stage| == |q| + 1 && q <= stage && stage !in t && OnlyStage(t, s, stage)
    requires Moved(s, stage, q + [Base(dest)]).ok && PhysicalDir(s, stage)
    ensures var u := Moved(s, stage, q + [Base(dest)]).tree;
            WellFormed(u) && Lstat(u, dest) == Info(Dir) && Leads(u, dest, q + [Base(dest)])
  {
    var d, rest := q + [Base(dest)], [Base(dest)];
    var u := Moved(s, stage, d).tree;
    MovedKeepsForm(s, stage, d);
    assert Parent(dest) + rest == dest;
    forall p | p in t
      ensures p in u && u[p] == t[p]
    {
      assert p != stage;
      if stage <= p {
        MissingAncestor(t, stage, p);
      }
      assert Same(t, s, p);
      MovedAt(s, stage, d, p);
      assert p != d;
      if d <= p {
        MissingAncestor(s, d, p);
      }
    }
    FoundStaysFound(t, u, [], Parent(dest), true, MAX_LINKS);
    MovedAt(s, stage, d, d);
    assert d[|d|..] == [] && stage + [] == stage;
    LookupThrough(u, Parent(dest), q, rest, false);
    LookupThrough(u, Parent(dest), q, rest, true);
  }

  /** The verdict a finished export earns. */
  ghost function Earned(files: seq<ArtifactFile>): Verification {
    if Coherent(files) then Verified else Mismatch
  }

  ghost predicate IsDirAt(u: Tree, dest: Path) {
    WellFormed(u) && Lstat(u, dest) == Info(Dir)
  }

  lemma DeliveredVerdict(codec: Codec, u: Tree, req: Request, d: Path, now: int)
    requires Lossless(codec) && Allowed(req)
    requires IsDirAt(u, req.destination) && Leads(u, req.destination, d)
    requires Holding(u, d, [MANIFEST_NAME], Sha256(codec.encode(ManifestOf(req, now))))
    requires Coherent(req.receipt.files) ==> forall f :: f in req.receipt.files ==> Staged(u, d, f)
    ensures Verdict(codec, u, req.destination, AuthorizedBy(req)) == Earned(req.receipt.files)
    ensures ManifestIs(codec, u, NO_FAULTS, req.destination, ManifestOf(req, now))
  {
    var m, dest := ManifestOf(req, now), req.destination;
    ManifestIsThere(codec, u, dest, d, m);
    OwnFileSet(req.receipt.files);
    SameIsNamed(m, AuthorizedBy(req));
    if Coherent(req.receipt.files) {
      assert Delivers(codec, u, dest, d, m, AuthorizedBy(req)) by {
        forall f | f in req.receipt.files && f.kind != Deleted
          ensures Holding(u, d, Segments(f.path), f.digest)
        {
          assert Staged(u, d, f);
        }
      }
      VerifiedIsExact(codec, u, dest, AuthorizedBy(req));
    }
  }

  lemma ManifestIsThere(codec: Codec, u: Tree, dest: Path, d: Path, m: ExportManifest)
    requires Lossless(codec) && IsDirAt(u, dest) && Leads(u, dest, d)
    requires Holding(u, d, [MANIFEST_NAME], Sha256(codec.encode(m)))
    ensures ManifestIs(codec, u, NO_FAULTS, dest, m)
  {
    ManifestNameIsValid();
    ValidNameIsConfined(MANIFEST_NAME);
    LookupThrough(u, dest, d, [MANIFEST_NAME], true);
    assert codec.decode(codec.encode(m)) == Some(m);
  }

  // ---------- Export ----------

  /** The destination holds the manifest and, if the list does not contradict itself, every live file. */
  ghost predicate Completed(codec: Codec, u: Tree, req: Request, now: int) {
    exists q :: Leads(u, req.destination, q) &&
      ManifestIs(codec, u, NO_FAULTS, req.destination, ManifestOf(req, now)) &&
      (Coherent(req.receipt.files) ==>
         forall f :: f in req.receipt.files && f.kind != Deleted ==> Holding(u, q, Segments(f.path), f.digest))
  }

  /** What recovery may find at any moment of an export: nothing, or the whole delivery. */
  ghost predicate Recoverable(codec: Codec, t: Tree, req: Request) {
    WellFormed(t) &&
    (Verdict(codec, t, req.destination, AuthorizedBy(req)) == Absent ||
     Verdict(codec, t, req.destination, AuthorizedBy(req)) == Earned(req.receipt.files))
  }

  lemma AbsentIsRecoverable(codec: Codec, t: Tree, req: Request)
    requires Allowed(req) && StillAbsent(t, req.destination)
    ensures Recoverable(codec, t, req) && Verdict(codec, t, req.destination, AuthorizedBy(req)) == Absent
  {
  }

  /** The private directory the stage starts as. */
  lemma NewStage(t: Tree, stage: Path, u: Tree)
    requires WellFormed(t) && stage != [] && PhysicalDir(t, Parent(stage)) && PlainSegment(Base(stage))
    requires MadeDir(t, stage) == Step(u, true)
    ensures stage !in t && u == t[stage := Dir] && Linkless(u, stage) && OnlyStage(t, u, stage)
  {
    assert Parent(stage) + [Base(stage)] == stage;
    LookupInDir(t, Parent(stage), Base(stage), false);
    MutationsKeepForm(t, stage, [], 0);
    forall p | p in u && stage <= p
      ensures !u[p].Link?
    {
      if p != stage {
        MissingAncestor(t, stage, p);
      }
    }
  }

  lemma StageCanBeMade(t: Tree, q: Path, stage: Path)
    requires WellFormed(t) && PhysicalDir(t, q) && |stage| == |q| + 1 && Parent(stage) == q && PlainSegment(Base(stage))
    ensures stage !in t ==> MadeDir(t, stage).ok
  {
    assert q + [Base(stage)] == stage;
    LookupInDir(t, q, Base(stage), false);
  }

  lemma NewStageIsBare(t: Tree, stage: Path, u: Tree)
    requires WellFormed(t) && WellFormed(u) && stage !in t && u == t[stage := Dir]
    ensures Bare(u, stage)
  {
    forall p | stage < p
      ensures p !in u
    {
      MissingAncestor(t, stage, p);
    }
  }

  lemma PruningIsOnlyStage(t: Tree, u: Tree, h: Tree, stage: Path)
    requires OnlyStage(t, u, stage) && Pruning(u, stage, h)
    ensures OnlyStage(t, h, stage)
  {
    forall p | !(stage <= p)
      ensures Same(t, h, p)
    {
      assert Same(t, u, p);
    }
  }

  /** A successful rename turns the stage into the delivery. */
  lemma CommitDelivers(codec: Codec, t: Tree, s: Tree, u: Tree, req: Request, q: Path, stage: Path, now: int)
    requires Lossless(codec) && Allowed(req) && req.destination != [] && PlainSegments(req.destination)
    requires WellFormed(t) && Leads(t, Parent(req.destination), q)
    requires |stage| == |q| + 1 && q <= stage && stage !in t && OnlyStage(t, s, stage) && PhysicalDir(s, stage)
    requires Moved(s, stage, q + [Base(req.destination)]) == Step(u, true)
    requires Holding(s, stage, [MANIFEST_NAME], Sha256(codec.encode(ManifestOf(req, now))))
    requires Coherent(req.receipt.files) ==> forall f :: f in req.receipt.files ==> Staged(s, stage, f)
    ensures WellFormed(u) && Verdict(codec, u, req.destination, AuthorizedBy(req)) == Earned(req.receipt.files)
    ensures Completed(codec, u, req, now)
  {
    var d := q + [Base(req.destination)];
    RenamedLeads(t, s, req.destination, q, stage);
    HoldingMoves(s, stage, d, [MANIFEST_NAME], Sha256(codec.encode(ManifestOf(req, now))));
    forall f | f in req.receipt.files && Coherent(req.receipt.files)
      ensures Staged(u, d, f)
    {
      assert Staged(s, stage, f);
      if f.kind != Deleted {
        HoldingMoves(s, stage, d, Segments(f.path), f.digest);
      }
    }
    DeliveredVerdict(codec, u, req, d, now);
    forall f | f in req.receipt.files && f.kind != Deleted && Coherent(req.receipt.files)
      ensures Holding(u, d, Segments(f.path), f.digest)
    {
      assert Staged(u, d, f);
    }
  }

  /** No file to deliver is a directory on the way to another one. */
  ghost predicate PathsApart(files: seq<ArtifactFile>) {
    forall i, j :: 0 <= i < j < |files| && files[i].kind != Deleted && files[j].kind != Deleted ==>
      !(Segments(files[i].path) <= Segments(files[j].path)) && !(Segments(files[j].path) <= Segments(files[i].path))
  }

  /** Nothing to deliver lies below a directory that has the manifest's name. */
  ghost predicate NoneBelowManifest(files: seq<ArtifactFile>) {
    forall f :: f in files && f.kind != Deleted ==> !([MANIFEST_NAME] < Segments(f.path))
  }

  /** The retained files can be read, and laid out beside the manifest. */
  ghost predicate Deliverable(pub: Published, r: Receipt)
    requires ValidStore(pub)
  {
    Readable(pub, r) && PathsApart(r.files) && NoneBelowManifest(r.files)
  }

  lemma {:induction false} BlobsAre(pub: Published, r: Receipt, files: seq<ArtifactFile>, e: HandoffFile)
    requires ValidStore(pub) && e in Blobs(pub, r, files)
    ensures exists f :: f in files && f.kind != Deleted && Read(pub, r, f) == Some(e)
  {
    var n := |files| - 1;
    if e in Blobs(pub, r, files[..n]) {
      BlobsAre(pub, r, files[..n], e);
      var f :| f in files[..n] && f.kind != Deleted && Read(pub, r, f) == Some(e);
      assert f in files;
    } else {
      assert files[n] in files;
    }
  }

  lemma {:induction false} BlobsApart(pub: Published, r: Receipt, files: seq<ArtifactFile>)
    requires ValidStore(pub) && PathsApart(files)
    ensures PrefixFree(Blobs(pub, r, files))
  {
    if files != [] {
      var n := |files| - 1;
      var before := Blobs(pub, r, files[..n]);
      BlobsApart(pub, r, files[..n]);
      if files[n].kind != Deleted && Read(pub, r, files[n]).Some? {
        forall i | 0 <= i < |before|
          ensures Apart(before[i], Read(pub, r, files[n]).value)
        {
          BlobsAre(pub, r, files[..n], before[i]);
          var f :| f in files[..n] && f.kind != Deleted && Read(pub, r, f) == Some(before[i]);
          var k :| 0 <= k < n && files[k] == f;
        }
      }
    }
  }

  lemma BlobsAreFaithful(pub: Published, r: Receipt)
    requires ValidStore(pub) && ValidReceipt(r)
    ensures Faithful(Blobs(pub, r, r.files))
    ensures forall e :: e in Blobs(pub, r, r.files) ==> ValidName(e.path) && e.kind != Deleted
  {
    forall e | e in Blobs(pub, r, r.files)
      ensures e.digest == Sha256(e.content) && ValidName(e.path) && e.kind != Deleted
    {
      BlobsAre(pub, r, r.files, e);
    }
  }

  /** Nothing is in the stage yet. */
  ghost predicate Bare(u: Tree, stage: Path) {
    WellFormed(u) && PhysicalDir(u, stage) && forall p :: stage < p ==> p !in u
  }

  lemma BareIsReady(u: Tree, stage: Path, e: HandoffFile)
    requires Bare(u, stage) && ValidName(e.path)
    ensures Ready(u, stage, e)
  {
    ValidNameIsConfined(e.path);
    forall k | 0 < k < |Segments(e.path)|
      ensures DirIfPresent(u, stage + Segments(e.path)[..k])
    {
      assert stage < stage + Segments(e.path)[..k];
    }
  }

  lemma BareTakesEntries(u: Tree, stage: Path, es: seq<HandoffFile>)
    requires Bare(u, stage) && PrefixFree(es) && Faithful(es) && forall e :: e in es ==> ValidName(e.path)
    ensures Succeeds(u, stage, es) && OnlyTouches(u, ApplyAll(u, stage, es).tree, stage, es)
  {
    forall e | e in es
      ensures Ready(u, stage, e)
    {
      BareIsReady(u, stage, e);
    }
    SucceedsExactlyWhenReady(u, stage, es);
    ApplyAllFrame(u, stage, es);
  }

  /** Everything can be read and written, and the manifest's place stays free. */
  ghost predicate CanFill(u: Tree, stage: Path, pub: Published, r: Receipt)
    requires ValidStore(pub)
  {
    Readable(pub, r) && Writable(u, stage, pub, r) &&
    DirFree(ApplyAll(u, stage, Blobs(pub, r, r.files)).tree, stage + [MANIFEST_NAME])
  }

  lemma BareTakesAll(u: Tree, stage: Path, pub: Published, r: Receipt)
    requires ValidStore(pub) && ValidReceipt(r) && Deliverable(pub, r) && Bare(u, stage)
    ensures CanFill(u, stage, pub, r)
  {
    BlobsAreFaithful(pub, r);
    BlobsApart(pub, r, r.files);
    BareTakesEntries(u, stage, Blobs(pub, r, r.files));
    ManifestPlaceIsFree(u, ApplyAll(u, stage, Blobs(pub, r, r.files)).tree, stage, pub, r);
  }

  lemma ManifestPlaceIsFree(u: Tree, s: Tree, stage: Path, pub: Published, r: Receipt)
    requires ValidStore(pub) && Deliverable(pub, r) && Bare(u, stage)
    requires OnlyTouches(u, s, stage, Blobs(pub, r, r.files)) && HoldsAll(s, stage, Blobs(pub, r, r.files))
    requires forall e :: e in Blobs(pub, r, r.files) ==> e.kind != Deleted
    ensures DirFree(s, stage + [MANIFEST_NAME])
  {
    var es, p := Blobs(pub, r, r.files), stage + [MANIFEST_NAME];
    assert Framed(u, s, stage, es, p) && stage < p;
    if Towards(stage, es, p) {
      var e :| e in es && p < Full(stage, e);
      BlobsAre(pub, r, r.files, e);
      BelowRoot(stage, [MANIFEST_NAME], Segments(e.path));
    } else if Listed(stage, es, p) {
      var e :| e in es && p == Full(stage, e);
      assert Holds(s, stage, e);
    }
  }

  /** Fills the stage; on success it holds every retained file and the manifest. */
  method FillStage(disk: Disk, store: Store, codec: Codec, req: Request, stage: Path, now: int, ghost t: Tree,
                   ghost able: bool)
    returns (ok: bool)
    requires disk.Valid() && ValidStore(store.published) && Allowed(req)
    requires Linkless(disk.tree, stage) && OnlyStage(t, disk.tree, stage)
    requires able ==> CanFill(disk.tree, stage, store.published, req.receipt)
    modifies disk
    ensures disk.Valid() && old(disk.history) <= disk.history && OnlyStage(t, disk.tree, stage)
    ensures forall i :: |old(disk.history)| <= i < |disk.history| ==> OnlyStage(t, disk.history[i], stage)
    ensures PhysicalDir(disk.tree, stage)
    ensures ok ==> Holding(disk.tree, stage, [MANIFEST_NAME], Sha256(codec.encode(ManifestOf(req, now))))
    ensures ok && Coherent(req.receipt.files) ==> forall f :: f in req.receipt.files ==> Staged(disk.tree, stage, f)
    ensures disk.reliable && store.reliable && able ==> ok
  {
    ok := StageFiles(disk, store, req.receipt, stage, t);
    if ok {
      ManifestNameIsValid();
      NoneUnderManifestName(req);
      ok := WriteManifest(disk, MANIFEST_NAME, codec.encode(ManifestOf(req, now)), req.receipt, stage, t);
    }
  }

  lemma NoneUnderManifestName(req: Request)
    requires Allowed(req)
    ensures forall f :: f in req.receipt.files && f.kind != Deleted ==> f.path != MANIFEST_NAME
  {
    forall f | f in req.receipt.files && f.kind != Deleted
      ensures f.path != MANIFEST_NAME
    {
      assert !Collides(f);
    }
  }

  /** The deferred removal of an uncommitted stage. */
  method Discard(disk: Disk, ghost codec: Codec, ghost req: Request, ghost q: Path, stage: Path, ghost t: Tree)
    requires disk.Valid() && Allowed(req) && req.destination != [] && PlainSegments(req.destination)
    requires StillAbsent(t, req.destination) && Leads(t, Parent(req.destination), q)
    requires |stage| == |q| + 1 && q <= stage && stage != q + [Base(req.destination)] && stage !in t
    requires OnlyStage(t, disk.tree, stage)
    modifies disk
    ensures disk.Valid() && old(disk.history) <= disk.history && StillAbsent(disk.tree, req.destination)
    ensures forall i :: |old(disk.history)| <= i < |disk.history| ==> Recoverable(codec, disk.history[i], req)
  {
    ghost var s := disk.tree;
    disk.RemoveTree(stage);
    forall i | |old(disk.history)| <= i < |disk.history|
      ensures Recoverable(codec, disk.history[i], req) && StillAbsent(disk.history[i], req.destination)
    {
      PruningIsOnlyStage(t, s, disk.history[i], stage);
      StagingKeepsAbsent(t, disk.history[i], req.destination, q, stage);
      AbsentIsRecoverable(codec, disk.history[i], req);
    }
    assert disk.tree == disk.history[|disk.history| - 1];
  }

  lemma StageCanMove(s: Tree, q: Path, stage: Path, name: string)
    requires WellFormed(s) && PhysicalDir(s, q) && PhysicalDir(s, stage) && q + [name] !in s
    requires |stage| == |q| + 1 && stage != q + [name] && PlainSegment(name)
    ensures Moved(s, stage, q + [name]).ok
  {
    assert Parent(q + [name]) == q && Base(q + [name]) == name;
    assert stage <= q + [name] ==> stage == q + [name];
  }

  /** The rename of a filled stage, or the removal of one that is not to be delivered. */
  method CommitOrDiscard(disk: Disk, codec: Codec, req: Request, q: Path, stage: Path, now: int, filled: bool,
                         ghost t: Tree)
    returns (ok: bool)
    requires disk.Valid() && Lossless(codec) && Allowed(req) && req.destination != [] && PlainSegments(req.destination)
    requires StillAbsent(t, req.destination) && Leads(t, Parent(req.destination), q)
    requires |stage| == |q| + 1 && q <= stage && stage != q + [Base(req.destination)] && stage !in t
    requires OnlyStage(t, disk.tree, stage) && PhysicalDir(disk.tree, stage)
    requires filled ==> Holding(disk.tree, stage, [MANIFEST_NAME], Sha256(codec.encode(ManifestOf(req, now))))
    requires filled && Coherent(req.receipt.files) ==> forall f :: f in req.receipt.files ==> Staged(disk.tree, stage, f)
    modifies disk
    ensures disk.Valid() && old(disk.history) <= disk.history
    ensures forall i :: |old(disk.history)| <= i < |disk.history| ==> Recoverable(codec, disk.history[i], req)
    ensures ok ==> Verdict(codec, disk.tree, req.destination, AuthorizedBy(req)) == Earned(req.receipt.files)
    ensures ok ==> Completed(codec, disk.tree, req, now)
    ensures !ok ==> StillAbsent(disk.tree, req.destination)
    ensures disk.reliable && filled ==> ok
  {
    ghost var s := disk.tree;
    StagingKeepsAbsent(t, s, req.destination, q, stage);
    StageCanMove(s, q, stage, Base(req.destination));
    if filled {
      ok := disk.Rename(stage, q + [Base(req.destination)]);
      if ok {
        CommitDelivers(codec, t, s, disk.tree, req, q, stage, now);
        return;
      }
      AbsentIsRecoverable(codec, disk.tree, req);
    }
    Discard(disk, codec, req, q, stage, t);
    ok := false;
  }

  /** The private directory and what is put into it; the destination beside it stays absent throughout. */
  method MakeStage(disk: Disk, store: Store, codec: Codec, req: Request, q: Path, stage: Path, now: int,
                   ghost t: Tree, ghost able: bool)
    returns (made: bool, filled: bool)
    requires disk.Valid() && t == disk.tree && ValidStore(store.published) && Allowed(req)
    requires able ==> stage !in t && Deliverable(store.published, req.receipt)
    requires req.destination != [] && PlainSegments(req.destination)
    requires |stage| == |q| + 1 && Parent(stage) == q && q <= stage && stage != q + [Base(req.destination)] && PlainSegment(Base(stage))
    requires StillAbsent(disk.tree, req.destination) && Leads(disk.tree, Parent(req.destination), q)
    modifies disk
    ensures disk.Valid() && old(disk.history) <= disk.history
    ensures forall i :: |old(disk.history)| <= i < |disk.history| ==> Recoverable(codec, disk.history[i], req)
    ensures !made ==> StillAbsent(disk.tree, req.destination)
    ensures made ==> stage !in t && OnlyStage(t, disk.tree, stage) && PhysicalDir(disk.tree, stage)
    ensures made && filled ==> Holding(disk.tree, stage, [MANIFEST_NAME], Sha256(codec.encode(ManifestOf(req, now))))
    ensures made && filled && Coherent(req.receipt.files) ==> forall f :: f in req.receipt.files ==> Staged(disk.tree, stage, f)
    ensures disk.reliable && store.reliable && able ==> made && filled
  {
    StageCanBeMade(t, q, stage);
    made := disk.MakeDir(stage);
    filled := false;
    AbsentIsRecoverable(codec, t, req);
    if !made {
      return;
    }
    NewStage(t, stage, disk.tree);
    if able {
      NewStageIsBare(t, stage, disk.tree);
      BareTakesAll(disk.tree, stage, store.published, req.receipt);
    }
    filled := FillStage(disk, store, codec, req, stage, now, t, able);
    forall i | |old(disk.history)| <= i < |disk.history|
      ensures Recoverable(codec, disk.history[i], req)
    {
      assert OnlyStage(t, disk.history[i], stage);
      StagingKeepsAbsent(t, disk.history[i], req.destination, q, stage);
      AbsentIsRecoverable(codec, disk.history[i], req);
    }
  }

  /** From the private directory to the rename, or back to nothing. */
  method StageAndCommit(disk: Disk, store: Store, codec: Codec, req: Request, q: Path, stageName: string,
                        now: int) returns (ok: bool)
    requires disk.Valid() && ValidStore(store.published) && Lossless(codec) && Allowed(req)
    requires req.destination != [] && PlainSegments(req.destination) && PlainSegment(stageName) && stageName != Base(req.destination)
    requires StillAbsent(disk.tree, req.destination) && Leads(disk.tree, Parent(req.destination), q)
    modifies disk
    ensures disk.Valid() && old(disk.history) <= disk.history
    ensures forall i :: |old(disk.history)| <= i < |disk.history| ==> Recoverable(codec, disk.history[i], req)
    ensures ok ==> Verdict(codec, disk.tree, req.destination, AuthorizedBy(req)) == Earned(req.receipt.files)
    ensures ok ==> Completed(codec, disk.tree, req, now)
    ensures !ok ==> StillAbsent(disk.tree, req.destination)
    ensures disk.reliable && store.reliable && q + [stageName] !in old(disk.tree) && Deliverable(store.published, req.receipt) ==> ok
  {
    ghost var t := disk.tree;
    var stage := q + [stageName];
    ghost var able := stage !in t && Deliverable(store.published, req.receipt);
    assert Parent(stage) == q && stage != q + [Base(req.destination)] by {
      assert stage[|q|] != (q + [Base(req.destination)])[|q|];
    }
    var made, filled := MakeStage(disk, store, codec, req, q, stage, now, t, able);
    if !made {
      return false;
    }
    ok := CommitOrDiscard(disk, codec, req, q, stage, now, filled, t);
  }

  /** The destination is spelled without links, and the name drawn for the stage is free beside it. */
  ghost predicate RoomFor(t: Tree, dest: Path, stageName: string) {
    dest != [] && Plain(t, Parent(dest)) && Parent(dest) + [stageName] !in t
  }

  lemma RoomStays(t: Tree, dest: Path, stageName: string)
    requires WellFormed(t) && RoomFor(t, dest, stageName)
    ensures var u := WithDirs(t, Parent(dest));
      WellFormed(u) && PhysicalDirectory(u, Parent(dest)) == Some(Parent(dest)) && Parent(dest) + [stageName] !in u
  {
    var p := Parent(dest);
    WithDirsKeepsForm(t, p);
    var u := WithDirs(t, p);
    assert Plain(u, p) by {
      forall k | 0 <= k <= |p|
        ensures DirIfPresent(u, p[..k])
      {
        assert DirIfPresent(t, p[..k]);
      }
    }
    assert p[..|p|] == p && DirIfPresent(u, p[..|p|]);
    ResolveDir(u, p, true);
  }

  /** The directories above the destination; the destination itself stays absent. */
  method MakeParents(disk: Disk, ghost codec: Codec, req: Request) returns (ok: bool)
    requires disk.Valid() && Allowed(req) && StillAbsent(disk.tree, req.destination)
    requires req.destination != [] && PlainSegments(req.destination)
    modifies disk
    ensures disk.Valid() && old(disk.history) < disk.history && StillAbsent(disk.tree, req.destination)
    ensures forall i :: |old(disk.history)| <= i < |disk.history| ==> Recoverable(codec, disk.history[i], req)
    ensures Plain(old(disk.tree), Parent(req.destination)) && ok ==> disk.tree == WithDirs(old(disk.tree), Parent(req.destination))
    ensures Plain(old(disk.tree), Parent(req.destination)) && disk.reliable ==> ok
  {
    ghost var t := disk.tree;
    ok := disk.MakeDirs(Parent(req.destination), []);
    forall i | |old(disk.history)| <= i < |disk.history|
      ensures Recoverable(codec, disk.history[i], req) && StillAbsent(disk.history[i], req.destination)
    {
      MidwayFormed(t, Parent(req.destination), disk.history[i]);
      MakingParentsKeepsAbsent(t, disk.history[i], req.destination);
      AbsentIsRecoverable(codec, disk.history[i], req);
    }
    assert disk.tree == disk.history[|disk.history| - 1];
  }

  lemma RootIsThere(t: Tree)
    requires WellFormed(t)
    ensures Lstat(t, []) != NotExist
  {
    StatPlain(t, []);
    ResolveDir(t, [], false);
  }

  /** Everything after the checks on the request. */
  method Deliver(disk: Disk, store: Store, codec: Codec, req: Request, stageName: string, now: int) returns (ok: bool)
    requires disk.Valid() && ValidStore(store.published) && Lossless(codec) && Allowed(req)
    requires PlainSegments(req.destination) && PlainSegment(stageName) && (req.destination != [] ==> stageName != Base(req.destination))
    modifies disk
    ensures disk.Valid() && old(disk.history) <= disk.history
    ensures !StillAbsent(old(disk.tree), req.destination) ==> !ok && disk.history == old(disk.history)
    ensures forall i :: |old(disk.history)| <= i < |disk.history| ==> Recoverable(codec, disk.history[i], req)
    ensures ok ==> Verdict(codec, disk.tree, req.destination, AuthorizedBy(req)) == Earned(req.receipt.files)
    ensures ok ==> Completed(codec, disk.tree, req, now)
    ensures !ok && disk.history != old(disk.history) ==> StillAbsent(disk.tree, req.destination)
    ensures disk.reliable && store.reliable && StillAbsent(old(disk.tree), req.destination) ==>
              Deliverable(store.published, req.receipt) && RoomFor(old(disk.tree), req.destination, stageName) ==> ok
  {
    ghost var t := disk.tree;
    var dest := req.destination;
    if Lstat(disk.tree, dest) != NotExist {
      return false;
    }
    RootIsThere(disk.tree);
    ok := MakeParents(disk, codec, req);
    if !ok {
      return;
    }
    if RoomFor(t, dest, stageName) {
      RoomStays(t, dest, stageName);
    }
    match PhysicalDirectory(disk.tree, Parent(dest)) {
      case None => ok := false;
      case Some(q) =>
        ok := StageAndCommit(disk, store, codec, req, q, stageName, now);
        if !ok {
          AbsentIsRecoverable(codec, disk.tree, req);
        }
    }
  }

  /** The owner accepted this outcome's result under this contract revision. */
  ghost predicate OwnerAccepted(req: Request) {
    req.decision.Some? && req.decision.value.valid && req.decision.value.accepts && req.decision.value.byUser &&
    req.decision.value.outcome == req.receipt.outcome && !Blank(req.contractRevisionId) &&
    req.decision.value.contractRevisionId == req.contractRevisionId
  }

  /** The version that was accepted has exactly the files that are delivered. */
  ghost predicate ReviewedAsIs(req: Request) {
    forall reviewed, f :: VersionOf(reviewed) == req.acceptedVersion ==> (f in reviewed <==> f in req.receipt.files)
  }

  /** No live file has the manifest's name, in any case. */
  ghost predicate LeavesNameFree(req: Request) {
    forall f :: f in req.receipt.files && f.kind != Deleted ==> !EqualFold(f.path, MANIFEST_NAME)
  }

  /** The manifest describes this delivery, field by field. */
  ghost predicate Labels(m: ExportManifest, req: Request, now: int) {
    m.attempt == req.receipt.attempt && m.outcome == req.receipt.outcome && m.version == req.receipt.version &&
    (m.disposition == Draft <==> req.draft) && m.exportedAt == now && m.files == req.receipt.files &&
    m.contractRevisionNumber == req.receipt.contractRevision && m.contractRevisionId == req.contractRevisionId &&
    match req.decision
    case Some(d) => m.acceptanceDecisionId == d.id
    case None => m.acceptanceDecisionId == ""
  }

  /** A manifest that describes the delivery is there, and every live file is physically held. */
  ghost predicate HoldsDelivery(codec: Codec, u: Tree, req: Request, now: int)
    requires WellFormed(u)
  {
    exists q, m ::
      Leads(u, req.destination, q) && ManifestIs(codec, u, NO_FAULTS, req.destination, m) && Labels(m, req, now) &&
      forall f :: f in req.receipt.files && f.kind != Deleted ==> Holding(u, q, Segments(f.path), f.digest)
  }

  /** What being allowed means for the request. */
  lemma AllowedMeans(req: Request)
    ensures Allowed(req) ==> ValidReceipt(req.receipt) && req.receipt.state == Retained && LeavesNameFree(req)
    ensures Allowed(req) ==> if req.draft then req.decision.None? else OwnerAccepted(req) && ReviewedAsIs(req)
    ensures var accepted := OwnerAccepted(req) && req.acceptedVersion == req.receipt.version;
      Allowed(req) <==>
        ValidReceipt(req.receipt) && req.receipt.state == Retained && LeavesNameFree(req) &&
        if req.draft then req.decision.None? else accepted
  {
    if Allowed(req) {
      forall f | f in req.receipt.files && f.kind != Deleted
        ensures !EqualFold(f.path, MANIFEST_NAME)
      {
        assert !Collides(f);
      }
      forall reviewed, f | !req.draft && VersionOf(reviewed) == req.acceptedVersion
        ensures f in reviewed <==> f in req.receipt.files
      {
        VersionFixesFiles(reviewed, req.receipt.files, f);
      }
    }
    if LeavesNameFree(req) {
      assert forall f :: f in req.receipt.files ==> !Collides(f);
    }
  }

  lemma CompletedHolds(codec: Codec, u: Tree, req: Request, now: int)
    requires WellFormed(u) && Completed(codec, u, req, now) && Coherent(req.receipt.files)
    requires req.draft ==> req.decision.None?
    ensures HoldsDelivery(codec, u, req, now)
  {
    assert Labels(ManifestOf(req, now), req, now);
  }

  /**
    Export. An accepted delivery was accepted by the owner, for this outcome and contract revision, and
    holds exactly the files of the version that was reviewed; a draft carries no decision. Stop it after
    any of its steps and recovery finds nothing or the whole delivery; when it has finished, recovery
    confirms it. A receipt lists a path once, so what is found is absent or verified. With a reliable disk
    and store an allowed request goes through if the files can be read and laid out, and the destination is
    spelled without links.
   */
  method Export(disk: Disk, store: Store, codec: Codec, req: Request, stageName: string, now: int) returns (ok: bool)
    requires disk.Valid() && ValidStore(store.published) && Lossless(codec)
    requires PlainSegments(req.destination) && PlainSegment(stageName) && (req.destination != [] ==> stageName != Base(req.destination))
    modifies disk
    ensures disk.Valid() && old(disk.history) <= disk.history
    ensures ok ==> ValidReceipt(req.receipt) && req.receipt.state == Retained && LeavesNameFree(req)
    ensures ok && !req.draft ==> OwnerAccepted(req) && ReviewedAsIs(req)
    ensures ok && req.draft ==> req.decision.None?
    ensures ok ==> Lstat(old(disk.tree), req.destination) == NotExist
    ensures ok && Coherent(req.receipt.files) ==> HoldsDelivery(codec, disk.tree, req, now)
    ensures !Allowed(req) || Lstat(old(disk.tree), req.destination) != NotExist ==> !ok && disk.history == old(disk.history)
    ensures forall i :: |old(disk.history)| <= i < |disk.history| ==> Recoverable(codec, disk.history[i], req)
    ensures ok ==> Verdict(codec, disk.tree, req.destination, AuthorizedBy(req)) == Earned(req.receipt.files)
    ensures !ok && disk.history != old(disk.history) ==> Lstat(disk.tree, req.destination) == NotExist
    ensures DistinctPaths(req.receipt.files) ==> Coherent(req.receipt.files) && Earned(req.receipt.files) == Verified
    ensures var accepted := OwnerAccepted(req) && req.acceptedVersion == req.receipt.version;
      var allowed := ValidReceipt(req.receipt) && req.receipt.state == Retained && LeavesNameFree(req) &&
                     if req.draft then req.decision.None? else accepted;
      disk.reliable && store.reliable && allowed && Lstat(old(disk.tree), req.destination) == NotExist ==>
        Deliverable(store.published, req.receipt) && RoomFor(old(disk.tree), req.destination, stageName) ==> ok
  {
    AllowedMeans(req);
    if DistinctPaths(req.receipt.files) {
      DistinctIsCoherent(req.receipt.files);
    }
    if !Allowed(req) {
      return false;
    }
    ok := Deliver(disk, store, codec, req, stageName, now);
    if ok && Coherent(req.receipt.files) {
      CompletedHolds(codec, disk.tree, req, now);
    }
  }
}
