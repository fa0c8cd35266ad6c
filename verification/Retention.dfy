/** Retain: from a quiescent workspace to a receipt and, when complete, a published directory. */
module Retention {
  import opened Options
  import opened Names
  import opened FileTree
  import opened Receipts
  import opened Materialize
  import opened Publication
  import opened Capture

  datatype Input = Input(
    attempt: string,
    outcome: string,
    planRevision: string,
    workUnit: string,
    contractRevision: int,
    workspaceKind: WorkspaceKind,
    baseRevision: string)

  /** What git, or the directory walk, reports about the workspace. */
  datatype Observation = Observation(repositoryIdentity: string, resultRevision: string, listing: map<string, ChangeKind>)

  predicate CompleteLineage(input: Input) {
    !Blank(input.attempt) && !Blank(input.outcome) && !Blank(input.planRevision) && !Blank(input.workUnit) &&
    input.contractRevision >= 1 &&
    (input.workspaceKind == GitWorktree ==> !Blank(input.baseRevision))
  }

  function ReceiptOf(input: Input, seen: Observation, state: RetentionState, files: seq<ArtifactFile>): Receipt {
    Receipt(input.attempt, input.outcome, input.planRevision, input.workUnit, input.contractRevision, VersionOf(files),
            input.workspaceKind, seen.repositoryIdentity, input.baseRevision, seen.resultRevision, state, false, files)
  }

  /** all is a capture of the listing under the bound. */
  ghost predicate IsCapture(t: Tree, root: Path, listing: map<string, ChangeKind>, maxBytes: nat,
                            all: seq<ArtifactFile>)
    requires WellFormed(t)
  {
    Increasing(PathsOf(all)) && Elements(PathsOf(all)) == listing.Keys &&
    EntriesOk(t, root, listing, PathsOf(all), maxBytes, all)
  }

  /** What the file bound leaves of a capture. */
  function Cut(all: seq<ArtifactFile>, maxFiles: nat): seq<ArtifactFile> {
    if |all| > maxFiles then all[..maxFiles] else all
  }

  /** The verdict on a capture, cut included. */
  function Verdict(all: seq<ArtifactFile>, maxFiles: nat): RetentionState {
    var state := DegradeAll(Retained, Penalties(all));
    if |all| > maxFiles then Degraded(state, Incomplete) else state
  }

  /** A retained verdict means nothing was cut off, declined, or left out. */
  lemma RetainedIsWhole(all: seq<ArtifactFile>, maxFiles: nat)
    requires Verdict(all, maxFiles) == Retained
    ensures Cut(all, maxFiles) == all && forall f :: f in all ==> f.reason == Represented
  {
    RetainedRepresentsAll(all);
  }

  lemma CaptureIsPublishable(t: Tree, root: Path, listing: map<string, ChangeKind>, maxBytes: nat,
                             all: seq<ArtifactFile>)
    requires WellFormed(t) && IsCapture(t, root, listing, maxBytes, all)
    ensures DistinctPaths(all)
    ensures forall f :: f in all ==> ValidName(f.path)
    ensures forall f :: f in all && Live(f) ==> f.mode.Some? && f.digest != NoDigest
  {
    forall i, j | 0 <= i < j < |all|
      ensures all[i].path != all[j].path
    {
      assert Less(PathsOf(all)[i], PathsOf(all)[j]);
      LessIrreflexive(all[i].path);
    }
    forall f | f in all
      ensures ValidName(f.path)
      ensures Live(f) ==> f.mode.Some? && f.digest != NoDigest
    {
      var i :| 0 <= i < |all| && all[i] == f;
      assert EntryOk(t, root, listing, PathsOf(all), maxBytes, all, i);
    }
  }

  /** The verdict, by what happened: a bound outranks what is not supported, and either outranks success. */
  predicate Judges(state: RetentionState, all: seq<ArtifactFile>, maxFiles: nat) {
    (state == Retained <==> |all| <= maxFiles && forall f :: f in all ==> f.reason == Represented) &&
    (state == Incomplete <==> |all| > maxFiles || exists f :: f in all && f.reason == BoundDeclined) &&
    (state == Unsupported <==>
      |all| <= maxFiles && (forall f :: f in all ==> f.reason != BoundDeclined) &&
      exists f :: f in all && f.reason != Represented)
  }

  lemma PenaltiesAre(all: seq<ArtifactFile>, d: RetentionState)
    ensures d in Penalties(all) <==> exists f :: f in all && Penalty(f.reason) == d
  {
    if d in Penalties(all) {
      var i :| 0 <= i < |all| && Penalties(all)[i] == d;
      assert all[i] in all;
    }
    if f :| f in all && Penalty(f.reason) == d {
      var i :| 0 <= i < |all| && all[i] == f;
      assert Penalties(all)[i] == d;
    }
  }

  lemma VerdictJudges(all: seq<ArtifactFile>, maxFiles: nat)
    ensures Judges(Verdict(all, maxFiles), all, maxFiles)
  {
    var state := DegradeAll(Retained, Penalties(all));
    VerdictIsTheWorst(Retained, Penalties(all));
    PenaltiesAre(all, Incomplete);
    PenaltiesAre(all, Unsupported);
    PenaltiesAre(all, RetentionFailed);
    forall f | f in all
      ensures Severity(Penalty(f.reason)) <= Severity(state)
    {
      PenaltiesAre(all, Penalty(f.reason));
    }
  }

  /** The last segment of the name says it is a secret. */
  ghost predicate IsSecretName(name: string) {
    exists base :: IsLastName(name, base) && SaysSecret(base)
  }

  /**
    What an entry records: a kept file's bytes, length, permission bits and whether it has a zero byte; a
    removal only of what is gone; nothing of a secret, of anything but a regular file, or of what was declined.
   */
  ghost predicate Records(t: Tree, root: Path, listing: map<string, ChangeKind>, f: ArtifactFile)
    requires WellFormed(t)
  {
    var info := Lstat(t, root + Segments(f.path));
    f.path in listing &&
    (f.reason == SecretLike <==> IsSecretName(f.path)) &&
    (f.reason != Represented || f.kind == Deleted ==> f.digest == NoDigest && f.size == None && f.mode == None) &&
    (f.reason != Represented ==> f.kind == listing[f.path]) &&
    (f.reason == NotRegular ==> info.Info? && !info.node.File?) &&
    (f.reason == Represented && f.kind == Deleted ==> info == NotExist || listing[f.path] == Deleted) &&
    (f.reason == Represented && f.kind != Deleted ==>
       f.kind == listing[f.path] && info.Info? && info.node.File? && f.digest == Sha256(info.node.content) &&
       f.size == Some(|info.node.content|) && f.mode == Some(info.node.perm) && (f.isBinary <==> 0 in info.node.content))
  }

  /** A file that is not removed can be read from the published directory, as it is in the workspace. */
  ghost predicate Publishes(dir: Tree, t: Tree, root: Path, f: ArtifactFile) {
    WellFormed(dir) && WellFormed(t) &&
    (f.kind != Deleted ==>
      var kept, found := Lstat(dir, Segments(f.path)), Lstat(t, root + Segments(f.path));
      found.Info? && found.node.File? && ReadFile(dir, Segments(f.path)) == Content(found.node.content) &&
      kept.Info? && kept.node.File? && kept.node.perm == found.node.perm)
  }

  ghost predicate PublishesAll(dir: Tree, t: Tree, root: Path, all: seq<ArtifactFile>) {
    forall f :: f in all ==> Publishes(dir, t, root, f)
  }

  lemma IntactPublishes(dir: Tree, t: Tree, root: Path, listing: map<string, ChangeKind>, all: seq<ArtifactFile>)
    requires WellFormed(t) && AllIntact(dir, all)
    requires RecordsAll(t, root, listing, all) && forall f :: f in all ==> f.reason == Represented
    ensures PublishesAll(dir, t, root, all)
  {
    forall f | f in all
      ensures Publishes(dir, t, root, f)
    {
      assert Records(t, root, listing, f);
      if f.kind != Deleted {
        assert Live(f) && Intact(dir, f);
      }
    }
  }

  lemma SecretNameIsSecret(name: string)
    ensures SecretPath(name) <==> IsSecretName(name)
  {
    LastSegmentIsLastName(name);
    SecretNames(name, Last(Segments(name)));
    if IsSecretName(name) {
      var base :| IsLastName(name, base) && SaysSecret(base);
      SecretNames(name, base);
    }
  }

  lemma CapturedRecords(t: Tree, root: Path, listing: map<string, ChangeKind>, maxBytes: nat, all: seq<ArtifactFile>,
                        f: ArtifactFile)
    requires WellFormed(t) && IsCapture(t, root, listing, maxBytes, all) && f in all
    ensures Records(t, root, listing, f)
  {
    var i :| 0 <= i < |all| && all[i] == f;
    assert EntryOk(t, root, listing, PathsOf(all), maxBytes, all, i);
    SecretNameIsSecret(f.path);
  }

  ghost predicate RecordsAll(t: Tree, root: Path, listing: map<string, ChangeKind>, all: seq<ArtifactFile>)
    requires WellFormed(t)
  {
    forall f :: f in all ==> Records(t, root, listing, f)
  }

  lemma CaptureRecords(t: Tree, root: Path, listing: map<string, ChangeKind>, maxBytes: nat, all: seq<ArtifactFile>)
    requires WellFormed(t) && IsCapture(t, root, listing, maxBytes, all)
    ensures RecordsAll(t, root, listing, all)
  {
    forall f | f in all
      ensures Records(t, root, listing, f)
    {
      CapturedRecords(t, root, listing, maxBytes, all, f);
    }
  }

  /** What may be published of a capture. */
  ghost predicate Presentable(all: seq<ArtifactFile>) {
    DistinctPaths(all) && forall f :: f in all ==> ValidName(f.path) && (Live(f) ==> f.mode.Some? && f.digest != NoDigest)
  }

  lemma CaptureIsSound(t: Tree, root: Path, listing: map<string, ChangeKind>, maxBytes: nat, maxFiles: nat,
                       all: seq<ArtifactFile>)
    requires WellFormed(t) && IsCapture(t, root, listing, maxBytes, all)
    ensures Judges(Verdict(all, maxFiles), all, maxFiles) && RecordsAll(t, root, listing, all) && Presentable(all)
  {
    VerdictJudges(all, maxFiles);
    CaptureRecords(t, root, listing, maxBytes, all);
    CaptureIsPublishable(t, root, listing, maxBytes, all);
  }

  /** The receipt names the work it came from, field by field. */
  predicate IsReceiptFor(r: Receipt, input: Input, seen: Observation) {
    r.attempt == input.attempt && r.outcome == input.outcome && r.planRevision == input.planRevision &&
    r.workUnit == input.workUnit && r.contractRevision == input.contractRevision && r.workspaceKind == input.workspaceKind &&
    r.baseRevision == input.baseRevision && r.repositoryIdentity == seen.repositoryIdentity &&
    r.resultRevision == seen.resultRevision && !r.frozen
  }

  lemma ReceiptIsFor(input: Input, seen: Observation, state: RetentionState, files: seq<ArtifactFile>)
    ensures var r := ReceiptOf(input, seen, state, files);
      IsReceiptFor(r, input, seen) && r.state == state && r.files == files && r.version == ManifestDigest(multiset(files))
  {
    BagIsMultiset(files);
  }

  /**
    Retain. The receipt names the work it came from and lists the capture, cut to the file bound, under the worst
    verdict; a complete one is published intact. No published directory ever changes.
   */
  method Retain(store: Store, disk: Disk, workspacePath: Path, input: Input, seen: Observation)
    returns (r: Option<Receipt>, ghost all: seq<ArtifactFile>)
    requires disk.Valid() && ValidStore(store.published)
    modifies store`published
    ensures ValidStore(store.published)
    ensures forall k :: k in old(store.published) ==> k in store.published && store.published[k] == old(store.published)[k]
    ensures r.Some? ==>
              var place := PhysicalDirectory(disk.tree, workspacePath);
              && place.Some?
              && IsCapture(disk.tree, place.value, seen.listing, store.maxBytes, all)
              && r.value == ReceiptOf(input, seen, Verdict(all, store.maxFiles), Cut(all, store.maxFiles))
              && ValidReceipt(r.value)
    ensures r.Some? ==>
              var place := PhysicalDirectory(disk.tree, workspacePath).value;
              && IsReceiptFor(r.value, input, seen) && Judges(r.value.state, all, store.maxFiles)
              && r.value.version == ManifestDigest(multiset(r.value.files))
              && r.value.files == (if |all| > store.maxFiles then all[..store.maxFiles] else all)
              && Elements(PathsOf(all)) == seen.listing.Keys && TotalSize(all) <= store.maxBytes
              && RecordsAll(disk.tree, place, seen.listing, all)
    ensures r.Some? && r.value.state == Retained ==>
              var key := Key(input.attempt, ManifestDigest(multiset(all)));
              key in store.published &&
              PublishesAll(store.published[key], disk.tree, PhysicalDirectory(disk.tree, workspacePath).value, all)
    ensures Blank(input.attempt) || Blank(input.outcome) || Blank(input.planRevision) || Blank(input.workUnit) ==> r.None?
    ensures input.contractRevision < 1 || (input.workspaceKind == GitWorktree && Blank(input.baseRevision)) ==> r.None?
    ensures r.Some? && Complete(r.value) ==>
              r.value.files == all && KeyOf(r.value) in store.published && AllIntact(store.published[KeyOf(r.value)], all)
  {
    all := [];
    if !CompleteLineage(input) {
      return None, all;
    }
    var place := PhysicalDirectory(disk.tree, workspacePath);
    if place.None? {
      return None, all;
    }
    var ok, files, c := Collect(disk, place.value, seen.listing, store.maxBytes);
    if !ok {
      return None, all;
    }
    all := files;
    CaptureIsSound(disk.tree, place.value, seen.listing, store.maxBytes, store.maxFiles, all);
    if |files| > store.maxFiles {
      c.Degrade(Incomplete);
      files := files[..store.maxFiles];
    }
    ReceiptIsFor(input, seen, c.state, files);
    var receipt := ReceiptOf(input, seen, c.state, files);
    if !ValidReceipt(receipt) {
      return None, all;
    }
    if Complete(receipt) {
      RetainedIsWhole(all, store.maxFiles);
      ok := store.Publish(receipt, c.bytes);
      if !ok {
        return None, all;
      }
      IntactPublishes(store.published[KeyOf(receipt)], disk.tree, place.value, seen.listing, all);
    }
    r := Some(receipt);
  }
}
