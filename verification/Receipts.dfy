/** The durable record of what one Attempt produced. */
module Receipts {
  import opened Options
  import opened Names
  import opened FileTree

  /** SHA-256, read as injective: the digest of some bytes stands for exactly those bytes. */
  datatype Digest = NoDigest | Sha256(content: Bytes)

  datatype ChangeKind = Added | Modified | Deleted | Untracked

  datatype RetentionState = Retained | Unsupported | Incomplete | RetentionFailed

  datatype WorkspaceKind = GitWorktree | StagedFolder

  /** Why a path could not be represented; Represented stands for the empty reason. */
  datatype Reason = Represented | SecretLike | NotRegular | BoundDeclined | ChangedDuringRead

  /** One changed path, with exactly the fields the manifest digest covers. */
  datatype ArtifactFile = ArtifactFile(
    path: string,
    kind: ChangeKind,
    digest: Digest,
    size: Option<int>,
    mode: Option<int>,
    isBinary: bool,
    reason: Reason)

  /** The manifest digest sorts its length-prefixed entries, so it identifies their multiset. */
  datatype Version = NoVersion | ManifestDigest(entries: multiset<ArtifactFile>)

  datatype Receipt = Receipt(
    attempt: string,
    outcome: string,
    planRevision: string,
    workUnit: string,
    contractRevision: int,
    version: Version,
    workspaceKind: WorkspaceKind,
    repositoryIdentity: string,
    baseRevision: string,
    resultRevision: string,
    state: RetentionState,
    frozen: bool,
    files: seq<ArtifactFile>)

  /** strings.TrimSpace leaves nothing. */
  predicate Blank(s: string) {
    forall c :: c in s ==> IsSpace(c)
  }

  /** The entries of a manifest, whatever their order. */
  function Bag(files: seq<ArtifactFile>): multiset<ArtifactFile> {
    if files == [] then multiset{}
    else Bag(files[..|files| - 1]) + multiset{files[|files| - 1]}
  }

  /** domain.ArtifactManifestDigest. */
  function VersionOf(files: seq<ArtifactFile>): Version {
    ManifestDigest(Bag(files))
  }

  predicate ValidFile(f: ArtifactFile) {
    ValidName(f.path) &&
    (f.kind == Deleted ==> f.digest == NoDigest) &&
    (f.kind != Deleted && f.digest == NoDigest ==> f.reason != Represented)
  }

  predicate ValidReceipt(r: Receipt) {
    !Blank(r.attempt) && !Blank(r.outcome) && !Blank(r.planRevision) && !Blank(r.workUnit) &&
    r.contractRevision >= 1 &&
    r.version != NoVersion &&
    (r.workspaceKind == StagedFolder ==> r.baseRevision == "" && r.resultRevision == "") &&
    (forall f :: f in r.files ==> ValidFile(f) && (r.state == Retained ==> f.reason == Represented)) &&
    (r.state == Retained ==> r.version == VersionOf(r.files))
  }

  /** Only a fully retained snapshot may satisfy a handoff. */
  predicate Complete(r: Receipt) {
    r.state == Retained
  }

  /** No path is listed twice. */
  ghost predicate DistinctPaths(files: seq<ArtifactFile>) {
    forall i, j :: 0 <= i < j < |files| ==> files[i].path != files[j].path
  }

  function PathsOf(files: seq<ArtifactFile>): seq<string> {
    seq(|files|, i requires 0 <= i < |files| => files[i].path)
  }

  /** The bytes a digest stands for. */
  function BytesOf(d: Digest): Bytes {
    match d
    case NoDigest => []
    case Sha256(c) => c
  }

  lemma {:induction false} BagIsMultiset(files: seq<ArtifactFile>)
    ensures Bag(files) == multiset(files)
    decreases |files|
  {
    if files != [] {
      var n := |files| - 1;
      BagIsMultiset(files[..n]);
      assert files == files[..n] + [files[n]];
    }
  }

  /** Results that share a version list the same changes. */
  lemma VersionFixesFiles(a: seq<ArtifactFile>, b: seq<ArtifactFile>, f: ArtifactFile)
    requires VersionOf(a) == VersionOf(b)
    ensures f in a <==> f in b
  {
    BagIsMultiset(a);
    BagIsMultiset(b);
    assert f in a <==> f in multiset(a);
    assert f in b <==> f in multiset(b);
  }
}
