/** The content side of retention: staging, verifying and publishing immutable directories. */
module Publication {
  import opened Options
  import opened Names
  import opened FileTree
  import opened Receipts
  import opened Materialize
  import opened Bundle

  /** A published directory is named by the Attempt and the manifest version. */
  datatype Key = Key(attempt: string, version: Version)

  type Published = map<Key, Tree>

  ghost predicate ValidStore(pub: Published) {
    forall k {:trigger WellFormed(pub[k])} :: k in pub ==> WellFormed(pub[k])
  }

  function KeyOf(r: Receipt): Key {
    Key(r.attempt, r.version)
  }

  /** Whether the file's bytes are published. */
  predicate Live(f: ArtifactFile) {
    f.kind != Deleted && f.reason == Represented
  }

  const DEFAULT_MODE := 420 // 0644

  /** The change a manifest entry stands for. */
  function EntryOf(f: ArtifactFile): HandoffFile {
    if f.kind == Deleted then HandoffFile(f.path, f.kind, [], 0, f.digest)
    else HandoffFile(f.path, f.kind, BytesOf(f.digest), if f.mode.Some? then f.mode.value else DEFAULT_MODE, f.digest)
  }

  function LiveEntries(files: seq<ArtifactFile>): seq<HandoffFile> {
    if files == [] then []
    else
      var n := |files| - 1;
      LiveEntries(files[..n]) + if Live(files[n]) then [EntryOf(files[n])] else []
  }

  lemma {:induction false} LiveEntriesAre(files: seq<ArtifactFile>, e: HandoffFile)
    ensures e in LiveEntries(files) <==> exists f :: f in files && Live(f) && e == EntryOf(f)
    decreases |files|
  {
    if files != [] {
      var n := |files| - 1;
      LiveEntriesAre(files[..n], e);
      assert forall f :: f in files <==> f in files[..n] || f == files[n];
    }
  }

  /** How far staging has got, one manifest entry further on. */
  lemma StagedNext(files: seq<ArtifactFile>, i: nat, u: Tree)
    requires i < |files| && ApplyAll(EMPTY_TREE, [], LiveEntries(files[..i])) == Step(u, true)
    ensures ApplyAll(EMPTY_TREE, [], LiveEntries(files[..i + 1])) ==
            if Live(files[i]) then Applied(u, [], EntryOf(files[i])) else Step(u, true)
  {
    assert files[..i + 1][..i] == files[..i];
    var es := LiveEntries(files[..i]);
    if Live(files[i]) {
      ApplyAllSnoc(EMPTY_TREE, [], es, EntryOf(files[i]));
    } else {
      assert es + [] == es;
    }
  }

  lemma {:induction false} LiveEntriesWrite(files: seq<ArtifactFile>)
    requires DistinctPaths(files) && forall f :: f in files && Live(f) ==> f.digest != NoDigest
    ensures Writes(LiveEntries(files))
    decreases |files|
  {
    if files != [] {
      var n := |files| - 1;
      LiveEntriesWrite(files[..n]);
      var es := LiveEntries(files[..n]);
      if Live(files[n]) {
        forall i | 0 <= i < |es|
          ensures es[i].path != files[n].path
        {
          assert es[i] in es;
          LiveEntriesAre(files[..n], es[i]);
          var f :| f in files[..n] && es[i] == EntryOf(f);
        }
      }
    }
  }

  // ---------- Reading ----------

  /** Reads one published blob, checking its digest, type and mode on the way. */
  function ReadBlob(u: Tree, f: ArtifactFile): (r: Option<HandoffFile>)
    requires WellFormed(u)
    ensures r.Some? ==> f.digest == Sha256(r.value.content) && r.value.content == BytesOf(f.digest)
    ensures r.Some? ==> r.value.(content := [], mode := 0) == HandoffFile(f.path, f.kind, [], 0, f.digest)
    ensures r.Some? && f.mode.Some? ==> r.value.mode == f.mode.value
  {
    match ReadFile(u, Segments(f.path))
    case NoContent => None
    case Content(body) =>
      if Sha256(body) != f.digest then None
      else
        match Lstat(u, Segments(f.path))
        case Info(File(_, perm)) =>
          if f.mode.Some? && perm != f.mode.value then None
          else Some(HandoffFile(f.path, f.kind, body, perm, f.digest))
        case _ => None
  }

  /** Store.Read. */
  function Read(pub: Published, r: Receipt, f: ArtifactFile): Option<HandoffFile>
    requires ValidStore(pub)
  {
    if !ValidReceipt(r) || !Complete(r) || KeyOf(r) !in pub then None else ReadBlob(pub[KeyOf(r)], f)
  }

  /** One iteration of verifyPublished, which also insists on a recorded mode. */
  predicate Intact(u: Tree, f: ArtifactFile)
    requires WellFormed(u)
  {
    f.mode.Some? && ReadBlob(u, f).Some?
  }

  ghost predicate AllIntact(u: Tree, files: seq<ArtifactFile>) {
    WellFormed(u) && forall f :: f in files && Live(f) ==> Intact(u, f)
  }

  /** A file that is really there, reached through real directories, reads back as its entry. */
  lemma HeldReadsBack(u: Tree, f: ArtifactFile)
    requires WellFormed(u) && Live(f) && Holds(u, [], EntryOf(f))
    ensures ReadBlob(u, f) == Some(EntryOf(f))
  {
    var segs := Segments(f.path);
    ValidNameIsConfined(f.path);
    assert [] + segs == segs;
    ResolveClear(u, [], segs, true);
    ResolveClear(u, [], segs, false);
  }

  lemma ExactReadsBack(u: Tree, files: seq<ArtifactFile>, f: ArtifactFile)
    requires ExactTree(u, LiveEntries(files)) && f in files && Live(f)
    ensures ReadBlob(u, f) == Some(EntryOf(f))
  {
    LiveEntriesAre(files, EntryOf(f));
    HeldReadsBack(u, f);
  }

  // ---------- Publishing ----------

  /** The captured bytes are the ones the manifest digests. */
  ghost predicate Captured(files: seq<ArtifactFile>, content: map<string, Bytes>) {
    forall f :: f in files && Live(f) ==> f.path in content && f.digest == Sha256(content[f.path])
  }

  class Store {
    var published: Published
    const maxFiles: nat
    const maxBytes: nat
    const reliable: bool

    constructor (maxFiles: nat, maxBytes: nat, reliable: bool)
      requires maxFiles > 0 && maxBytes > 0
      ensures published == map[] && this.maxFiles == maxFiles && this.maxBytes == maxBytes && this.reliable == reliable
    {
      published := map[];
      this.maxFiles := maxFiles;
      this.maxBytes := maxBytes;
      this.reliable := reliable;
    }

    /** publishFiles: writes every live file into the fresh staging directory. */
    method PublishFiles(stage: Disk, files: seq<ArtifactFile>, content: map<string, Bytes>) returns (ok: bool)
      requires stage.Valid() && stage.tree == EMPTY_TREE
      requires Captured(files, content) && forall f :: f in files ==> ValidName(f.path)
      modifies stage
      ensures stage.Valid()
      ensures ok ==> ApplyAll(EMPTY_TREE, [], LiveEntries(files)) == Step(stage.tree, true)
    {
      EmptyIsFine();
      var i := 0;
      while i < |files|
        invariant 0 <= i <= |files|
        invariant stage.Valid() && Linkless(stage.tree, [])
        invariant ApplyAll(EMPTY_TREE, [], LiveEntries(files[..i])) == Step(stage.tree, true)
      {
        var f := files[i];
        StagedNext(files, i, stage.tree);
        if Live(f) {
          var mode := if f.mode.Some? then f.mode.value else DEFAULT_MODE;
          var entry := HandoffFile(f.path, f.kind, content[f.path], mode, f.digest);
          assert entry == EntryOf(f);
          ok := PutFile(stage, [], entry);
          if !ok {
            return;
          }
        }
        i := i + 1;
      }
      assert files[..i] == files;
      ok := true;
    }

    /** publishDirectory: an existing directory is verified, never replaced; a new one appears whole. */
    method PublishDirectory(stage: Disk, receipt: Receipt) returns (ok: bool)
      requires stage.Valid() && ValidStore(published)
      modifies this`published
      ensures ValidStore(published)
      ensures published == old(published) ||
              (KeyOf(receipt) !in old(published) && published == old(published)[KeyOf(receipt) := stage.tree])
      ensures ok ==> KeyOf(receipt) in published
      ensures ok && KeyOf(receipt) in old(published) ==> AllIntact(published[KeyOf(receipt)], receipt.files)
    {
      var key := KeyOf(receipt);
      if key in published {
        var i := 0;
        assert WellFormed(published[key]);
        while i < |receipt.files|
          invariant 0 <= i <= |receipt.files|
          invariant forall j :: 0 <= j < i && Live(receipt.files[j]) ==> Intact(published[key], receipt.files[j])
        {
          if Live(receipt.files[i]) && !Intact(published[key], receipt.files[i]) {
            return false;
          }
          i := i + 1;
        }
        return true;
      }
      var fault: bool := *;
      if !reliable && fault {
        return false;
      }
      assert forall k :: k in published ==> WellFormed(published[k]);
      published := published[key := stage.tree];
      ok := true;
    }

    /**
      The publishing half of Retain. The store either keeps what it had or gains the whole
      directory of this receipt; no other directory and no existing one ever changes.
     */
    method Publish(receipt: Receipt, content: map<string, Bytes>) returns (ok: bool)
      requires ValidStore(published)
      requires ValidReceipt(receipt) && Complete(receipt) && DistinctPaths(receipt.files)
      requires Captured(receipt.files, content) && forall f :: f in receipt.files && Live(f) ==> f.mode.Some?
      modifies this`published
      ensures ValidStore(published)
      ensures KeyOf(receipt) in old(published) ==> published == old(published)
      ensures published == old(published) ||
              (KeyOf(receipt) in published && published == old(published)[KeyOf(receipt) := published[KeyOf(receipt)]] &&
               ExactTree(published[KeyOf(receipt)], LiveEntries(receipt.files)))
      ensures ok ==> KeyOf(receipt) in published && AllIntact(published[KeyOf(receipt)], receipt.files)
    {
      EmptyIsFine();
      var stage := new Disk(EMPTY_TREE, reliable);
      ok := PublishFiles(stage, receipt.files, content);
      if !ok {
        return;
      }
      LiveEntriesWrite(receipt.files);
      StagedIsExact(LiveEntries(receipt.files));
      ok := PublishDirectory(stage, receipt);
      if ok && KeyOf(receipt) !in old(published) {
        forall f | f in receipt.files && Live(f)
          ensures Intact(stage.tree, f)
        {
          ExactReadsBack(stage.tree, receipt.files, f);
        }
      }
    }
  }
}
