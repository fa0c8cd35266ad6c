/** Merging retained predecessor results into one handoff. */
module Compose {
  import opened Options
  import opened Names
  import opened Receipts
  import opened Materialize
  import opened Overlay
  import opened Publication

  // ---------- Specification ----------

  /** What one manifest entry contributes, if its blob can be read. */
  function ReadEntry(pub: Published, r: Receipt, f: ArtifactFile): (e: Option<HandoffFile>)
    requires ValidStore(pub)
    ensures e.Some? ==> e.value.path == f.path && e.value.kind == f.kind && e.value.digest == f.digest
    ensures e.Some? ==> e.value.content == (if f.kind == Deleted then [] else BytesOf(f.digest))
    ensures e.Some? && f.kind != Deleted ==> f.digest == Sha256(e.value.content)
  {
    if f.kind == Deleted then Some(HandoffFile(f.path, f.kind, [], 0, f.digest)) else Read(pub, r, f)
  }

  /** What a receipt contributes, file by file. */
  ghost function Entries(pub: Published, r: Receipt, files: seq<ArtifactFile>): set<HandoffFile>
    requires ValidStore(pub)
  {
    if files == [] then {}
    else
      var n := |files| - 1;
      var e := ReadEntry(pub, r, files[n]);
      Entries(pub, r, files[..n]) + if e.Some? then {e.value} else {}
  }

  ghost function AllEntries(pub: Published, receipts: seq<Receipt>): set<HandoffFile>
    requires ValidStore(pub)
  {
    if receipts == [] then {}
    else
      var n := |receipts| - 1;
      AllEntries(pub, receipts[..n]) + Entries(pub, receipts[n], receipts[n].files)
  }

  /** Every listed file that is not a deletion can be read. */
  ghost predicate AllRead(pub: Published, r: Receipt, files: seq<ArtifactFile>)
    requires ValidStore(pub)
  {
    files == [] ||
    var n := |files| - 1;
    AllRead(pub, r, files[..n]) && ReadEntry(pub, r, files[n]).Some?
  }

  predicate SameBase(a: Receipt, b: Receipt) {
    a.workspaceKind == b.workspaceKind && a.baseRevision == b.baseRevision && a.repositoryIdentity == b.repositoryIdentity
  }

  ghost predicate Usable(pub: Published, r: Receipt)
    requires ValidStore(pub)
  {
    ValidReceipt(r) && Complete(r) && AllRead(pub, r, r.files)
  }

  /** What each receipt must satisfy beside first. */
  ghost function Joinable(pub: Published, first: Receipt): Receipt -> bool {
    r => ValidStore(pub) && Usable(pub, r) && SameBase(r, first)
  }

  ghost predicate Each(good: Receipt -> bool, receipts: seq<Receipt>) {
    receipts == [] ||
    var n := |receipts| - 1;
    Each(good, receipts[..n]) && good(receipts[n])
  }

  ghost predicate DistinctAttempts(receipts: seq<Receipt>) {
    forall i, j :: 0 <= i < j < |receipts| ==> receipts[i].attempt != receipts[j].attempt
  }

  /** No path is given two different results. */
  ghost predicate Agree(es: set<HandoffFile>) {
    forall a, b :: a in es && b in es && a.path == b.path ==> a == b
  }

  /** The exact condition under which predecessors can be joined. */
  ghost predicate Composable(pub: Published, receipts: seq<Receipt>)
    requires ValidStore(pub)
  {
    receipts != [] &&
    Each(Joinable(pub, receipts[0]), receipts) &&
    DistinctAttempts(receipts) &&
    Agree(AllEntries(pub, receipts))
  }

  function Paths(files: seq<HandoffFile>): seq<string> {
    seq(|files|, i requires 0 <= i < |files| => files[i].path)
  }

  function Versions(receipts: seq<Receipt>): seq<Version> {
    seq(|receipts|, i requires 0 <= i < |receipts| => receipts[i].version)
  }

  /** h is the strictly sorted union of what the receipts contribute. */
  ghost predicate IsComposition(pub: Published, receipts: seq<Receipt>, h: Handoff)
    requires ValidStore(pub) && receipts != []
  {
    Increasing(Paths(h.files)) && Elements(h.files) == AllEntries(pub, receipts) &&
    h.inputVersions == Versions(receipts) &&
    h.workspaceKind == receipts[0].workspaceKind &&
    h.baseRevision == receipts[0].baseRevision &&
    h.repositoryIdentity == receipts[0].repositoryIdentity
  }

  // ---------- The merge ----------

  /** paths records exactly the entries of es, each under its own path. */
  ghost predicate Indexes(paths: map<string, HandoffFile>, es: set<HandoffFile>) {
    (forall e :: e in es ==> e.path in paths && paths[e.path] == e) &&
    forall p :: p in paths ==> paths[p] in es && paths[p].path == p
  }

  lemma IndexAgrees(paths: map<string, HandoffFile>, es: set<HandoffFile>)
    requires Indexes(paths, es)
    ensures Agree(es)
  {
  }

  /** Content follows from the digest, so comparing digests compares bytes. */
  ghost predicate ByDigest(es: set<HandoffFile>) {
    forall e :: e in es ==> if e.kind == Deleted then e.content == [] else e.digest == Sha256(e.content)
  }

  lemma {:induction false} EntriesByDigest(pub: Published, r: Receipt, files: seq<ArtifactFile>)
    requires ValidStore(pub)
    ensures ByDigest(Entries(pub, r, files))
    decreases |files|
  {
    if files != [] {
      EntriesByDigest(pub, r, files[..|files| - 1]);
    }
  }

  lemma {:induction false} EntriesGrow(pub: Published, r: Receipt, files: seq<ArtifactFile>, i: nat)
    requires ValidStore(pub) && i <= |files|
    ensures Entries(pub, r, files[..i]) <= Entries(pub, r, files)
    ensures AllRead(pub, r, files) ==> AllRead(pub, r, files[..i])
    decreases |files|
  {
    if i < |files| {
      EntriesGrow(pub, r, files[..|files| - 1], i);
      assert files[..|files| - 1][..i] == files[..i];
    } else {
      assert files[..i] == files;
    }
  }

  lemma DisagreeGrows(es: set<HandoffFile>, fs: set<HandoffFile>)
    requires es <= fs && !Agree(es)
    ensures !Agree(fs)
  {
  }

  /** One file: read, then merged unless its path already has a different result. */
  method AddFile(store: Store, receipt: Receipt, file: ArtifactFile, paths: map<string, HandoffFile>,
                 ghost es: set<HandoffFile>)
    returns (ok: bool, merged: map<string, HandoffFile>)
    requires ValidStore(store.published) && Indexes(paths, es) && ByDigest(es)
    ensures ok ==> var e := ReadEntry(store.published, receipt, file);
                   e.Some? && Indexes(merged, es + {e.value}) && ByDigest(es + {e.value})
    ensures !ok && store.reliable ==> var e := ReadEntry(store.published, receipt, file);
                                      e.Some? ==> !Agree(es + {e.value})
  {
    var fault: bool := *;
    var entry := if !store.reliable && fault then None else ReadEntry(store.published, receipt, file);
    if entry.None? {
      return false, paths;
    }
    var e := entry.value;
    ok, merged := true, paths;
    if file.path in paths {
      var previous := paths[file.path];
      if previous.kind != e.kind || previous.digest != e.digest || previous.mode != e.mode {
        assert previous in es + {e} && e in es + {e};
        ok := false;
      } else {
        assert previous == e && es + {e} == es;
      }
    } else {
      merged := paths[file.path := e];
    }
  }

  /** The inner loop: one receipt's files. */
  method AddReceipt(store: Store, receipt: Receipt, paths: map<string, HandoffFile>, ghost es: set<HandoffFile>)
    returns (ok: bool, merged: map<string, HandoffFile>)
    requires ValidStore(store.published) && Indexes(paths, es) && ByDigest(es)
    ensures ok ==> AllRead(store.published, receipt, receipt.files)
    ensures ok ==> Indexes(merged, es + Entries(store.published, receipt, receipt.files))
    ensures !ok && store.reliable && AllRead(store.published, receipt, receipt.files) ==>
              !Agree(es + Entries(store.published, receipt, receipt.files))
  {
    ghost var pub, files := store.published, receipt.files;
    merged := paths;
    var i := 0;
    assert files[..0] == [] && es + {} == es;
    while i < |receipt.files|
      invariant 0 <= i <= |receipt.files|
      invariant AllRead(pub, receipt, files[..i])
      invariant Indexes(merged, es + Entries(pub, receipt, files[..i])) && ByDigest(es + Entries(pub, receipt, files[..i]))
    {
      ghost var seen := es + Entries(pub, receipt, files[..i]);
      EntriesNext(pub, receipt, files, i);
      ok, merged := AddFile(store, receipt, receipt.files[i], merged, seen);
      if !ok {
        if store.reliable && AllRead(pub, receipt, files) {
          DisagreeGrows(seen + {ReadEntry(pub, receipt, files[i]).value}, es + Entries(pub, receipt, files));
        }
        return;
      }
      assert seen + {ReadEntry(pub, receipt, files[i]).value} == es + Entries(pub, receipt, files[..i + 1]);
      i := i + 1;
    }
    assert files[..i] == files;
    ok := true;
  }

  lemma EntriesNext(pub: Published, r: Receipt, files: seq<ArtifactFile>, i: nat)
    requires ValidStore(pub) && i < |files|
    ensures var e := ReadEntry(pub, r, files[i]);
            && Entries(pub, r, files[..i + 1]) == Entries(pub, r, files[..i]) + (if e.Some? then {e.value} else {})
            && Entries(pub, r, files[..i + 1]) <= Entries(pub, r, files)
            && (AllRead(pub, r, files[..i + 1]) <==> AllRead(pub, r, files[..i]) && e.Some?)
            && (AllRead(pub, r, files) ==> e.Some?)
  {
    assert files[..i + 1][..i] == files[..i];
    EntriesGrow(pub, r, files, i + 1);
  }

  lemma {:induction false} AllEntriesGrow(pub: Published, receipts: seq<Receipt>, i: nat)
    requires ValidStore(pub) && i <= |receipts|
    ensures AllEntries(pub, receipts[..i]) <= AllEntries(pub, receipts)
    ensures ByDigest(AllEntries(pub, receipts))
    decreases |receipts|
  {
    if receipts != [] {
      var n := |receipts| - 1;
      EntriesByDigest(pub, receipts[n], receipts[n].files);
      AllEntriesGrow(pub, receipts[..n], if i <= n then i else n);
      if i <= n {
        assert receipts[..n][..i] == receipts[..i];
      } else {
        assert receipts[..i] == receipts;
      }
    }
  }

  function Attempts(receipts: seq<Receipt>): set<string> {
    if receipts == [] then {}
    else Attempts(receipts[..|receipts| - 1]) + {receipts[|receipts| - 1].attempt}
  }

  lemma {:induction false} AttemptsAre(receipts: seq<Receipt>, x: string)
    ensures x in Attempts(receipts) <==> exists j :: 0 <= j < |receipts| && receipts[j].attempt == x
    decreases |receipts|
  {
    if receipts != [] {
      AttemptsAre(receipts[..|receipts| - 1], x);
    }
  }

  /** No Attempt comes twice, receipt by receipt. */
  ghost predicate Fresh(receipts: seq<Receipt>) {
    receipts == [] ||
    var n := |receipts| - 1;
    Fresh(receipts[..n]) && receipts[n].attempt !in Attempts(receipts[..n])
  }

  lemma {:induction false} FreshMeans(receipts: seq<Receipt>)
    ensures Fresh(receipts) <==> DistinctAttempts(receipts)
    decreases |receipts|
  {
    if receipts != [] {
      var n := |receipts| - 1;
      var rest := receipts[..n];
      FreshMeans(rest);
      AttemptsAre(rest, receipts[n].attempt);
      if DistinctAttempts(receipts) {
        assert forall i :: 0 <= i < n ==> rest[i] == receipts[i];
        assert DistinctAttempts(rest);
      }
    }
  }

  lemma {:induction false} EachMeans(good: Receipt -> bool, receipts: seq<Receipt>)
    ensures Each(good, receipts) <==> forall r :: r in receipts ==> good(r)
    decreases |receipts|
  {
    if receipts != [] {
      var n := |receipts| - 1;
      EachMeans(good, receipts[..n]);
      assert forall r :: r in receipts <==> r in receipts[..n] || r == receipts[n];
    }
  }

  lemma {:induction false} ScanPrefix(good: Receipt -> bool, receipts: seq<Receipt>, i: nat)
    requires i <= |receipts|
    ensures Each(good, receipts) ==> Each(good, receipts[..i])
    ensures Fresh(receipts) ==> Fresh(receipts[..i])
    decreases |receipts|
  {
    if i < |receipts| {
      ScanPrefix(good, receipts[..|receipts| - 1], i);
      assert receipts[..|receipts| - 1][..i] == receipts[..i];
    } else {
      assert receipts[..i] == receipts;
    }
  }

  /** One more receipt has been accepted. */
  lemma Accepted(pub: Published, receipts: seq<Receipt>, i: nat)
    requires ValidStore(pub) && i < |receipts|
    requires Each(Joinable(pub, receipts[0]), receipts[..i]) && Fresh(receipts[..i])
    requires Joinable(pub, receipts[0])(receipts[i]) && receipts[i].attempt !in Attempts(receipts[..i])
    ensures Each(Joinable(pub, receipts[0]), receipts[..i + 1]) && Fresh(receipts[..i + 1])
    ensures Attempts(receipts[..i + 1]) == Attempts(receipts[..i]) + {receipts[i].attempt}
    ensures AllEntries(pub, receipts[..i + 1]) == AllEntries(pub, receipts[..i]) + Entries(pub, receipts[i], receipts[i].files)
    ensures ByDigest(AllEntries(pub, receipts[..i + 1]))
  {
    assert receipts[..i + 1][..i] == receipts[..i];
    AllEntriesGrow(pub, receipts[..i + 1], 0);
  }

  lemma AllAccepted(pub: Published, receipts: seq<Receipt>, paths: map<string, HandoffFile>)
    requires ValidStore(pub) && receipts != []
    requires Each(Joinable(pub, receipts[0]), receipts[..|receipts|]) && Fresh(receipts[..|receipts|])
    requires Indexes(paths, AllEntries(pub, receipts[..|receipts|]))
    ensures Composable(pub, receipts) && Indexes(paths, AllEntries(pub, receipts))
  {
    assert receipts[..|receipts|] == receipts;
    FreshMeans(receipts);
    IndexAgrees(paths, AllEntries(pub, receipts));
  }

  /** A receipt that cannot join what precedes it keeps the whole list from being joined. */
  lemma Blocked(pub: Published, receipts: seq<Receipt>, i: nat)
    requires ValidStore(pub) && i < |receipts|
    requires Joinable(pub, receipts[0])(receipts[i]) && receipts[i].attempt !in Attempts(receipts[..i]) ==>
               !Agree(AllEntries(pub, receipts[..i]) + Entries(pub, receipts[i], receipts[i].files))
    ensures !Composable(pub, receipts)
  {
    assert receipts[..i + 1][..i] == receipts[..i];
    if Composable(pub, receipts) {
      FreshMeans(receipts);
      ScanPrefix(Joinable(pub, receipts[0]), receipts, i + 1);
      AllEntriesGrow(pub, receipts, i + 1);
      DisagreeGrows(AllEntries(pub, receipts[..i + 1]), AllEntries(pub, receipts));
    }
  }

  /** One iteration of the outer loop. */
  method AddPredecessor(store: Store, first: Receipt, receipt: Receipt, seenProducer: set<string>,
                        paths: map<string, HandoffFile>, ghost es: set<HandoffFile>)
    returns (ok: bool, merged: map<string, HandoffFile>)
    requires ValidStore(store.published) && Indexes(paths, es) && ByDigest(es)
    ensures ok ==> Joinable(store.published, first)(receipt) && receipt.attempt !in seenProducer &&
                   Indexes(merged, es + Entries(store.published, receipt, receipt.files))
    ensures !ok && store.reliable && Joinable(store.published, first)(receipt) && receipt.attempt !in seenProducer ==>
              !Agree(es + Entries(store.published, receipt, receipt.files))
  {
    ok, merged := false, paths;
    if ValidReceipt(receipt) && Complete(receipt) {
      if receipt.attempt !in seenProducer {
        if SameBase(receipt, first) {
          ok, merged := AddReceipt(store, receipt, paths, es);
        }
      }
    }
  }

  /** The part of Compose that reads: every receipt is checked and merged in turn. */
  method Merge(store: Store, receipts: seq<Receipt>) returns (ok: bool, paths: map<string, HandoffFile>)
    requires ValidStore(store.published) && receipts != []
    ensures ok ==> Composable(store.published, receipts) && Indexes(paths, AllEntries(store.published, receipts))
    ensures store.reliable && Composable(store.published, receipts) ==> ok
  {
    ghost var pub, good := store.published, Joinable(store.published, receipts[0]);
    var seenProducer: set<string> := {};
    paths := map[];
    var i := 0;
    assert receipts[..0] == [];
    while i < |receipts|
      invariant 0 <= i <= |receipts|
      invariant Each(good, receipts[..i]) && Fresh(receipts[..i]) && seenProducer == Attempts(receipts[..i])
      invariant Indexes(paths, AllEntries(pub, receipts[..i])) && ByDigest(AllEntries(pub, receipts[..i]))
    {
      ok, paths := AddPredecessor(store, receipts[0], receipts[i], seenProducer, paths, AllEntries(pub, receipts[..i]));
      if !ok {
        if store.reliable {
          Blocked(pub, receipts, i);
        }
        return;
      }
      Accepted(pub, receipts, i);
      seenProducer := seenProducer + {receipts[i].attempt};
      i := i + 1;
    }
    AllAccepted(pub, receipts, paths);
    ok := true;
  }

  lemma {:induction false} EntriesAre(pub: Published, r: Receipt, files: seq<ArtifactFile>, e: HandoffFile)
    requires ValidStore(pub)
    ensures e in Entries(pub, r, files) <==> exists f :: f in files && ReadEntry(pub, r, f) == Some(e)
    decreases |files|
  {
    if files != [] {
      var n := |files| - 1;
      EntriesAre(pub, r, files[..n], e);
      assert forall f :: f in files <==> f in files[..n] || f == files[n];
    }
  }

  lemma {:induction false} AllReadMeans(pub: Published, r: Receipt, files: seq<ArtifactFile>, f: ArtifactFile)
    requires ValidStore(pub) && AllRead(pub, r, files) && f in files
    ensures ReadEntry(pub, r, f).Some?
    decreases |files|
  {
    if f in files[..|files| - 1] {
      AllReadMeans(pub, r, files[..|files| - 1], f);
    }
  }

  /** An entry hands over one listed change: its path, kind and digest, the bytes of the digest, and the recorded mode. */
  predicate ComesFrom(e: HandoffFile, f: ArtifactFile) {
    e.path == f.path && e.kind == f.kind && e.digest == f.digest &&
    if f.kind == Deleted then e.content == []
    else f.digest == Sha256(e.content) && (f.mode.Some? ==> e.mode == f.mode.value)
  }

  /** The i-th receipt is complete, named by its version at its own place, and of the handoff's base. */
  predicate JoinedAt(h: Handoff, receipts: seq<Receipt>, i: nat)
    requires i < |receipts| && i < |h.inputVersions|
  {
    h.inputVersions[i] == receipts[i].version && receipts[i].state == Retained &&
    receipts[i].workspaceKind == h.workspaceKind && receipts[i].baseRevision == h.baseRevision &&
    receipts[i].repositoryIdentity == h.repositoryIdentity
  }

  ghost predicate HandsOver(h: Handoff, f: ArtifactFile) {
    exists e :: e in h.files && ComesFrom(e, f)
  }

  ghost predicate IsListed(receipts: seq<Receipt>, e: HandoffFile) {
    exists i, f :: 0 <= i < |receipts| && f in receipts[i].files && ComesFrom(e, f)
  }

  /** The handoff names every receipt once, and hands over what they list, all of it and nothing else. */
  ghost predicate Joins(h: Handoff, receipts: seq<Receipt>) {
    |h.inputVersions| == |receipts| && (forall i :: 0 <= i < |receipts| ==> JoinedAt(h, receipts, i)) &&
    (forall i, j :: 0 <= i < j < |receipts| ==> receipts[i].attempt != receipts[j].attempt) &&
    (forall e :: e in h.files ==> IsListed(receipts, e)) &&
    forall i, f {:trigger f in receipts[i].files} :: 0 <= i < |receipts| && f in receipts[i].files ==> HandsOver(h, f)
  }

  /** Two of the receipts say different things of one path. */
  ghost predicate Conflict(receipts: seq<Receipt>) {
    exists i, j, f, g ::
      0 <= i < |receipts| && 0 <= j < |receipts| && f in receipts[i].files && g in receipts[j].files &&
      f.path == g.path && (f.kind != g.kind || f.digest != g.digest)
  }

  lemma ComposedEntryIsListed(pub: Published, receipts: seq<Receipt>, h: Handoff, e: HandoffFile)
    requires ValidStore(pub) && receipts != [] && IsComposition(pub, receipts, h) && e in h.files
    ensures IsListed(receipts, e)
  {
    assert e in Elements(h.files);
    AllEntriesAre(pub, receipts, e);
    var r :| r in receipts && e in Entries(pub, r, r.files);
    EntriesAre(pub, r, r.files, e);
    var f :| f in r.files && ReadEntry(pub, r, f) == Some(e);
    var i :| 0 <= i < |receipts| && receipts[i] == r;
    assert ComesFrom(e, f);
  }

  lemma ListedIsHandedOver(pub: Published, receipts: seq<Receipt>, h: Handoff, r: Receipt, f: ArtifactFile)
    requires ValidStore(pub) && Composable(pub, receipts) && IsComposition(pub, receipts, h)
    requires r in receipts && f in r.files
    ensures HandsOver(h, f)
  {
    EachMeans(Joinable(pub, receipts[0]), receipts);
    assert Joinable(pub, receipts[0])(r);
    AllReadMeans(pub, r, r.files, f);
    var e := ReadEntry(pub, r, f).value;
    EntriesAre(pub, r, r.files, e);
    AllEntriesAre(pub, receipts, e);
    assert e in Elements(h.files);
    assert ComesFrom(e, f);
  }

  /** What a composition hands over, entry by entry. */
  lemma CompositionJoins(pub: Published, receipts: seq<Receipt>, h: Handoff)
    requires ValidStore(pub) && Composable(pub, receipts) && IsComposition(pub, receipts, h)
    ensures Joins(h, receipts)
  {
    EachMeans(Joinable(pub, receipts[0]), receipts);
    forall i | 0 <= i < |receipts|
      ensures JoinedAt(h, receipts, i)
    {
      assert Joinable(pub, receipts[0])(receipts[i]);
    }
    forall e | e in h.files
      ensures IsListed(receipts, e)
    {
      ComposedEntryIsListed(pub, receipts, h, e);
    }
    forall i, f {:trigger f in receipts[i].files} | 0 <= i < |receipts| && f in receipts[i].files
      ensures HandsOver(h, f)
    {
      ListedIsHandedOver(pub, receipts, h, receipts[i], f);
    }
  }

  /** Changes to one path that are both handed over are the same change. */
  lemma OneChangeAPath(h: Handoff, f: ArtifactFile, g: ArtifactFile)
    requires Increasing(Paths(h.files)) && HandsOver(h, f) && HandsOver(h, g) && f.path == g.path
    ensures f.kind == g.kind && f.digest == g.digest
  {
    var d :| d in h.files && ComesFrom(d, f);
    var e :| e in h.files && ComesFrom(e, g);
    var k :| 0 <= k < |h.files| && h.files[k] == d;
    var l :| 0 <= l < |h.files| && h.files[l] == e;
    assert Paths(h.files)[k] == Paths(h.files)[l];
    IncreasingDistinct(Paths(h.files), k, l);
  }

  lemma JoinedDoNotConflict(h: Handoff, receipts: seq<Receipt>)
    requires Joins(h, receipts) && Increasing(Paths(h.files))
    ensures !Conflict(receipts)
  {
    if i, j, f, g :|
      0 <= i < |receipts| && 0 <= j < |receipts| && f in receipts[i].files && g in receipts[j].files &&
      f.path == g.path && (f.kind != g.kind || f.digest != g.digest)
    {
      OneChangeAPath(h, f, g);
    }
  }

  /**
    Compose. It succeeds exactly when the receipts are composable, and what it returns is the
    strictly sorted union of their changes; two different changes to one path are refused.
   */
  method Compose(store: Store, receipts: seq<Receipt>) returns (r: Option<Handoff>)
    requires ValidStore(store.published)
    ensures r.Some? ==> Composable(store.published, receipts) && IsComposition(store.published, receipts, r.value)
    ensures r.Some? ==> Joins(r.value, receipts)
    ensures receipts == [] || Conflict(receipts) ==> r.None?
    ensures store.reliable && Composable(store.published, receipts) ==> r.Some?
  {
    if receipts == [] {
      return None;
    }
    var ok, paths := Merge(store, receipts);
    if !ok {
      return None;
    }
    var keys := SortedKeys(paths.Keys);
    var files: seq<HandoffFile> := [];
    var i := 0;
    while i < |keys|
      invariant 0 <= i <= |keys| && |files| == i
      invariant forall j :: 0 <= j < i ==> keys[j] in paths && files[j] == paths[keys[j]]
    {
      assert keys[i] in Elements(keys);
      files := files + [paths[keys[i]]];
      i := i + 1;
    }
    InOrder(keys, files, paths, AllEntries(store.published, receipts));
    r := Some(Handoff(Versions(receipts), receipts[0].workspaceKind, receipts[0].baseRevision, receipts[0].repositoryIdentity, files));
    CompositionJoins(store.published, receipts, r.value);
    JoinedDoNotConflict(r.value, receipts);
  }

  lemma InOrder(keys: seq<string>, files: seq<HandoffFile>, paths: map<string, HandoffFile>, es: set<HandoffFile>)
    requires Increasing(keys) && Elements(keys) == paths.Keys && Indexes(paths, es)
    requires |files| == |keys| && forall j :: 0 <= j < |keys| ==> keys[j] in paths && files[j] == paths[keys[j]]
    ensures Increasing(Paths(files)) && Elements(files) == es
  {
    forall j | 0 <= j < |keys|
      ensures files[j].path == keys[j] && files[j] in es
    {
      assert keys[j] in paths;
    }
    assert Paths(files) == keys;
    forall e | e in es
      ensures e in files
    {
      assert e.path in Elements(keys);
      var j :| 0 <= j < |keys| && keys[j] == e.path;
      assert files[j] == e;
    }
  }

  // ---------- Laws ----------

  /** A sorted handoff is determined by the set of its entries. */
  lemma FilesDetermined(a: seq<HandoffFile>, b: seq<HandoffFile>)
    requires Increasing(Paths(a)) && Increasing(Paths(b))
    requires Elements(a) == Elements(b)
    ensures a == b
  {
    SamePaths(a, b);
    SamePaths(b, a);
    IncreasingUnique(Paths(a), Paths(b));
    assert |a| == |Paths(a)| == |Paths(b)| == |b|;
    forall i | 0 <= i < |a|
      ensures a[i] == b[i]
    {
      assert a[i] in Elements(b);
      var j :| 0 <= j < |b| && b[j] == a[i];
      assert Paths(b)[j] == Paths(a)[i] == Paths(b)[i];
      IncreasingDistinct(Paths(b), i, j);
    }
  }

  lemma SamePaths(a: seq<HandoffFile>, b: seq<HandoffFile>)
    requires Elements(a) <= Elements(b)
    ensures Elements(Paths(a)) <= Elements(Paths(b))
  {
    forall p | p in Elements(Paths(a))
      ensures p in Elements(Paths(b))
    {
      var i :| 0 <= i < |a| && Paths(a)[i] == p;
      assert a[i] in Elements(b);
      var j :| 0 <= j < |b| && b[j] == a[i];
      assert Paths(b)[j] == p;
    }
  }

  lemma {:induction false} Occurrences(s: seq<Receipt>, x: Receipt)
    ensures multiset(s)[x] >= 2 <==> exists i, j :: 0 <= i < j < |s| && s[i] == x && s[j] == x
  {
    if s != [] {
      var n := |s| - 1;
      Occurrences(s[..n], x);
      assert s == s[..n] + [s[n]];
      if s[n] == x && multiset(s)[x] >= 2 {
        assert x in multiset(s[..n]);
        var i :| 0 <= i < n && s[i] == x;
      }
      if i, j :| 0 <= i < j < |s| && s[i] == x && s[j] == x && j == n {
        assert s[..n][i] == x && x in s[..n];
      }
    }
  }

  lemma DistinctAttemptsPermute(a: seq<Receipt>, b: seq<Receipt>)
    requires multiset(a) == multiset(b) && DistinctAttempts(a)
    ensures DistinctAttempts(b)
  {
    SameMembers(a, b);
    forall i, j | 0 <= i < j < |b|
      ensures b[i].attempt != b[j].attempt
    {
      if b[i] == b[j] {
        Occurrences(b, b[i]);
        Occurrences(a, b[i]);
      } else {
        assert b[i] in a && b[j] in a;
        var k, l :| 0 <= k < |a| && 0 <= l < |a| && a[k] == b[i] && a[l] == b[j];
      }
    }
  }

  lemma SameMembers(a: seq<Receipt>, b: seq<Receipt>)
    requires multiset(a) == multiset(b)
    ensures forall r :: r in a <==> r in b
    ensures |a| == |b|
  {
    assert |a| == |multiset(a)| == |multiset(b)| == |b|;
    forall r: Receipt
      ensures r in a <==> r in b
    {
      assert r in a <==> r in multiset(a);
      assert r in b <==> r in multiset(b);
    }
  }

  lemma {:induction false} AllEntriesAre(pub: Published, receipts: seq<Receipt>, e: HandoffFile)
    requires ValidStore(pub)
    ensures e in AllEntries(pub, receipts) <==> exists r :: r in receipts && e in Entries(pub, r, r.files)
    decreases |receipts|
  {
    if receipts != [] {
      var n := |receipts| - 1;
      AllEntriesAre(pub, receipts[..n], e);
      assert forall r :: r in receipts <==> r in receipts[..n] || r == receipts[n];
    }
  }

  lemma ComposablePermutes(pub: Published, a: seq<Receipt>, b: seq<Receipt>)
    requires ValidStore(pub) && multiset(a) == multiset(b) && Composable(pub, a)
    ensures Composable(pub, b) && AllEntries(pub, a) == AllEntries(pub, b)
  {
    SameMembers(a, b);
    DistinctAttemptsPermute(a, b);
    EachMeans(Joinable(pub, a[0]), a);
    assert Joinable(pub, a[0])(b[0]) by { assert b[0] in b; }
    forall r | r in b
      ensures Joinable(pub, b[0])(r)
    {
      assert Joinable(pub, a[0])(r);
    }
    EachMeans(Joinable(pub, b[0]), b);
    forall e: HandoffFile
      ensures e in AllEntries(pub, a) <==> e in AllEntries(pub, b)
    {
      AllEntriesAre(pub, a, e);
      AllEntriesAre(pub, b, e);
    }
  }

  /**
    Order independence: predecessors can be joined in any order or in none, and the handed-over
    files and base are the same whichever is chosen.
   */
  lemma OrderIndependent(pub: Published, a: seq<Receipt>, b: seq<Receipt>, g: Handoff, h: Handoff)
    requires ValidStore(pub) && multiset(a) == multiset(b)
    requires Composable(pub, a) && IsComposition(pub, a, g) && IsComposition(pub, b, h)
    ensures Composable(pub, b)
    ensures g.files == h.files
    ensures g.workspaceKind == h.workspaceKind && g.baseRevision == h.baseRevision && g.repositoryIdentity == h.repositoryIdentity
  {
    ComposablePermutes(pub, a, b);
    FilesDetermined(g.files, h.files);
    assert Joinable(pub, a[0])(b[0]) by {
      SameMembers(a, b);
      EachMeans(Joinable(pub, a[0]), a);
      assert b[0] in b;
    }
  }

  /** What is handed over is faithful to its digests. */
  lemma ComposedIsFaithful(pub: Published, receipts: seq<Receipt>, h: Handoff)
    requires ValidStore(pub) && receipts != [] && IsComposition(pub, receipts, h)
    ensures Faithful(h.files)
  {
    AllEntriesGrow(pub, receipts, 0);
    forall e | e in h.files && e.kind != Deleted
      ensures e.digest == Sha256(e.content)
    {
      assert e in Elements(h.files);
    }
  }
}
