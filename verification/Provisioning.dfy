/** Giving a successor exactly the results it was admitted with, before and after a restart. */
module Provisioning {
  import opened Options
  import opened FileTree
  import opened Receipts
  import opened Materialize
  import opened Publication
  import opened Compose
  import opened Retention
  import opened PublicationRuns
  import opened Continuity

  /** A predecessor as the admission snapshot names it. */
  datatype InputRef = InputRef(attempt: string, version: Version, workUnit: string)

  /** The receipt is still the admitted one, and can no longer change. */
  predicate Admits(input: InputRef, r: Receipt) {
    r.version == input.version && r.workUnit == input.workUnit && r.frozen
  }

  /** The stored receipts of one Attempt each. */
  type Ledger = map<string, Receipt>

  ghost predicate Resolves(ledger: Ledger, inputs: seq<InputRef>, rs: seq<Receipt>) {
    |rs| == |inputs| &&
    forall i :: 0 <= i < |inputs| ==> inputs[i].attempt in ledger && rs[i] == ledger[inputs[i].attempt] && Admits(inputs[i], rs[i])
  }

  /** result is the base tree with the admitted results written onto it. */
  ghost predicate Provisioned(pub: Published, ledger: Ledger, inputs: seq<InputRef>, kind: WorkspaceKind,
                              base: Tree, root: Path, result: Tree, rs: seq<Receipt>, h: Handoff) {
    ValidStore(pub) && Resolves(ledger, inputs, rs) &&
    Composable(pub, rs) && IsComposition(pub, rs, h) && h.workspaceKind == kind &&
    WellFormed(base) && PhysicalDir(base, root) &&
    ApplyAll(base, root, h.files) == Step(result, true) && HoldsAll(result, root, h.files)
  }

  /** The receipt of an input as the ledger has it now is not the admitted one, or can still change. */
  predicate Stale(ledger: Ledger, input: InputRef) {
    input.attempt !in ledger ||
    ledger[input.attempt].version != input.version || ledger[input.attempt].workUnit != input.workUnit ||
    !ledger[input.attempt].frozen
  }

  /** The receipts of the inputs, in their order; none if one of them is stale. */
  method AdmittedReceipts(ledger: Ledger, inputs: seq<InputRef>) returns (r: Option<seq<Receipt>>)
    ensures r.Some? <==> forall input :: input in inputs ==> !Stale(ledger, input)
    ensures r.Some? ==> Resolves(ledger, inputs, r.value)
  {
    var receipts: seq<Receipt> := [];
    var i := 0;
    while i < |inputs|
      invariant 0 <= i <= |inputs|
      invariant Resolves(ledger, inputs[..i], receipts)
      invariant forall j :: 0 <= j < i ==> !Stale(ledger, inputs[j])
    {
      var input := inputs[i];
      assert input in inputs;
      if input.attempt !in ledger {
        return None;
      }
      var receipt := ledger[input.attempt];
      if receipt.version != input.version || receipt.workUnit != input.workUnit {
        return None;
      }
      if !receipt.frozen {
        return None;
      }
      receipts := receipts + [receipt];
      i := i + 1;
    }
    assert inputs[..i] == inputs;
    r := Some(receipts);
  }

  /** ProvisionAttemptInputs, for the predecessor inputs. */
  method ProvisionAttemptInputs(store: Store, ledger: Ledger, inputs: seq<InputRef>, disk: Disk,
                                kind: WorkspaceKind, workspacePath: Path, baseRevision: string)
    returns (ok: bool, ghost rs: seq<Receipt>, ghost h: Handoff)
    requires disk.Valid() && ValidStore(store.published)
    modifies disk
    ensures disk.Valid() && old(disk.history) <= disk.history
    ensures ok && inputs == [] ==> disk.tree == old(disk.tree)
    ensures ok && inputs != [] ==>
              var root := PhysicalDirectory(old(disk.tree), workspacePath);
              root.Some? && Provisioned(store.published, ledger, inputs, kind, old(disk.tree), root.value, disk.tree, rs, h)
    ensures ok && inputs != [] ==> Joins(h, rs) && h.workspaceKind == kind
    ensures (exists input :: input in inputs && Stale(ledger, input)) ==> !ok && disk.tree == old(disk.tree)
  {
    rs, h := [], Handoff([], kind, "", "", []);
    if inputs == [] {
      return true, rs, h;
    }
    var receipts := AdmittedReceipts(ledger, inputs);
    if receipts.None? {
      return false, rs, h;
    }
    rs := receipts.value;
    var handoff := Compose.Compose(store, receipts.value);
    if handoff.None? {
      return false, rs, h;
    }
    h := handoff.value;
    if handoff.value.workspaceKind != kind {
      return false, rs, h;
    }
    var outcome := Materialize.Materialize(disk, handoff.value, workspacePath, baseRevision);
    ok := outcome == Done;
  }

  // ---------- Stability ----------

  /** Every published directory is exactly what its version says, as it is in every run. */
  ghost predicate ExactStore(pub: Published) {
    ValidStore(pub) &&
    forall k {:trigger IsVersion(pub[k], k.version)} :: k in pub ==> IsVersion(pub[k], k.version)
  }

  lemma RunsAreExact(evs: seq<Event>)
    ensures ExactStore(Run(START, evs).published)
  {
    RunKeepsInv(START, evs);
    var pub := Run(START, evs).published;
    forall k | k in pub
      ensures WellFormed(pub[k])
    {
      assert IsVersion(pub[k], k.version);
    }
  }

  /** From an exact store a usable receipt reads back as its manifest says, whoever published it. */
  lemma ReadsBackItsManifest(pub: Published, r: Receipt, f: ArtifactFile)
    requires ExactStore(pub) && Usable(pub, r) && f in r.files
    ensures ReadEntry(pub, r, f) == Some(EntryOf(f))
  {
    AllReadMeans(pub, r, r.files, f);
    if f.kind != Deleted {
      var k := KeyOf(r);
      assert IsVersion(pub[k], k.version);
      var q :| Publishable(q) && q.version == r.version && Bundle.ExactTree(pub[k], LiveEntries(q.files));
      VersionFixesFiles(r.files, q.files, f);
      ExactReadsBack(pub[k], q.files, f);
    }
  }

  /** The entries of joined receipts are those of their manifests and nothing else. */
  lemma EntriesOfManifests(pub: Published, rs: seq<Receipt>, e: HandoffFile)
    requires ExactStore(pub) && Composable(pub, rs)
    ensures e in AllEntries(pub, rs) <==> exists i, f :: 0 <= i < |rs| && f in rs[i].files && e == EntryOf(f)
  {
    AllEntriesAre(pub, rs, e);
    EachMeans(Joinable(pub, rs[0]), rs);
    if r :| r in rs && e in Entries(pub, r, r.files) {
      EntriesAre(pub, r, r.files, e);
      var f :| f in r.files && ReadEntry(pub, r, f) == Some(e);
      assert Joinable(pub, rs[0])(r);
      ReadsBackItsManifest(pub, r, f);
      var i :| 0 <= i < |rs| && rs[i] == r;
    }
    if i, f :| 0 <= i < |rs| && f in rs[i].files && e == EntryOf(f) {
      assert Joinable(pub, rs[0])(rs[i]);
      ReadsBackItsManifest(pub, rs[i], f);
      EntriesAre(pub, rs[i], rs[i].files, e);
    }
  }

  lemma SameManifestEntries(pub: Published, pub': Published, rs: seq<Receipt>, rs': seq<Receipt>, e: HandoffFile)
    requires ExactStore(pub) && ExactStore(pub') && Composable(pub, rs) && Composable(pub', rs')
    requires |rs| == |rs'| && forall i :: 0 <= i < |rs| ==> rs[i].version == rs'[i].version
    ensures e in AllEntries(pub, rs) ==> e in AllEntries(pub', rs')
  {
    EntriesOfManifests(pub, rs, e);
    EntriesOfManifests(pub', rs', e);
    EachMeans(Joinable(pub, rs[0]), rs);
    EachMeans(Joinable(pub', rs'[0]), rs');
    if i, f :| 0 <= i < |rs| && f in rs[i].files && e == EntryOf(f) {
      assert Joinable(pub, rs[0])(rs[i]) && Joinable(pub', rs'[0])(rs'[i]);
      VersionFixesFiles(rs[i].files, rs'[i].files, f);
      assert f in rs'[i].files;
    }
  }

  /**
    The same admitted versions on the same base give the same tree, whatever happened to the store
    and the ledger in between: provisioning repeats itself exactly or refuses.
   */
  lemma SameVersionsSameTree(pub: Published, pub': Published, ledger: Ledger, ledger': Ledger, inputs: seq<InputRef>,
                             kind: WorkspaceKind, base: Tree, root: Path, u: Tree, u': Tree,
                             rs: seq<Receipt>, rs': seq<Receipt>, h: Handoff, h': Handoff)
    requires ExactStore(pub) && ExactStore(pub')
    requires Provisioned(pub, ledger, inputs, kind, base, root, u, rs, h)
    requires Provisioned(pub', ledger', inputs, kind, base, root, u', rs', h')
    ensures h.files == h'.files && u == u'
  {
    assert forall i :: 0 <= i < |rs| ==> Admits(inputs[i], rs[i]) && Admits(inputs[i], rs'[i]);
    forall e: HandoffFile
      ensures e in AllEntries(pub, rs) <==> e in AllEntries(pub', rs')
    {
      SameManifestEntries(pub, pub', rs, rs', e);
      SameManifestEntries(pub', pub, rs', rs, e);
    }
    FilesDetermined(h.files, h'.files);
  }

  // ---------- RetainAttempt ----------

  ghost predicate AllReadable(pub: Published, r: Receipt)
    requires ValidStore(pub)
  {
    forall f :: f in r.files ==> ReadEntry(pub, r, f).Some?
  }

  /**
    RetainAttempt: a complete receipt already stored is only checked, blob by blob; otherwise the
    workspace is retained and the receipt saved.
   */
  method RetainAttempt(store: Store, ledger: Ledger, workspace: Disk, workspacePath: Path, input: Input,
                       seen: Observation)
    returns (ok: bool, saved: Ledger)
    requires workspace.Valid() && ValidStore(store.published)
    modifies store`published
    ensures ValidStore(store.published)
    ensures forall k :: k in old(store.published) ==> k in store.published && store.published[k] == old(store.published)[k]
    ensures input.attempt in ledger && Complete(ledger[input.attempt]) ==>
              saved == ledger && store.published == old(store.published) &&
              (ok ==> AllReadable(store.published, ledger[input.attempt])) &&
              (store.reliable && AllReadable(store.published, ledger[input.attempt]) ==> ok)
    ensures !(input.attempt in ledger && Complete(ledger[input.attempt])) && ok ==>
              input.attempt in saved && saved == ledger[input.attempt := saved[input.attempt]] && ValidReceipt(saved[input.attempt]) &&
              IsReceiptFor(saved[input.attempt], input, seen) &&
              (Complete(saved[input.attempt]) ==>
                 KeyOf(saved[input.attempt]) in store.published &&
                 AllIntact(store.published[KeyOf(saved[input.attempt])], saved[input.attempt].files))
  {
    saved := ledger;
    if input.attempt in ledger && Complete(ledger[input.attempt]) {
      var existing := ledger[input.attempt];
      var i := 0;
      while i < |existing.files|
        invariant 0 <= i <= |existing.files|
        invariant forall j :: 0 <= j < i ==> ReadEntry(store.published, existing, existing.files[j]).Some?
      {
        var fault: bool := *;
        if existing.files[i].kind != Deleted &&
           ((!store.reliable && fault) || Read(store.published, existing, existing.files[i]).None?) {
          assert existing.files[i] in existing.files;
          return false, saved;
        }
        i := i + 1;
      }
      return true, saved;
    }
    var r, _ := Retain(store, workspace, workspacePath, input, seen);
    if r.None? {
      return false, saved;
    }
    saved := saved[input.attempt := r.value];
    ok := true;
  }
}
