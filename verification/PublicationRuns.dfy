/**
  Publication over whole runs: concurrent retentions that stage, look, rename, fail and crash in
  any order, and provisioning before and after a restart.
 */
module PublicationRuns {
  import opened Options
  import opened FileTree
  import opened Receipts
  import opened Materialize
  import opened Bundle
  import opened Publication

  /** One Retain in flight, between its captured receipt and its return. */
  datatype Worker =
    | Staging(receipt: Receipt, next: nat, stage: Tree)
    | Looked(receipt: Receipt, stage: Tree, found: bool)

  datatype State = State(published: Published, workers: map<nat, Worker>)

  datatype Event =
    | Begin(id: nat, receipt: Receipt)
    | WriteNext(id: nat)
    | Abort(id: nat)
    | Look(id: nat)
    | Commit(id: nat)
    | Crash

  /** What Retain publishes: a complete receipt with distinct paths and recorded modes. */
  ghost predicate Publishable(r: Receipt) {
    ValidReceipt(r) && Complete(r) && DistinctPaths(r.files) && forall f :: f in r.files && Live(f) ==> f.mode.Some?
  }

  /** The worker after one more file is staged; None when the write fails and the stage is dropped. */
  ghost function Advance(w: Worker): Option<Worker>
    requires w.Staging? && w.next < |w.receipt.files|
  {
    var f := w.receipt.files[w.next];
    if !Live(f) then Some(w.(next := w.next + 1))
    else
      var put := Applied(w.stage, [], EntryOf(f));
      if put.ok then Some(w.(next := w.next + 1, stage := put.tree)) else None
  }

  function Update(workers: map<nat, Worker>, id: nat, w: Option<Worker>): map<nat, Worker> {
    if w.Some? then workers[id := w.value] else workers - {id}
  }

  /** The rename: a directory that appeared meanwhile makes it fail unless that one is empty. */
  function Renamed(pub: Published, w: Worker): Published
    requires w.Looked?
  {
    var key := KeyOf(w.receipt);
    if !w.found && (key in pub ==> pub[key] == EMPTY_TREE) then pub[key := w.stage] else pub
  }

  /** One atomic step; an event that is not enabled changes nothing. */
  ghost function Do(s: State, ev: Event): State {
    match ev
    case Begin(id, receipt) =>
      if id in s.workers || !Publishable(receipt) then s
      else s.(workers := Update(s.workers, id, Some(Staging(receipt, 0, EMPTY_TREE))))
    case WriteNext(id) =>
      if id in s.workers && s.workers[id].Staging? && s.workers[id].next < |s.workers[id].receipt.files|
      then s.(workers := Update(s.workers, id, Advance(s.workers[id])))
      else s
    case Abort(id) => s.(workers := Update(s.workers, id, None))
    case Look(id) =>
      if id in s.workers && s.workers[id].Staging? && s.workers[id].next == |s.workers[id].receipt.files|
      then
        var w := s.workers[id];
        s.(workers := Update(s.workers, id, Some(Looked(w.receipt, w.stage, KeyOf(w.receipt) in s.published))))
      else s
    case Commit(id) =>
      // What was found is only verified.
      if id in s.workers && s.workers[id].Looked?
      then State(Renamed(s.published, s.workers[id]), Update(s.workers, id, None))
      else s
    case Crash => s.(workers := map[])
  }

  ghost function Run(s: State, evs: seq<Event>): State {
    if evs == [] then s else Do(Run(s, evs[..|evs| - 1]), evs[|evs| - 1])
  }

  const START: State := State(map[], map[])

  // ---------- The invariant ----------

  /** u is exactly the directory the version stands for. */
  ghost predicate IsVersion(u: Tree, v: Version) {
    exists r :: Publishable(r) && r.version == v && ExactTree(u, LiveEntries(r.files))
  }

  ghost predicate WorkerOk(w: Worker) {
    Publishable(w.receipt) &&
    match w
    case Staging(r, next, stage) =>
      next <= |r.files| && ApplyAll(EMPTY_TREE, [], LiveEntries(r.files[..next])) == Step(stage, true)
    case Looked(r, stage, _) => ExactTree(stage, LiveEntries(r.files))
  }

  ghost predicate Inv(s: State) {
    (forall k {:trigger IsVersion(s.published[k], k.version)} :: k in s.published ==> IsVersion(s.published[k], k.version)) &&
    WorkersOk(s.workers)
  }

  lemma PublishableWrites(r: Receipt)
    requires Publishable(r)
    ensures Writes(LiveEntries(r.files))
  {
    LiveEntriesWrite(r.files);
  }

  lemma SameLiveEntries(a: seq<ArtifactFile>, b: seq<ArtifactFile>, e: HandoffFile)
    requires VersionOf(a) == VersionOf(b)
    ensures e in LiveEntries(a) <==> e in LiveEntries(b)
  {
    LiveEntriesAre(a, e);
    LiveEntriesAre(b, e);
    forall f: ArtifactFile
      ensures f in a <==> f in b
    {
      VersionFixesFiles(a, b, f);
    }
  }

  /** A version stands for one tree, however its entries were ordered when it was staged. */
  lemma VersionFixesTree(u: Tree, v: Tree, r: Receipt, q: Receipt)
    requires Publishable(r) && Publishable(q) && r.version == q.version
    requires ExactTree(u, LiveEntries(r.files)) && ExactTree(v, LiveEntries(q.files))
    ensures u == v
  {
    PublishableWrites(r);
    forall e: HandoffFile
      ensures e in LiveEntries(r.files) <==> e in LiveEntries(q.files)
    {
      SameLiveEntries(r.files, q.files, e);
    }
    ExactUnique(u, v, LiveEntries(r.files), LiveEntries(q.files));
  }

  /** What one step does to one published directory: nothing, or a first complete appearance. */
  lemma StepPublished(s: State, ev: Event, k: Key)
    requires Inv(s)
    ensures var t := Do(s, ev);
            && (k in s.published ==> k in t.published && t.published[k] == s.published[k])
            && (k in t.published ==> IsVersion(t.published[k], k.version))
  {
    if k in s.published {
      assert IsVersion(s.published[k], k.version);
    }
    if ev.Commit? && ev.id in s.workers && s.workers[ev.id].Looked? {
      var w := s.workers[ev.id];
      assert WorkerOk(w);
      if k == KeyOf(w.receipt) {
        assert IsVersion(w.stage, k.version);
        if k in s.published {
          var r :| Publishable(r) && r.version == k.version && ExactTree(s.published[k], LiveEntries(r.files));
          VersionFixesTree(s.published[k], w.stage, r, w.receipt);
        }
      }
    }
  }

  lemma AdvanceOk(w: Worker)
    requires WorkerOk(w) && w.Staging? && w.next < |w.receipt.files|
    ensures Advance(w).Some? ==> WorkerOk(Advance(w).value)
  {
    StagedNext(w.receipt.files, w.next, w.stage);
  }

  lemma StagedWorkerIsExact(w: Worker, found: bool)
    requires WorkerOk(w) && w.Staging? && w.next == |w.receipt.files|
    ensures WorkerOk(Looked(w.receipt, w.stage, found))
  {
    assert w.receipt.files[..w.next] == w.receipt.files;
    PublishableWrites(w.receipt);
    StagedIsExact(LiveEntries(w.receipt.files));
  }

  lemma NewWorkerOk(r: Receipt)
    requires Publishable(r)
    ensures WorkerOk(Staging(r, 0, EMPTY_TREE))
  {
    assert r.files[..0] == [];
  }

  ghost predicate WorkersOk(workers: map<nat, Worker>) {
    forall id {:trigger WorkerOk(workers[id])} :: id in workers ==> WorkerOk(workers[id])
  }

  lemma UpdateOk(workers: map<nat, Worker>, id: nat, w: Option<Worker>)
    requires WorkersOk(workers) && (w.Some? ==> WorkerOk(w.value))
    ensures WorkersOk(Update(workers, id, w))
  {
    var after := Update(workers, id, w);
    forall i | i in after
      ensures WorkerOk(after[i])
    {
      assert i != id ==> WorkerOk(workers[i]);
    }
  }

  lemma StepWorkers(s: State, ev: Event)
    requires WorkersOk(s.workers)
    ensures WorkersOk(Do(s, ev).workers)
  {
    match ev {
      case Begin(id, receipt) =>
        if Publishable(receipt) {
          NewWorkerOk(receipt);
          UpdateOk(s.workers, id, Some(Staging(receipt, 0, EMPTY_TREE)));
        }
      case WriteNext(id) =>
        if id in s.workers && s.workers[id].Staging? && s.workers[id].next < |s.workers[id].receipt.files| {
          assert WorkerOk(s.workers[id]);
          AdvanceOk(s.workers[id]);
          UpdateOk(s.workers, id, Advance(s.workers[id]));
        }
      case Look(id) =>
        if id in s.workers && s.workers[id].Staging? && s.workers[id].next == |s.workers[id].receipt.files| {
          var w := s.workers[id];
          assert WorkerOk(w);
          StagedWorkerIsExact(w, KeyOf(w.receipt) in s.published);
          UpdateOk(s.workers, id, Some(Looked(w.receipt, w.stage, KeyOf(w.receipt) in s.published)));
        }
      case Abort(id) => UpdateOk(s.workers, id, None);
      case Commit(id) => UpdateOk(s.workers, id, None);
      case Crash =>
    }
  }

  lemma StepKeepsInv(s: State, ev: Event)
    requires Inv(s)
    ensures Inv(Do(s, ev))
  {
    var t := Do(s, ev);
    forall k | k in t.published
      ensures IsVersion(t.published[k], k.version)
    {
      StepPublished(s, ev, k);
    }
    StepWorkers(s, ev);
  }

  lemma {:induction false} RunKeepsInv(s: State, evs: seq<Event>)
    requires Inv(s)
    ensures Inv(Run(s, evs))
    decreases |evs|
  {
    if evs != [] {
      RunKeepsInv(s, evs[..|evs| - 1]);
      StepKeepsInv(Run(s, evs[..|evs| - 1]), evs[|evs| - 1]);
    }
  }

  /**
    Immutable publication: in every run of retentions, failures, races and crashes, a version's
    directory is absent or is exactly what its manifest says.
   */
  lemma PublishedIsExact(evs: seq<Event>, k: Key)
    requires k in Run(START, evs).published
    ensures IsVersion(Run(START, evs).published[k], k.version)
  {
    RunKeepsInv(START, evs);
  }

  /** And once it is there it never changes. */
  lemma {:induction false} PublishedIsForever(s: State, evs: seq<Event>, k: Key)
    requires Inv(s) && k in s.published
    ensures k in Run(s, evs).published && Run(s, evs).published[k] == s.published[k]
    decreases |evs|
  {
    if evs != [] {
      PublishedIsForever(s, evs[..|evs| - 1], k);
      RunKeepsInv(s, evs[..|evs| - 1]);
      StepPublished(Run(s, evs[..|evs| - 1]), evs[|evs| - 1], k);
    }
  }
}
