/** What attachment history is for: bytes written once, carried from worktree to worktree. */
module AttachmentHistory {
  import opened Names
  import opened AttachmentNames
  import opened Attachments

  /** What an import leaves: canonical bytes first, then the current container's, then the legacy one's. */
  lemma ImportPrecedence(accepts: Accepts, held: Listing, kennel: Listing, legacy: Listing, name: string)
    ensures var all := ImportedBoth(accepts, held, kennel, legacy);
      && (name in all <==>
            name in held || (name in kennel && Importable(accepts, name, kennel[name])) ||
            (name in legacy && Importable(accepts, name, legacy[name])))
      && (name in held ==> all[name] == held[name])
      && (name !in held && name in kennel && Importable(accepts, name, kennel[name]) ==> all[name] == kennel[name])
      && (name in all && name !in held && !(name in kennel && Importable(accepts, name, kennel[name])) ==> all[name] == legacy[name])
  {
  }

  /** Importing the same worktree again changes nothing. */
  lemma ImportIsIdempotent(accepts: Accepts, held: Listing, kennel: Listing, legacy: Listing)
    ensures var once := ImportedBoth(accepts, held, kennel, legacy);
      ImportedBoth(accepts, once, kennel, legacy) == once
  {
  }

  lemma OntoEmpty(l: Listing)
    ensures map[] + l == l
  {
  }

  predicate ReadyToCarry(accepts: Accepts, id: string, leaving: Worktree, arriving: Worktree, dataDir: string)
    reads leaving, arriving
  {
    ValidSession(id) && TrimSpace(leaving.path) != "" && TrimSpace(arriving.path) != "" && arriving.present &&
    CanImport(accepts, leaving.kennel, dataDir) && CanImport(accepts, leaving.legacy, dataDir)
  }

  /**
    Teardown and restore: import out of a worktree that is about to go, then materialize into a new
    one. The new worktree has, for every name, canonical bytes if there were any, else the current
    container's, else the legacy container's.
   */
  method CarryOver(store: Store, id: string, leaving: Worktree, arriving: Worktree) returns (ok: bool)
    requires store.Valid() && leaving != arriving && leaving.present
    requires arriving.kennel.Missing?
    modifies store`sessions, arriving`kennel
    ensures store.Valid() && OnlyAt(old(store.sessions), store.sessions, id)
    ensures Grows(old(store.Held(id)), store.Held(id))
    ensures ok && store.dataDir != "" ==>
      On(arriving.kennel) == ImportedBoth(store.accepts, old(store.Held(id)), On(leaving.kennel), On(leaving.legacy)) == store.Held(id)
    ensures store.reliable && ReadyToCarry(store.accepts, id, leaving, arriving, store.dataDir) ==> ok
  {
    ok := store.ImportWorkspace(id, leaving);
    if !ok {
      return;
    }
    OntoEmpty(store.Held(id));
    assert On(arriving.kennel) == map[];
    var wrote;
    ghost var done;
    wrote, ok, done := store.MaterializeWorkspace(id, arriving);
  }

  // ---------- whole histories ----------

  datatype Op =
    | Put(w: Worktree, id: string, name: string, data: Bytes)
    | Import(w: Worktree, id: string)
    | Materialize(w: Worktree, id: string)
    | Tamper(w: Worktree, present: bool, kennel: Shelf, legacy: Shelf)

  ghost predicate AllGrow(before: Sessions, after: Sessions) {
    forall id :: Grows(HeldIn(before, id), HeldIn(after, id))
  }

  lemma GrowthChains(a: Sessions, b: Sessions, c: Sessions, id: string)
    requires AllGrow(a, b) && OnlyAt(b, c, id) && Grows(HeldIn(b, id), HeldIn(c, id))
    ensures AllGrow(a, c)
  {
    forall other
      ensures Grows(HeldIn(a, other), HeldIn(c, other))
    {
      assert Grows(HeldIn(a, other), HeldIn(b, other));
    }
  }

  /**
    Whatever is put, imported and materialized in whatever order, whichever of it fails, and whatever
    agents do to their worktrees meanwhile, bytes that were canonical once stay so unchanged.
   */
  method History(store: Store, ops: seq<Op>, trees: set<Worktree>)
    requires store.Valid() && forall op :: op in ops ==> op.w in trees
    modifies store`sessions, trees
    ensures store.Valid() && AllGrow(old(store.sessions), store.sessions)
  {
    var i := 0;
    while i < |ops|
      invariant 0 <= i <= |ops|
      invariant store.Valid() && AllGrow(old(store.sessions), store.sessions)
    {
      var op := ops[i];
      assert op.w in trees;
      ghost var before := store.sessions;
      match op {
        case Put(w, id, name, data) =>
          var r := store.Put(id, w, name, data);
          GrowthChains(old(store.sessions), before, store.sessions, id);
        case Import(w, id) =>
          var ok := store.ImportWorkspace(id, w);
          GrowthChains(old(store.sessions), before, store.sessions, id);
        case Materialize(w, id) =>
          var wrote, ok;
          ghost var done;
          wrote, ok, done := store.MaterializeWorkspace(id, w);
        case Tamper(w, present, kennel, legacy) =>
          w.present, w.kennel, w.legacy := present, kennel, legacy;
      }
      i := i + 1;
    }
  }
}
