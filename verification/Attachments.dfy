/** The durable attachment store and its disposable worktree projections. */
module Attachments {
  import opened Names
  import opened AttachmentNames
  import FileTree

  type Bytes = FileTree.Bytes

  const MAX_FILE_BYTES := 10485760

  /** A directory entry: only regular files are ever read. */
  datatype Entry = Regular(content: Bytes) | Symlink | Directory

  type Listing = map<string, Entry>

  /**
    The attachments directory under one container of a worktree. Linked when a step on the way is a
    link to a directory inside the worktree; Blocked when one leads outside or is no directory.
   */
  datatype Shelf = Missing | Blocked | Linked(entries: Listing) | Shelf(entries: Listing)

  datatype Result = Done | Invalid | Empty | TooLarge | Exists | Failed | RollbackFailed

  function On(shelf: Shelf): Listing {
    if shelf.Shelf? || shelf.Linked? then shelf.entries else map[]
  }

  /** The same shelf with other entries; a missing one is made. */
  function WithEntries(shelf: Shelf, entries: Listing): Shelf {
    if shelf.Linked? then Linked(entries) else Shelf(entries)
  }

  /** Whether openChildDir goes in: it follows no link, while writing through os.Root does. */
  predicate Enterable(shelf: Shelf) {
    shelf.Missing? || shelf.Shelf?
  }

  class Worktree {
    var path: string
    var present: bool
    var kennel: Shelf
    var legacy: Shelf
  }

  /** What openRegularFile opens. */
  predicate Readable(e: Entry) {
    e.Regular? && 0 < |e.content| <= MAX_FILE_BYTES
  }

  /** Which names are attachments: ValidAttachment, wherever its details do not matter. */
  type Accepts = string -> bool

  predicate Importable(accepts: Accepts, name: string, e: Entry) {
    accepts(name) && Readable(e)
  }

  /** What import and materialize copy out of a listing. */
  function Projectable(accepts: Accepts, l: Listing): Listing {
    map n | n in l && Importable(accepts, n, l[n]) :: l[n]
  }

  /** Nothing under these names can be imported. */
  predicate Barren(accepts: Accepts, l: Listing, names: set<string>) {
    forall n {:trigger Importable(accepts, n, l[n])} :: n in names && n in l ==> !Importable(accepts, n, l[n])
  }

  /** What is already canonical wins. */
  function Imported(accepts: Accepts, held: Listing, source: Listing): Listing {
    Projectable(accepts, source) + held
  }

  /** The current container first, then the legacy one. */
  function ImportedBoth(accepts: Accepts, held: Listing, kennel: Listing, legacy: Listing): Listing {
    Imported(accepts, Imported(accepts, held, kennel), legacy)
  }

  function Only(l: Listing, names: set<string>): Listing {
    map n | n in l && n in names :: l[n]
  }

  /** Every entry is an eligible file under a valid name. */
  predicate Canonical(accepts: Accepts, held: Listing) {
    forall n {:trigger Importable(accepts, n, held[n])} :: n in held ==> Importable(accepts, n, held[n])
  }

  predicate Grows(before: Listing, after: Listing) {
    forall n :: n in before ==> n in after && after[n] == before[n]
  }

  type Sessions = map<string, Listing>

  function HeldIn(sessions: Sessions, id: string): Listing {
    if id in sessions then sessions[id] else map[]
  }

  ghost predicate AllCanonical(accepts: Accepts, sessions: Sessions) {
    forall id {:trigger Canonical(accepts, sessions[id])} :: id in sessions ==> Canonical(accepts, sessions[id])
  }

  /** Only this session's listing may differ. */
  ghost predicate OnlyAt(before: Sessions, after: Sessions, id: string) {
    forall other :: other != id ==> HeldIn(after, other) == HeldIn(before, other)
  }

  lemma AddThenRemove(l: Listing, name: string, e: Entry)
    requires name !in l
    ensures l[name := e] - {name} == l
  {
  }

  lemma ChangeKeepsCanonical(accepts: Accepts, held: Listing, name: string, e: Entry)
    requires Canonical(accepts, held)
    ensures Importable(accepts, name, e) ==> Canonical(accepts, held[name := e])
    ensures Canonical(accepts, held - {name})
  {
    forall n | n in held
      ensures Importable(accepts, n, held[n])
    {
    }
  }

  lemma UpdateKeepsCanonical(accepts: Accepts, sessions: Sessions, id: string, held: Listing)
    requires AllCanonical(accepts, sessions) && Canonical(accepts, held)
    ensures AllCanonical(accepts, sessions[id := held]) && OnlyAt(sessions, sessions[id := held], id)
  {
  }

  /** Whether Put's own checks let it start writing. */
  predicate Admissible(accepts: Accepts, id: string, name: string, data: Bytes, path: string, dataDir: string) {
    ValidSession(id) && accepts(name) && Readable(Regular(data)) && TrimSpace(path) != "" && dataDir != ""
  }

  class Store {
    const dataDir: string
    const reliable: bool
    const accepts: Accepts
    var sessions: Sessions

    ghost function Held(id: string): Listing
      reads this
    {
      HeldIn(sessions, id)
    }

    ghost predicate Valid()
      reads this
    {
      AllCanonical(accepts, sessions)
    }

    constructor (dataDir: string, reliable: bool)
      ensures Valid() && sessions == map[] && this.reliable == reliable && accepts == ValidAttachment
      ensures this.dataDir == if TrimSpace(dataDir) == "" then "" else dataDir
    {
      this.dataDir := if TrimSpace(dataDir) == "" then "" else dataDir;
      this.reliable := reliable;
      accepts := ValidAttachment;
      sessions := map[];
    }

    /** Cancellation and I/O errors. */
    method Fails() returns (b: bool)
      ensures reliable ==> !b
    {
      if reliable {
        return false;
      }
      b := *;
    }

    /** openCanonicalSession with create: the session's directory exists afterwards. */
    method OpenSession(id: string) returns (ok: bool)
      requires Valid()
      modifies this`sessions
      ensures Valid() && Held(id) == old(Held(id)) && OnlyAt(old(sessions), sessions, id)
      ensures ok ==> id in sessions && dataDir != ""
      ensures reliable && dataDir != "" ==> ok
    {
      if dataDir == "" {
        return false;
      }
      var failed := Fails();
      if failed {
        return false;
      }
      if id !in sessions {
        sessions := sessions[id := map[]];
      }
      return true;
    }

    /** writeReaderAtomicRoot without replace: a hard link commits, and never over an existing name. */
    method Link(id: string, name: string, data: Bytes) returns (r: Result)
      requires Valid() && id in sessions && accepts(name)
      modifies this`sessions
      ensures Valid() && r in {Done, Empty, TooLarge, Exists, Failed}
      ensures OnlyAt(old(sessions), sessions, id) && id in sessions
      ensures Held(id) == if r == Done then old(Held(id))[name := Regular(data)] else old(Held(id))
      ensures r == Done ==> name !in old(Held(id))
      ensures r == Done ==> Readable(Regular(data))
      ensures r in {Empty, TooLarge} ==> !Readable(Regular(data))
      ensures (r == Empty ==> data == []) && (r == TooLarge ==> |data| > 10485760)
      ensures r == Exists ==> name in old(Held(id))
      ensures reliable ==> r != Failed
    {
      var failed := Fails();
      if failed {
        return Failed;
      }
      if data == [] {
        return Empty;
      }
      if |data| > MAX_FILE_BYTES {
        return TooLarge;
      }
      if name in sessions[id] {
        return Exists;
      }
      assert Canonical(accepts, sessions[id]);
      ChangeKeepsCanonical(accepts, sessions[id], name, Regular(data));
      UpdateKeepsCanonical(accepts, sessions, id, sessions[id][name := Regular(data)]);
      sessions := sessions[id := sessions[id][name := Regular(data)]];
      return Done;
    }

    /** writeReaderAtomicUnder the worktree's own container. */
    method Project(w: Worktree, name: string, data: Bytes, replace: bool) returns (ok: bool)
      requires Readable(Regular(data))
      modifies w`kennel
      ensures ok ==> !old(w.kennel).Blocked? && w.kennel == WithEntries(old(w.kennel), On(old(w.kennel))[name := Regular(data)])
      ensures !ok ==> On(w.kennel) == On(old(w.kennel)) && (w.kennel.Blocked? <==> old(w.kennel).Blocked?)
      ensures ok && !replace ==> name !in On(old(w.kennel))
      ensures ok ==> w.present
      ensures reliable ==> (ok <==> CanProject(w.present, old(w.kennel), name, replace))
    {
      var failed := Fails();
      if failed || !w.present || w.kennel.Blocked? {
        return false;
      }
      if w.kennel.Missing? {
        w.kennel := Shelf(map[]);
      }
      if name in w.kennel.entries && (!replace || w.kennel.entries[name].Directory?) {
        return false;
      }
      w.kennel := WithEntries(w.kennel, w.kennel.entries[name := Regular(data)]);
      return true;
    }

    /** The rollback of a canonical copy. */
    method TakeBack(id: string, name: string) returns (ok: bool)
      requires Valid() && id in sessions
      modifies this`sessions
      ensures Valid() && OnlyAt(old(sessions), sessions, id)
      ensures Held(id) == if ok then old(Held(id)) - {name} else old(Held(id))
      ensures reliable ==> ok
    {
      var failed := Fails();
      if failed {
        return false;
      }
      assert Canonical(accepts, sessions[id]);
      ChangeKeepsCanonical(accepts, sessions[id], name, Symlink);
      UpdateKeepsCanonical(accepts, sessions, id, sessions[id] - {name});
      sessions := sessions[id := sessions[id] - {name}];
      return true;
    }

    /** The canonical copy first, then the projection; a failed projection takes the copy back. */
    method Commit(id: string, w: Worktree, name: string, data: Bytes) returns (r: Result)
      requires Valid() && accepts(name) && Readable(Regular(data)) && dataDir != ""
      modifies this`sessions, w`kennel
      ensures Valid() && OnlyAt(old(sessions), sessions, id)
      ensures r in {Done, RollbackFailed} ==>
        name !in old(Held(id)) && Held(id) == old(Held(id))[name := Regular(data)]
      ensures r !in {Done, RollbackFailed} ==> Held(id) == old(Held(id))
      ensures On(w.kennel) == if r == Done then On(old(w.kennel))[name := Regular(data)] else On(old(w.kennel))
      ensures r !in {Invalid, Empty, TooLarge} && (r == Exists ==> name in old(Held(id)))
      ensures reliable && name in old(Held(id)) ==> r == Exists
      ensures reliable ==> r != RollbackFailed
      ensures reliable ==> (r == Done <==> name !in old(Held(id)) && CanProject(w.present, old(w.kennel), name, false))
    {
      var ready := OpenSession(id);
      if !ready {
        return Failed;
      }
      ghost var before := sessions;
      r := Link(id, name, data);
      if r != Done {
        return;
      }
      var projected := Project(w, name, data, false);
      if !projected {
        AddThenRemove(before[id], name, Regular(data));
        var undone := TakeBack(id, name);
        return if undone then Failed else RollbackFailed;
      }
    }

    method Put(id: string, w: Worktree, name: string, data: Bytes) returns (r: Result)
      requires Valid()
      modifies this`sessions, w`kennel
      ensures Valid() && OnlyAt(old(sessions), sessions, id)
      ensures r in {Done, RollbackFailed} ==>
        name !in old(Held(id)) && Held(id) == old(Held(id))[name := Regular(data)]
      ensures r !in {Done, RollbackFailed} ==> Held(id) == old(Held(id))
      ensures On(w.kennel) == if r == Done then On(old(w.kennel))[name := Regular(data)] else On(old(w.kennel))
      ensures r == Invalid ==> !ValidSession(id) || !accepts(name) || TrimSpace(w.path) == "" || dataDir == ""
      ensures (r == Empty ==> data == []) && (r == TooLarge ==> |data| > 10485760) && (r == Done ==> 0 < |data| <= 10485760)
      ensures r == Exists ==> name in old(Held(id))
      ensures reliable && (!ValidSession(id) || !accepts(name)) ==> r == Invalid
      ensures reliable && ValidSession(id) && accepts(name) ==> (r == Empty <==> data == []) && (r == TooLarge <==> |data| > 10485760)
      ensures reliable && Admissible(accepts, id, name, data, w.path, dataDir) ==> (r == Exists <==> name in old(Held(id)))
      ensures reliable ==> r != RollbackFailed
      ensures reliable ==>
        (r == Done <==>
          Admissible(accepts, id, name, data, w.path, dataDir) && name !in old(Held(id)) &&
          CanProject(w.present, old(w.kennel), name, false))
    {
      var cancelled := Fails();
      if cancelled {
        return Failed;
      }
      if !ValidSession(id) || !accepts(name) {
        return Invalid;
      }
      if data == [] {
        return Empty;
      }
      if |data| > MAX_FILE_BYTES {
        return TooLarge;
      }
      if TrimSpace(w.path) == "" || dataDir == "" {
        return Invalid;
      }
      r := Commit(id, w, name, data);
    }

    /** One entry of a container: skipped, or copied unless its name is already canonical. */
    method ImportEntry(id: string, name: string, e: Entry) returns (ok: bool)
      requires Valid()
      modifies this`sessions
      ensures Valid() && OnlyAt(old(sessions), sessions, id)
      ensures ok ==> Held(id) == Imported(accepts, old(Held(id)), map[name := e])
      ensures !ok ==> Held(id) == old(Held(id))
      ensures !Importable(accepts, name, e) ==> sessions == old(sessions)
      ensures reliable ==> (ok <==> dataDir != "" || !Importable(accepts, name, e))
    {
      ImportOne(accepts, Held(id), name, e);
      var failed := Fails();
      if failed {
        return false;
      }
      if e.Symlink? || !accepts(name) || !Readable(e) {
        return true;
      }
      var ready := OpenSession(id);
      if !ready {
        return false;
      }
      var r := Link(id, name, e.content);
      return r != Failed;
    }

    /** The next entry of a container, after some are done. */
    method ImportNext(id: string, l: Listing, done: set<string>, name: string, ghost held: Listing) returns (ok: bool)
      requires Valid() && name in l && Held(id) == Imported(accepts, held, Only(l, done))
      modifies this`sessions
      ensures Valid() && OnlyAt(old(sessions), sessions, id)
      ensures Held(id) == if ok then Imported(accepts, held, Only(l, done + {name})) else old(Held(id))
      ensures !Importable(accepts, name, l[name]) ==> sessions == old(sessions)
      ensures reliable ==> (ok <==> dataDir != "" || !Importable(accepts, name, l[name]))
    {
      ImportMore(accepts, held, l, done, name);
      ok := ImportEntry(id, name, l[name]);
    }

    /** The container's entries in any order; on an error the rest are left. */
    method ImportEntries(id: string, l: Listing) returns (ok: bool, done: set<string>)
      requires Valid()
      modifies this`sessions
      ensures Valid() && OnlyAt(old(sessions), sessions, id)
      ensures Held(id) == Imported(accepts, old(Held(id)), Only(l, done)) && (ok ==> done == l.Keys)
      ensures Barren(accepts, l, l.Keys) ==> sessions == old(sessions)
      ensures reliable && dataDir != "" ==> ok
      ensures reliable && dataDir == "" ==> (ok <==> Barren(accepts, l, l.Keys))
    {
      ghost var held := Held(id);
      var rest := l.Keys;
      done := {};
      PartGrows(accepts, held, l, done);
      while rest != {}
        invariant rest <= l.Keys && done == l.Keys - rest
        invariant Valid() && OnlyAt(old(sessions), sessions, id)
        invariant Held(id) == Imported(accepts, held, Only(l, done))
        invariant Barren(accepts, l, l.Keys) ==> sessions == old(sessions)
        invariant reliable && dataDir == "" ==> Barren(accepts, l, done)
      {
        var name :| name in rest;
        ok := ImportNext(id, l, done, name, held);
        if !ok {
          return;
        }
        rest := rest - {name};
        done := done + {name};
      }
      return true, done;
    }

    /** importWorkspaceContainer. */
    method ImportContainer(id: string, shelf: Shelf) returns (ok: bool)
      requires Valid()
      modifies this`sessions
      ensures Valid() && OnlyAt(old(sessions), sessions, id)
      ensures ok ==> Held(id) == Imported(accepts, old(Held(id)), On(shelf))
      ensures Grows(old(Held(id)), Held(id)) && Grows(Held(id), Imported(accepts, old(Held(id)), On(shelf)))
      ensures Barren(accepts, On(shelf), On(shelf).Keys) ==> sessions == old(sessions)
      ensures reliable ==> (ok <==> Enterable(shelf) && (dataDir != "" || Barren(accepts, On(shelf), On(shelf).Keys)))
    {
      PartGrows(accepts, Held(id), On(shelf), {});
      assert Imported(accepts, Held(id), Only(On(shelf), {})) == Held(id);
      var failed := Fails();
      if failed || !Enterable(shelf) {
        return false;
      }
      var done;
      ok, done := ImportEntries(id, On(shelf));
      PartGrows(accepts, old(Held(id)), On(shelf), done);
    }

    /** ImportWorkspace: the last chance to rescue bytes before a worktree is deleted. */
    method ImportWorkspace(id: string, w: Worktree) returns (ok: bool)
      requires Valid()
      modifies this`sessions
      ensures Valid() && OnlyAt(old(sessions), sessions, id)
      ensures ok ==> Held(id) == if w.present then ImportedBoth(accepts, old(Held(id)), On(w.kennel), On(w.legacy)) else old(Held(id))
      ensures Grows(old(Held(id)), Held(id))
      ensures Grows(Held(id), ImportedBoth(accepts, old(Held(id)), On(w.kennel), On(w.legacy)))
      ensures reliable ==>
        (ok <==>
          ValidSession(id) && TrimSpace(w.path) != "" &&
          (w.present ==> CanImport(accepts, w.kennel, dataDir) && CanImport(accepts, w.legacy, dataDir)))
    {
      ghost var held := Held(id);
      BothGrow(accepts, held, held, On(w.kennel), On(w.legacy));
      var cancelled := Fails();
      if cancelled || !ValidSession(id) || TrimSpace(w.path) == "" {
        return false;
      }
      if !w.present {
        return true;
      }
      ok := ImportContainer(id, w.kennel);
      BothGrow(accepts, held, Held(id), On(w.kennel), On(w.legacy));
      if !ok {
        return;
      }
      ok := ImportContainer(id, w.legacy);
    }

    /** One canonical entry projected, over whatever file or link the worktree has there. */
    method MaterializeEntry(w: Worktree, name: string, e: Entry) returns (wrote: bool, ok: bool)
      modifies w`kennel
      ensures wrote ==> ok && Importable(accepts, name, e)
      ensures wrote ==> On(w.kennel) == On(old(w.kennel))[name := e] && !w.kennel.Blocked? && !old(w.kennel).Blocked?
      ensures !wrote ==> On(w.kennel) == On(old(w.kennel)) && (w.kennel.Blocked? <==> old(w.kennel).Blocked?)
      ensures ok && !wrote ==> !Importable(accepts, name, e)
      ensures reliable ==> (ok <==> (Importable(accepts, name, e) ==> CanProject(w.present, old(w.kennel), name, true)))
    {
      var failed := Fails();
      if failed {
        return false, false;
      }
      if e.Symlink? || !accepts(name) || !Readable(e) {
        return false, true;
      }
      ok := Project(w, name, e.content, true);
      wrote := ok;
    }

    /** MaterializeWorkspace. */
    method MaterializeWorkspace(id: string, w: Worktree) returns (wrote: bool, ok: bool, ghost done: set<string>)
      requires Valid()
      modifies w`kennel
      ensures ok && dataDir != "" ==>
        On(w.kennel) == On(old(w.kennel)) + Held(id) && (wrote <==> Held(id) != map[])
      ensures dataDir == "" ==> On(w.kennel) == On(old(w.kennel)) && !wrote
      ensures On(w.kennel) == On(old(w.kennel)) + Only(Held(id), done)
      ensures reliable && ValidSession(id) && TrimSpace(w.path) != "" && CanHold(w.present, old(w.kennel), Held(id)) ==> ok
    {
      NothingMore(On(w.kennel), Held(id));
      done := {};
      var cancelled := Fails();
      if cancelled || TrimSpace(w.path) == "" {
        return false, false, done;
      }
      if dataDir == "" {
        return false, true, done;
      }
      if !ValidSession(id) {
        return false, false, done;
      }
      if id !in sessions {
        return false, true, done;
      }
      ghost var shelf := On(w.kennel);
      var l := sessions[id];
      assert Canonical(accepts, l);
      var rest := l.Keys;
      wrote := false;
      while rest != {}
        invariant rest <= l.Keys && done == l.Keys - rest
        invariant On(w.kennel) == shelf + Only(l, done)
        invariant wrote <==> done != {}
        invariant w.kennel.Blocked? <==> old(w.kennel).Blocked?
      {
        var name :| name in rest;
        assert Importable(accepts, name, l[name]);
        OneMore(shelf, l, done, name);
        var copied;
        copied, ok := MaterializeEntry(w, name, l[name]);
        if !ok {
          return false, false, done;
        }
        wrote := true;
        rest := rest - {name};
        done := done + {name};
      }
      assert Only(l, done) == l;
      return wrote, true, done;
    }
  }

  /** Whether one container can be imported from: one that is projected into through a link cannot. */
  predicate CanImport(accepts: Accepts, shelf: Shelf, dataDir: string) {
    Enterable(shelf) && (dataDir != "" || Barren(accepts, On(shelf), On(shelf).Keys))
  }

  /** Whether every canonical file can be put on the worktree's shelf. */
  predicate CanHold(present: bool, shelf: Shelf, held: Listing) {
    held == map[] || (present && !shelf.Blocked? && forall n :: n in held && n in On(shelf) ==> !On(shelf)[n].Directory?)
  }

  lemma NothingMore(shelf: Listing, l: Listing)
    ensures shelf == shelf + Only(l, {})
  {
  }

  lemma OneMore(shelf: Listing, l: Listing, done: set<string>, name: string)
    requires name in l
    ensures (shelf + Only(l, done))[name := l[name]] == shelf + Only(l, done + {name})
  {
  }

  /** Between nothing and everything the two containers offer. */
  lemma BothGrow(accepts: Accepts, held: Listing, now: Listing, kennel: Listing, legacy: Listing)
    requires Grows(now, Imported(accepts, held, kennel))
    ensures Grows(now, ImportedBoth(accepts, held, kennel, legacy))
  {
  }

  /** Importing part of a container loses nothing held and adds nothing the whole would not. */
  lemma PartGrows(accepts: Accepts, held: Listing, l: Listing, done: set<string>)
    ensures Grows(held, Imported(accepts, held, Only(l, done)))
    ensures Grows(Imported(accepts, held, Only(l, done)), Imported(accepts, held, l))
    ensures Only(l, l.Keys) == l && Imported(accepts, held, Only(l, {})) == held
  {
  }

  lemma ImportOne(accepts: Accepts, held: Listing, name: string, e: Entry)
    ensures Imported(accepts, held, map[name := e]) ==
      if name in held || !Importable(accepts, name, e) then held else held[name := e]
  {
  }

  lemma ImportMore(accepts: Accepts, held: Listing, l: Listing, done: set<string>, name: string)
    requires name in l
    ensures Imported(accepts, Imported(accepts, held, Only(l, done)), map[name := l[name]]) ==
      Imported(accepts, held, Only(l, done + {name}))
  {
    ImportOne(accepts, Imported(accepts, held, Only(l, done)), name, l[name]);
    var before := Projectable(accepts, Only(l, done));
    assert Projectable(accepts, Only(l, done + {name})) ==
      if Importable(accepts, name, l[name]) then before[name := l[name]] else before;
  }

  /** Whether a file can be put on the worktree's shelf. */
  predicate CanProject(present: bool, shelf: Shelf, name: string, replace: bool) {
    present && !shelf.Blocked? && (name in On(shelf) ==> replace && !On(shelf)[name].Directory?)
  }
}
