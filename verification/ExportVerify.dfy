/** Deciding from a destination alone whether it holds exactly one authorized delivery. */
module ExportVerify {
  import opened Options
  import opened Names
  import opened FileTree
  import opened Resolution
  import opened Receipts

  const MANIFEST_NAME: string := "KENNEL-EXPORT.json"

  datatype Disposition = Accepted | Draft

  datatype ExportManifest = ExportManifest(
    attempt: string,
    outcome: string,
    version: Version,
    disposition: Disposition,
    contractRevisionNumber: int,
    contractRevisionId: string,
    acceptanceDecisionId: string,
    exportedAt: int,
    files: seq<ArtifactFile>)

  /** The JSON encoding of a manifest. */
  datatype Codec = Codec(encode: ExportManifest -> Bytes, decode: Bytes -> Option<ExportManifest>)

  ghost predicate Lossless(c: Codec) {
    forall m :: c.decode(c.encode(m)) == Some(m)
  }

  /** The authorized delivery a destination is checked against. */
  datatype Authorized = Authorized(receipt: Receipt, contractRevisionId: string, acceptanceDecisionId: string, draft: bool)

  datatype Verification = Verified | Absent | Mismatch | Unreadable

  // ---------- The manifest ----------

  /** manifestIdentityMismatch found nothing. */
  predicate SameIdentity(m: ExportManifest, req: Authorized) {
    m.attempt == req.receipt.attempt &&
    m.outcome == req.receipt.outcome &&
    m.version == req.receipt.version &&
    m.disposition == (if req.draft then Draft else Accepted) &&
    m.contractRevisionId == req.contractRevisionId &&
    m.acceptanceDecisionId == req.acceptanceDecisionId &&
    m.contractRevisionNumber == req.receipt.contractRevision
  }

  predicate SameResult(a: ArtifactFile, b: ArtifactFile) {
    a.path == b.path && a.digest == b.digest && a.kind == b.kind
  }

  /** The last entry for a path, which is the one a map built from the list keeps. */
  function LastFor(files: seq<ArtifactFile>, path: string): (r: Option<ArtifactFile>)
    ensures r.Some? ==> r.value in files && r.value.path == path
    ensures r.None? ==> forall f :: f in files ==> f.path != path
  {
    if files == [] then None
    else
      var n := |files| - 1;
      assert forall f :: f in files <==> f in files[..n] || f == files[n];
      if files[n].path == path then Some(files[n]) else LastFor(files[..n], path)
  }

  predicate Recorded(manifest: seq<ArtifactFile>, f: ArtifactFile) {
    var found := LastFor(manifest, f.path);
    found.Some? && SameResult(found.value, f)
  }

  /** manifestFileSetMismatch found nothing: equal lengths, and a one-way lookup. */
  predicate SameFileSet(manifest: seq<ArtifactFile>, files: seq<ArtifactFile>) {
    |manifest| == |files| && forall f :: f in files ==> Recorded(manifest, f)
  }

  /** manifestFileSetMismatch: fills the recorded map, then looks every retained file up. */
  method CheckFileSet(manifest: seq<ArtifactFile>, files: seq<ArtifactFile>) returns (same: bool)
    ensures same <==> SameFileSet(manifest, files)
  {
    if |manifest| != |files| {
      return false;
    }
    var recorded: map<string, ArtifactFile> := map[];
    var i := 0;
    while i < |manifest|
      invariant 0 <= i <= |manifest|
      invariant forall p :: (p in recorded <==> LastFor(manifest[..i], p).Some?) &&
                            (p in recorded ==> LastFor(manifest[..i], p) == Some(recorded[p]))
    {
      assert manifest[..i + 1][..i] == manifest[..i];
      recorded := recorded[manifest[i].path := manifest[i]];
      i := i + 1;
    }
    assert manifest[..i] == manifest;
    i := 0;
    while i < |files|
      invariant 0 <= i <= |files|
      invariant forall j :: 0 <= j < i ==> Recorded(manifest, files[j])
    {
      var f := files[i];
      assert f in files;
      if f.path !in recorded || recorded[f.path].digest != f.digest || recorded[f.path].kind != f.kind {
        assert !Recorded(manifest, f);
        return false;
      }
      i := i + 1;
    }
    same := true;
  }

  /** A sequence without repeats that covers another of the same length repeats nothing there either. */
  lemma {:induction false} Pigeonhole(a: seq<string>, b: seq<string>)
    requires (forall i, j :: 0 <= i < j < |a| ==> a[i] != a[j]) && |a| >= |b| && forall x :: x in a ==> x in b
    ensures |a| == |b| && (forall i, j :: 0 <= i < j < |b| ==> b[i] != b[j]) && forall x :: x in b ==> x in a
    decreases |a|
  {
    if a == [] {
    } else {
      var n := |a| - 1;
      assert a[n] in b;
      var k :| 0 <= k < |b| && b[k] == a[n];
      var rest := b[..k] + b[k + 1..];
      assert b == b[..k] + [b[k]] + b[k + 1..];
      forall x | x in a[..n]
        ensures x in rest
      {
        assert x in b && x != b[k];
      }
      Pigeonhole(a[..n], rest);
      forall i, j | 0 <= i < j < |b|
        ensures b[i] != b[j]
      {
        assert a[n] !in a[..n];
        assert forall x :: x in rest ==> x != b[k];
        if i != k && j != k {
          var i', j' := if i < k then i else i - 1, if j < k then j else j - 1;
          assert rest[i'] == b[i] && rest[j'] == b[j];
        } else if i == k {
          assert b[j] in b[k + 1..];
        } else {
          assert b[i] in b[..k];
        }
      }
      forall x | x in b
        ensures x in a
      {
        assert x == b[k] || x in rest;
        assert a[n] in a;
      }
    }
  }

  /**
    Equal lengths and a one-way lookup are enough: with distinct retained paths the manifest lists
    each of them exactly once, with its digest and change kind, and lists nothing else.
   */
  lemma SameFileSetIsBijection(manifest: seq<ArtifactFile>, files: seq<ArtifactFile>)
    requires DistinctPaths(files) && SameFileSet(manifest, files)
    ensures DistinctPaths(manifest)
    ensures forall f :: f in files ==> exists g :: g in manifest && SameResult(g, f)
    ensures forall g :: g in manifest ==> exists f :: f in files && SameResult(g, f)
  {
    var a, b := PathsOf(files), PathsOf(manifest);
    forall x | x in a
      ensures x in b
    {
      var i :| 0 <= i < |a| && a[i] == x;
      assert Recorded(manifest, files[i]);
      var g := LastFor(manifest, x).value;
      var j :| 0 <= j < |manifest| && manifest[j] == g;
      assert b[j] == x;
    }
    Pigeonhole(a, b);
    assert DistinctPaths(manifest) by {
      assert forall i :: 0 <= i < |manifest| ==> b[i] == manifest[i].path;
    }
    forall f | f in files
      ensures exists g :: g in manifest && SameResult(g, f)
    {
      assert Recorded(manifest, f);
      var g := LastFor(manifest, f.path).value;
      assert g in manifest && SameResult(g, f);
    }
    forall g | g in manifest
      ensures exists f :: f in files && SameResult(g, f)
    {
      var j :| 0 <= j < |manifest| && manifest[j] == g;
      assert b[j] in a;
      var i :| 0 <= i < |files| && a[i] == g.path;
      assert Recorded(manifest, files[i]);
      var h := LastFor(manifest, g.path).value;
      var k :| 0 <= k < |manifest| && manifest[k] == h;
      assert b[k] == b[j];
      assert files[i] in files && SameResult(g, files[i]);
    }
  }

  /** Entries for one path do not contradict each other. */
  ghost predicate Coherent(files: seq<ArtifactFile>) {
    forall f, g :: f in files && g in files && f.path == g.path ==> f.digest == g.digest && f.kind == g.kind
  }

  /** Distinct paths leave no room for contradictions. */
  lemma DistinctIsCoherent(files: seq<ArtifactFile>)
    requires DistinctPaths(files)
    ensures Coherent(files)
  {
    forall f, g | f in files && g in files && f.path == g.path
      ensures f == g
    {
      var i :| 0 <= i < |files| && files[i] == f;
      var j :| 0 <= j < |files| && files[j] == g;
    }
  }

  /** A manifest that repeats the retained list passes exactly when that list is coherent. */
  lemma OwnFileSet(files: seq<ArtifactFile>)
    ensures SameFileSet(files, files) <==> Coherent(files)
  {
    if SameFileSet(files, files) {
      forall f, g | f in files && g in files && f.path == g.path
        ensures f.digest == g.digest && f.kind == g.kind
      {
        assert Recorded(files, f) && Recorded(files, g);
      }
    }
  }

  // ---------- The files ----------

  /** Paths that cannot be looked at, or opened: I/O errors and cancellation. */
  datatype Faults = Faults(look: set<Path>, open: set<Path>)

  const NO_FAULTS := Faults({}, {})

  function LstatUnder(t: Tree, io: Faults, p: Path): Info
    requires WellFormed(t)
  {
    if p in io.look then Failed else Lstat(t, p)
  }

  function StatUnder(t: Tree, io: Faults, p: Path): Info
    requires WellFormed(t)
  {
    if p in io.open then Failed else Stat(t, p)
  }

  function ReadUnder(t: Tree, io: Faults, p: Path): ReadResult
    requires WellFormed(t)
  {
    if p in io.open then NoContent else ReadFile(t, p)
  }

  datatype Delivered = Body(bytes: Bytes) | Missing | NotPlainFile | LinkedComponent | ReadFailed

  /** readDeliveredFile, from its i-th segment on. */
  function ReadFrom(t: Tree, io: Faults, dest: Path, segs: Path, i: nat): Delivered
    requires WellFormed(t) && i <= |segs|
    decreases |segs| - i
  {
    if i == |segs| then
      match ReadUnder(t, io, dest + segs)
      case Content(c) => Body(c)
      case NoContent => ReadFailed
    else
      match LstatUnder(t, io, dest + segs[..i + 1])
      case NotExist => Missing
      case Failed => ReadFailed
      case Info(node) =>
        if node.Link? then LinkedComponent
        else if i == |segs| - 1 then if node.File? then ReadFrom(t, io, dest, segs, i + 1) else NotPlainFile
        else if node.Dir? then ReadFrom(t, io, dest, segs, i + 1)
        else NotPlainFile
  }

  /** readDeliveredFile: one segment at a time, refusing any link on the way. */
  method ReadDelivered(t: Tree, io: Faults, dest: Path, segs: Path) returns (r: Delivered)
    requires WellFormed(t) && segs != []
    ensures r == ReadFrom(t, io, dest, segs, 0)
  {
    var i, walked := 0, dest;
    while i < |segs|
      invariant 0 <= i <= |segs| && walked == dest + segs[..i]
      invariant ReadFrom(t, io, dest, segs, 0) == ReadFrom(t, io, dest, segs, i)
    {
      walked := walked + [segs[i]];
      assert walked == dest + segs[..i + 1];
      match LstatUnder(t, io, walked) {
        case NotExist => return Missing;
        case Failed => return ReadFailed;
        case Info(node) =>
          if node.Link? {
            return LinkedComponent;
          }
          if i == |segs| - 1 {
            if !node.File? {
              return NotPlainFile;
            }
          } else if !node.Dir? {
            return NotPlainFile;
          }
      }
      i := i + 1;
    }
    match ReadUnder(t, io, dest + segs) {
      case Content(c) => r := Body(c);
      case NoContent => r := ReadFailed;
    }
  }

  /** The physical directory a destination path leads to. */
  ghost predicate Leads(t: Tree, dest: Path, q: Path) {
    WellFormed(t) && Walk(t, [], dest, true, MAX_LINKS) == Found(q) && PhysicalDir(t, q)
  }

  /** f's content physically lies at q + segs, below real directories only. */
  ghost predicate Holding(t: Tree, q: Path, segs: Path, digest: Digest) {
    Clear(t, q, segs) && q + segs in t && t[q + segs].File? && Sha256(t[q + segs].content) == digest
  }

  /** The j-th name of the way down is a real directory that can be looked at. */
  ghost predicate Open(t: Tree, io: Faults, dest: Path, q: Path, segs: Path, j: nat)
    requires j <= |segs|
  {
    PhysicalDir(t, q + segs[..j]) && dest + segs[..j] !in io.look
  }

  ghost predicate OpenBelow(t: Tree, io: Faults, dest: Path, q: Path, segs: Path, k: nat)
    requires k <= |segs|
  {
    forall j: nat {:trigger Open(t, io, dest, q, segs, j)} :: 0 < j < k ==> Open(t, io, dest, q, segs, j)
  }

  /** A real file at the end of real directories, all of which can be looked at. */
  ghost predicate InView(t: Tree, io: Faults, dest: Path, q: Path, segs: Path) {
    OpenBelow(t, io, dest, q, segs, |segs|) && q + segs in t && t[q + segs].File? && dest + segs !in io.look
  }

  /** An I/O error is the first thing met on the way to the file, or on opening it. */
  ghost predicate Hidden(t: Tree, io: Faults, dest: Path, q: Path, segs: Path) {
    (exists k: nat {:trigger OpenBelow(t, io, dest, q, segs, k)} ::
       0 < k <= |segs| && OpenBelow(t, io, dest, q, segs, k) && dest + segs[..k] in io.look) ||
    (InView(t, io, dest, q, segs) && dest + segs in io.open)
  }

  /** The next name of the way down, all before it being open. */
  lemma LookNext(t: Tree, io: Faults, dest: Path, q: Path, segs: Path, i: nat)
    requires Leads(t, dest, q) && PlainSegments(segs) && i < |segs| && OpenBelow(t, io, dest, q, segs, i + 1)
    ensures var here := q + segs[..i + 1];
      Lstat(t, dest + segs[..i + 1]) == if here in t then Info(t[here]) else NotExist
  {
    var here := segs[..i + 1];
    forall k | 0 < k < |here|
      ensures DirIfPresent(t, q + here[..k])
    {
      assert here[..k] == segs[..k] && Open(t, io, dest, q, segs, k);
    }
    LookupThrough(t, dest, q, here, false);
  }

  lemma OpenFile(t: Tree, io: Faults, dest: Path, q: Path, segs: Path)
    requires Leads(t, dest, q) && segs != [] && PlainSegments(segs) && InView(t, io, dest, q, segs)
    ensures Clear(t, q, segs) && ReadFile(t, dest + segs) == Content(t[q + segs].content)
  {
    forall k | 0 < k < |segs|
      ensures DirIfPresent(t, q + segs[..k])
    {
      assert Open(t, io, dest, q, segs, k);
    }
    LookupThrough(t, dest, q, segs, true);
  }

  /** Nothing is hidden, and nothing in view, behind a name that is no open directory. */
  lemma ClosedEndsIt(t: Tree, io: Faults, dest: Path, q: Path, segs: Path, i: nat)
    requires i < |segs| && OpenBelow(t, io, dest, q, segs, i + 1) && dest + segs[..i + 1] !in io.look
    requires if i + 1 < |segs| then !PhysicalDir(t, q + segs[..i + 1]) else !(q + segs in t && t[q + segs].File?)
    ensures !InView(t, io, dest, q, segs) && !Hidden(t, io, dest, q, segs)
  {
    if i + 1 == |segs| {
      assert segs[..i + 1] == segs;
    } else {
      assert !Open(t, io, dest, q, segs, i + 1);
    }
    forall k: nat | 0 < k <= |segs| && OpenBelow(t, io, dest, q, segs, k)
      ensures dest + segs[..k] !in io.look
    {
      assert k < i + 1 ==> Open(t, io, dest, q, segs, k);
    }
  }

  /**
    The walk reaches a body exactly when the file physically is where its name says and can be read,
    and fails exactly when an I/O error comes first.
   */
  lemma {:induction false} ReadReaches(t: Tree, io: Faults, dest: Path, q: Path, segs: Path, i: nat)
    requires Leads(t, dest, q) && segs != [] && PlainSegments(segs) && i <= |segs|
    requires if i < |segs| then OpenBelow(t, io, dest, q, segs, i + 1) else InView(t, io, dest, q, segs)
    ensures var r := ReadFrom(t, io, dest, segs, i);
      (if InView(t, io, dest, q, segs) && dest + segs !in io.open then r == Body(t[q + segs].content) else !r.Body?) &&
      (r.ReadFailed? <==> Hidden(t, io, dest, q, segs))
    decreases |segs| - i
  {
    if i == |segs| {
      OpenFile(t, io, dest, q, segs);
      forall k: nat | 0 < k <= |segs| && OpenBelow(t, io, dest, q, segs, k)
        ensures dest + segs[..k] !in io.look
      {
        assert k < |segs| ==> Open(t, io, dest, q, segs, k);
        assert k == |segs| ==> segs[..k] == segs;
      }
    } else {
      var here := segs[..i + 1];
      LookNext(t, io, dest, q, segs, i);
      assert i + 1 == |segs| ==> here == segs;
      if dest + here in io.look {
        assert Hidden(t, io, dest, q, segs);
        assert i + 1 < |segs| ==> !Open(t, io, dest, q, segs, i + 1);
      } else if q + here in t && (if i + 1 < |segs| then t[q + here].Dir? else t[q + here].File?) {
        ReadReaches(t, io, dest, q, segs, i + 1);
      } else {
        ClosedEndsIt(t, io, dest, q, segs, i);
      }
    }
  }

  // ---------- The verdict ----------

  /** What one retained file contributes: Verified means nothing against it. */
  function FileVerdict(t: Tree, io: Faults, dest: Path, f: ArtifactFile): Verification
    requires WellFormed(t)
  {
    if f.kind == Deleted then Verified
    else if !ValidName(f.path) then Mismatch
    else
      match ReadFrom(t, io, dest, Segments(f.path), 0)
      case Body(c) => if Sha256(c) == f.digest then Verified else Mismatch
      case ReadFailed => Unreadable
      case _ => Mismatch
  }

  /** The first file that does not verify decides. */
  function FilesVerdict(t: Tree, io: Faults, dest: Path, files: seq<ArtifactFile>): Verification
    requires WellFormed(t)
  {
    if files == [] then Verified
    else
      var n := |files| - 1;
      var before := FilesVerdict(t, io, dest, files[..n]);
      if before == Verified then FileVerdict(t, io, dest, files[n]) else before
  }

  function ContentVerdict(codec: Codec, t: Tree, io: Faults, dest: Path, req: Authorized): Verification
    requires WellFormed(t)
  {
    match StatUnder(t, io, dest + [MANIFEST_NAME])
    case NotExist => Mismatch
    case Failed => Unreadable
    case Info(node) =>
      if !node.File? then Unreadable
      else
        match codec.decode(node.content)
        case None => Unreadable
        case Some(m) =>
          if !SameIdentity(m, req) || !SameFileSet(m.files, req.receipt.files) then Mismatch
          else FilesVerdict(t, io, dest, req.receipt.files)
  }

  function VerdictUnder(codec: Codec, t: Tree, io: Faults, dest: Path, req: Authorized): Verification
    requires WellFormed(t)
  {
    if !ValidReceipt(req.receipt) then Unreadable
    else
      match LstatUnder(t, io, dest)
      case NotExist => Absent
      case Failed => Unreadable
      case Info(node) => if node.Dir? then ContentVerdict(codec, t, io, dest, req) else Mismatch
  }

  /** The verdict when every look at the file system succeeds. */
  function Verdict(codec: Codec, t: Tree, dest: Path, req: Authorized): Verification
    requires WellFormed(t)
  {
    VerdictUnder(codec, t, NO_FAULTS, dest, req)
  }

  lemma {:induction false} EarlierVerdictStands(t: Tree, io: Faults, dest: Path, files: seq<ArtifactFile>, i: nat)
    requires WellFormed(t) && i <= |files| && FilesVerdict(t, io, dest, files[..i]) != Verified
    ensures FilesVerdict(t, io, dest, files) == FilesVerdict(t, io, dest, files[..i])
    decreases |files| - i
  {
    if i == |files| {
      assert files[..i] == files;
    } else {
      assert files[..i + 1][..i] == files[..i];
      EarlierVerdictStands(t, io, dest, files, i + 1);
    }
  }

  /** The loop over the retained files. */
  method VerifyFiles(t: Tree, io: Faults, dest: Path, files: seq<ArtifactFile>) returns (v: Verification)
    requires WellFormed(t)
    ensures v == FilesVerdict(t, io, dest, files)
  {
    v := Verified;
    var i := 0;
    while i < |files|
      invariant 0 <= i <= |files| && v == Verified
      invariant FilesVerdict(t, io, dest, files[..i]) == Verified
    {
      var f := files[i];
      assert files[..i + 1][..i] == files[..i];
      if f.kind != Deleted {
        if !ValidName(f.path) {
          v := Mismatch;
        } else {
          var body := ReadDelivered(t, io, dest, Segments(f.path));
          match body {
            case Body(c) => v := if Sha256(c) == f.digest then Verified else Mismatch;
            case ReadFailed => v := Unreadable;
            case Missing => v := Mismatch;
            case NotPlainFile => v := Mismatch;
            case LinkedComponent => v := Mismatch;
          }
        }
      }
      if v != Verified {
        EarlierVerdictStands(t, io, dest, files, i + 1);
        return;
      }
      i := i + 1;
    }
    assert files[..i] == files;
  }

  /** The checks in their order. */
  method Decide(codec: Codec, t: Tree, io: Faults, dest: Path, req: Authorized) returns (v: Verification)
    requires WellFormed(t)
    ensures v == VerdictUnder(codec, t, io, dest, req)
  {
    if !ValidReceipt(req.receipt) {
      return Unreadable;
    }
    match LstatUnder(t, io, dest) {
      case NotExist => return Absent;
      case Failed => return Unreadable;
      case Info(node) =>
        if node.Link? || !node.Dir? {
          return Mismatch;
        }
    }
    var m: ExportManifest;
    match StatUnder(t, io, dest + [MANIFEST_NAME]) {
      case NotExist => return Mismatch;
      case Failed => return Unreadable;
      case Info(node) =>
        if !node.File? || codec.decode(node.content).None? {
          return Unreadable;
        }
        m := codec.decode(node.content).value;
    }
    if !SameIdentity(m, req) {
      return Mismatch;
    }
    var same := CheckFileSet(m.files, req.receipt.files);
    if !same {
      return Mismatch;
    }
    v := VerifyFiles(t, io, dest, req.receipt.files);
  }

  // ---------- What each answer means ----------

  /** The file is removed, or physically lies at its place with its digest and can be read there. */
  ghost predicate Stands(t: Tree, io: Faults, dest: Path, q: Path, f: ArtifactFile) {
    f.kind == Deleted ||
    var segs := Segments(f.path);
    Holding(t, q, segs, f.digest) && dest + segs !in io.open &&
    forall j: nat {:trigger segs[..j]} :: 0 < j <= |segs| ==> dest + segs[..j] !in io.look
  }

  /** Nothing can be said about the file, because an I/O error comes first. */
  ghost predicate Concealed(t: Tree, io: Faults, dest: Path, q: Path, f: ArtifactFile) {
    f.kind != Deleted && Hidden(t, io, dest, q, Segments(f.path))
  }

  /** The manifest's last entry for the file's path has its digest and change kind. */
  ghost predicate ListedLast(manifest: seq<ArtifactFile>, f: ArtifactFile) {
    exists k :: 0 <= k < |manifest| &&
      manifest[k].path == f.path && manifest[k].digest == f.digest && manifest[k].kind == f.kind &&
      forall l :: k < l < |manifest| ==> manifest[l].path != f.path
  }

  /** The manifest names this Attempt, version, disposition and acceptance, and lists the retained files. */
  ghost predicate NamesDelivery(m: ExportManifest, req: Authorized) {
    m.attempt == req.receipt.attempt && m.outcome == req.receipt.outcome && m.version == req.receipt.version &&
    (m.disposition == Draft <==> req.draft) &&
    m.contractRevisionId == req.contractRevisionId && m.contractRevisionNumber == req.receipt.contractRevision &&
    m.acceptanceDecisionId == req.acceptanceDecisionId &&
    |m.files| == |req.receipt.files| && forall f :: f in req.receipt.files ==> ListedLast(m.files, f)
  }

  ghost predicate ManifestIs(codec: Codec, t: Tree, io: Faults, dest: Path, m: ExportManifest)
    requires WellFormed(t)
  {
    var info := Stat(t, dest + [MANIFEST_NAME]);
    dest + [MANIFEST_NAME] !in io.open && info.Info? && info.node.File? && codec.decode(info.node.content) == Some(m)
  }

  /** There is a manifest, or something in its place, and it cannot be read. */
  ghost predicate ManifestIsIllegible(codec: Codec, t: Tree, io: Faults, dest: Path)
    requires WellFormed(t)
  {
    var info := Stat(t, dest + [MANIFEST_NAME]);
    dest + [MANIFEST_NAME] in io.open || info == Failed ||
    (info.Info? && (!info.node.File? || codec.decode(info.node.content).None?))
  }

  /** Up to the i-th file everything stands. */
  ghost predicate StandsBefore(t: Tree, io: Faults, dest: Path, q: Path, files: seq<ArtifactFile>, i: nat)
    requires i <= |files|
  {
    forall j :: 0 <= j < i ==> Stands(t, io, dest, q, files[j])
  }

  /** Verified: the manifest names this delivery, and every retained file stands. */
  ghost predicate IsDelivered(codec: Codec, t: Tree, io: Faults, dest: Path, req: Authorized)
    requires WellFormed(t)
  {
    exists m, q ::
      ManifestIs(codec, t, io, dest, m) && NamesDelivery(m, req) && Leads(t, dest, q) &&
      StandsBefore(t, io, dest, q, req.receipt.files, |req.receipt.files|)
  }

  /** Unreadable: the manifest is illegible, or names this delivery and the first file not to stand is concealed. */
  ghost predicate IsIllegible(codec: Codec, t: Tree, io: Faults, dest: Path, req: Authorized)
    requires WellFormed(t)
  {
    ManifestIsIllegible(codec, t, io, dest) ||
    exists m, q, i: nat ::
      ManifestIs(codec, t, io, dest, m) && NamesDelivery(m, req) && Leads(t, dest, q) && i < |req.receipt.files| &&
      StandsBefore(t, io, dest, q, req.receipt.files, i) && Concealed(t, io, dest, q, req.receipt.files[i])
  }

  /** Mismatch: no manifest, another delivery's, or the first file not to stand is missing or different. */
  ghost predicate IsSomethingElse(codec: Codec, t: Tree, io: Faults, dest: Path, req: Authorized)
    requires WellFormed(t)
  {
    (dest + [MANIFEST_NAME] !in io.open && Stat(t, dest + [MANIFEST_NAME]) == NotExist) ||
    (exists m :: ManifestIs(codec, t, io, dest, m) && !NamesDelivery(m, req)) ||
    exists m, q, i: nat ::
      ManifestIs(codec, t, io, dest, m) && NamesDelivery(m, req) && Leads(t, dest, q) && i < |req.receipt.files| &&
      StandsBefore(t, io, dest, q, req.receipt.files, i) &&
      !Stands(t, io, dest, q, req.receipt.files[i]) && !Concealed(t, io, dest, q, req.receipt.files[i])
  }

  lemma {:induction false} LastForIsLast(files: seq<ArtifactFile>, path: string)
    ensures LastFor(files, path).Some? ==>
      exists k :: 0 <= k < |files| && files[k] == LastFor(files, path).value && forall l :: k < l < |files| ==> files[l].path != path
    decreases |files|
  {
    if files != [] {
      var n := |files| - 1;
      LastForIsLast(files[..n], path);
      if files[n].path != path && LastFor(files, path).Some? {
        var k :| 0 <= k < n && files[..n][k] == LastFor(files, path).value && forall l :: k < l < n ==> files[..n][l].path != path;
        assert files[k] == LastFor(files, path).value && forall l :: k < l < |files| ==> files[l].path != path;
      } else if files[n].path == path {
        assert files[n] == LastFor(files, path).value;
      }
    }
  }

  lemma RecordedIsListed(manifest: seq<ArtifactFile>, f: ArtifactFile)
    ensures Recorded(manifest, f) <==> ListedLast(manifest, f)
  {
    LastForIsLast(manifest, f.path);
    if ListedLast(manifest, f) {
      var k :| 0 <= k < |manifest| && manifest[k].path == f.path && manifest[k].digest == f.digest &&
               manifest[k].kind == f.kind && forall l :: k < l < |manifest| ==> manifest[l].path != f.path;
      assert manifest[k] in manifest;
    }
  }

  lemma SameIsNamed(m: ExportManifest, req: Authorized)
    ensures SameIdentity(m, req) && SameFileSet(m.files, req.receipt.files) <==> NamesDelivery(m, req)
  {
    forall f | f in req.receipt.files
      ensures Recorded(m.files, f) <==> ListedLast(m.files, f)
    {
      RecordedIsListed(m.files, f);
    }
  }

  lemma DirLeads(t: Tree, dest: Path) returns (q: Path)
    requires WellFormed(t) && Lstat(t, dest) == Info(Dir)
    ensures Leads(t, dest, q)
  {
    q := Walk(t, [], dest, false, MAX_LINKS).at;
    FollowingChangesNothing(t, [], dest, MAX_LINKS);
  }

  lemma InViewMeans(t: Tree, io: Faults, dest: Path, q: Path, segs: Path)
    requires WellFormed(t) && segs != []
    ensures InView(t, io, dest, q, segs) <==>
      Clear(t, q, segs) && q + segs in t && t[q + segs].File? &&
      forall j: nat {:trigger segs[..j]} :: 0 < j <= |segs| ==> dest + segs[..j] !in io.look
  {
    assert segs[..|segs|] == segs;
    if q + segs in t && t[q + segs].File? {
      if Clear(t, q, segs) {
        forall j: nat | 0 < j < |segs|
          ensures PhysicalDir(t, q + segs[..j])
        {
          assert DirIfPresent(t, q + segs[..j]);
          assert q + segs == (q + segs[..j]) + segs[j..];
          if q + segs[..j] !in t {
            MissingAncestor(t, q + segs[..j], q + segs);
          }
        }
      }
      if InView(t, io, dest, q, segs) {
        forall j: nat | 0 < j < |segs|
          ensures DirIfPresent(t, q + segs[..j]) && dest + segs[..j] !in io.look
        {
          assert Open(t, io, dest, q, segs, j);
        }
      }
    }
  }

  /** What one file contributes, exactly. */
  lemma FileVerdictMeans(t: Tree, io: Faults, dest: Path, q: Path, f: ArtifactFile)
    requires Leads(t, dest, q) && ValidFile(f)
    ensures FileVerdict(t, io, dest, f) == Verified <==> Stands(t, io, dest, q, f)
    ensures FileVerdict(t, io, dest, f) == Unreadable <==> Concealed(t, io, dest, q, f)
    ensures FileVerdict(t, io, dest, f) != Absent
  {
    ValidNameIsConfined(f.path);
    InViewMeans(t, io, dest, q, Segments(f.path));
    ReadReaches(t, io, dest, q, Segments(f.path), 0);
  }

  /** The first file that does not verify decides. */
  lemma {:induction false} FirstObstacle(t: Tree, io: Faults, dest: Path, q: Path, files: seq<ArtifactFile>)
    returns (i: nat)
    requires Leads(t, dest, q) && forall f :: f in files ==> ValidFile(f)
    ensures i <= |files| && StandsBefore(t, io, dest, q, files, i)
    ensures if i == |files| then FilesVerdict(t, io, dest, files) == Verified
      else FilesVerdict(t, io, dest, files) == FileVerdict(t, io, dest, files[i]) && !Stands(t, io, dest, q, files[i])
    decreases |files|
  {
    i := 0;
    if files != [] {
      var n := |files| - 1;
      i := FirstObstacle(t, io, dest, q, files[..n]);
      FileVerdictMeans(t, io, dest, q, files[i]);
      if i == n && Stands(t, io, dest, q, files[n]) {
        i := n + 1;
      }
    }
  }

  /** There is only one first obstacle. */
  lemma SameObstacle(t: Tree, io: Faults, dest: Path, q: Path, files: seq<ArtifactFile>, i: nat, j: nat)
    requires i < |files| && j < |files| && StandsBefore(t, io, dest, q, files, i) && StandsBefore(t, io, dest, q, files, j)
    requires !Stands(t, io, dest, q, files[i]) && !Stands(t, io, dest, q, files[j])
    ensures i == j
  {
  }

  lemma ConcealedDoesNotStand(t: Tree, io: Faults, dest: Path, q: Path, f: ArtifactFile)
    requires Leads(t, dest, q) && ValidFile(f) && Concealed(t, io, dest, q, f)
    ensures !Stands(t, io, dest, q, f)
  {
    FileVerdictMeans(t, io, dest, q, f);
  }

  /** The verdict on the files, given the manifest. */
  lemma FilesVerdictMeans(t: Tree, io: Faults, dest: Path, q: Path, files: seq<ArtifactFile>)
    requires Leads(t, dest, q) && forall f :: f in files ==> ValidFile(f)
    ensures var v := FilesVerdict(t, io, dest, files);
      v != Absent && (v == Verified <==> StandsBefore(t, io, dest, q, files, |files|)) &&
      (v == Unreadable <==>
        exists i: nat :: i < |files| && StandsBefore(t, io, dest, q, files, i) && Concealed(t, io, dest, q, files[i])) &&
      (v == Mismatch <==>
        exists i: nat :: i < |files| && StandsBefore(t, io, dest, q, files, i) && !Stands(t, io, dest, q, files[i]) &&
          !Concealed(t, io, dest, q, files[i]))
  {
    var i := FirstObstacle(t, io, dest, q, files);
    if i < |files| {
      FileVerdictMeans(t, io, dest, q, files[i]);
    }
    forall j: nat | j < |files| && StandsBefore(t, io, dest, q, files, j) &&
        (Concealed(t, io, dest, q, files[j]) || !Stands(t, io, dest, q, files[j]))
      ensures j == i
    {
      if Concealed(t, io, dest, q, files[j]) {
        ConcealedDoesNotStand(t, io, dest, q, files[j]);
      }
      if i < |files| {
        SameObstacle(t, io, dest, q, files, i, j);
      }
    }
  }

  lemma OneLead(t: Tree, dest: Path, p: Path, q: Path)
    requires Leads(t, dest, p) && Leads(t, dest, q)
    ensures p == q
  {
  }

  /** The verdict on the content of a destination directory. */
  lemma ContentVerdictMeans(codec: Codec, t: Tree, io: Faults, dest: Path, req: Authorized)
    requires WellFormed(t) && ValidReceipt(req.receipt) && Lstat(t, dest) == Info(Dir)
    ensures var v := ContentVerdict(codec, t, io, dest, req);
      v != Absent && (v == Verified <==> IsDelivered(codec, t, io, dest, req)) &&
      (v == Unreadable <==> IsIllegible(codec, t, io, dest, req)) &&
      (v == Mismatch <==> IsSomethingElse(codec, t, io, dest, req))
  {
    var q := DirLeads(t, dest);
    var info := StatUnder(t, io, dest + [MANIFEST_NAME]);
    if info.Info? && info.node.File? && codec.decode(info.node.content).Some? {
      var m := codec.decode(info.node.content).value;
      assert ManifestIs(codec, t, io, dest, m);
      SameIsNamed(m, req);
      FilesVerdictMeans(t, io, dest, q, req.receipt.files);
      forall p | Leads(t, dest, p)
        ensures p == q
      {
        OneLead(t, dest, p, q);
      }
    }
  }

  /**
    VerifyExport: strictly read-only, so it takes the tree as it is, with what cannot be read of it. Each
    answer is exact: absent if and only if nothing is at the destination, verified if and only if it holds
    the delivery, and of the other two the one that the first obstacle is, in the order of the checks.
   */
  method VerifyExport(codec: Codec, t: Tree, io: Faults, dest: Path, req: Authorized) returns (v: Verification)
    requires WellFormed(t)
    ensures v == Absent <==> ValidReceipt(req.receipt) && dest !in io.look && Lstat(t, dest) == NotExist
    ensures v == Verified <==>
      ValidReceipt(req.receipt) && dest !in io.look && Lstat(t, dest) == Info(Dir) && IsDelivered(codec, t, io, dest, req)
    ensures v == Unreadable <==>
      !ValidReceipt(req.receipt) || dest in io.look || Lstat(t, dest) == Failed ||
      (Lstat(t, dest) == Info(Dir) && IsIllegible(codec, t, io, dest, req))
    ensures v == Mismatch <==>
      ValidReceipt(req.receipt) && dest !in io.look && Lstat(t, dest).Info? &&
      (Lstat(t, dest).node.Dir? ==> IsSomethingElse(codec, t, io, dest, req))
    ensures v == VerdictUnder(codec, t, io, dest, req)
  {
    if ValidReceipt(req.receipt) && Lstat(t, dest) == Info(Dir) {
      ContentVerdictMeans(codec, t, io, dest, req);
    }
    v := Decide(codec, t, io, dest, req);
  }

  /** The destination is a real directory that physically holds this delivery and its manifest. */
  ghost predicate Delivers(codec: Codec, t: Tree, dest: Path, q: Path, m: ExportManifest, req: Authorized)
    requires WellFormed(t)
  {
    ValidReceipt(req.receipt) && Lstat(t, dest) == Info(Dir) && Leads(t, dest, q) &&
    ManifestIs(codec, t, NO_FAULTS, dest, m) && NamesDelivery(m, req) &&
    forall f :: f in req.receipt.files && f.kind != Deleted ==> Holding(t, q, Segments(f.path), f.digest)
  }

  lemma StandsWithoutFaults(t: Tree, dest: Path, q: Path, files: seq<ArtifactFile>)
    ensures StandsBefore(t, NO_FAULTS, dest, q, files, |files|) <==>
      forall f :: f in files && f.kind != Deleted ==> Holding(t, q, Segments(f.path), f.digest)
  {
    if forall f :: f in files && f.kind != Deleted ==> Holding(t, q, Segments(f.path), f.digest) {
      forall j | 0 <= j < |files|
        ensures Stands(t, NO_FAULTS, dest, q, files[j])
      {
        assert files[j] in files;
      }
    }
    if StandsBefore(t, NO_FAULTS, dest, q, files, |files|) {
      forall f | f in files && f.kind != Deleted
        ensures Holding(t, q, Segments(f.path), f.digest)
      {
        var j :| 0 <= j < |files| && files[j] == f;
        assert Stands(t, NO_FAULTS, dest, q, files[j]);
      }
    }
  }

  /**
    Verified is exact: where everything can be looked at it is answered if and only if the destination
    physically holds the authorized delivery, every retained file under its own name and through real
    directories.
   */
  lemma VerifiedIsExact(codec: Codec, t: Tree, dest: Path, req: Authorized)
    requires WellFormed(t)
    ensures Verdict(codec, t, dest, req) == Verified <==> exists q, m :: Delivers(codec, t, dest, q, m, req)
  {
    if ValidReceipt(req.receipt) && Lstat(t, dest) == Info(Dir) {
      ContentVerdictMeans(codec, t, NO_FAULTS, dest, req);
      forall q
        ensures StandsBefore(t, NO_FAULTS, dest, q, req.receipt.files, |req.receipt.files|) <==>
          forall f :: f in req.receipt.files && f.kind != Deleted ==> Holding(t, q, Segments(f.path), f.digest)
      {
        StandsWithoutFaults(t, dest, q, req.receipt.files);
      }
      if Verdict(codec, t, dest, req) == Verified {
        var m, q :|
          ManifestIs(codec, t, NO_FAULTS, dest, m) && NamesDelivery(m, req) && Leads(t, dest, q) &&
          StandsBefore(t, NO_FAULTS, dest, q, req.receipt.files, |req.receipt.files|);
        assert Delivers(codec, t, dest, q, m, req);
      }
    }
  }

  /**
    The reserved name matters: a verified delivery can hold a live artifact under the manifest's
    own name only if that artifact's retained bytes are the manifest itself.
   */
  lemma ReservedNameHoldsTheManifest(codec: Codec, t: Tree, dest: Path, req: Authorized, f: ArtifactFile)
    requires WellFormed(t) && Verdict(codec, t, dest, req) == Verified
    requires f in req.receipt.files && f.kind != Deleted && Segments(f.path) == [MANIFEST_NAME]
    ensures f.digest.Sha256? && codec.decode(f.digest.content).Some? &&
            NamesDelivery(codec.decode(f.digest.content).value, req) &&
            exists g :: g in codec.decode(f.digest.content).value.files && SameResult(g, f)
  {
    VerifiedIsExact(codec, t, dest, req);
    var q, m :| Delivers(codec, t, dest, q, m, req);
    var segs := [MANIFEST_NAME];
    ValidNameIsConfined(f.path);
    assert Holding(t, q, segs, f.digest);
    LookupThrough(t, dest, q, segs, true);
    assert ListedLast(m.files, f);
  }
}
