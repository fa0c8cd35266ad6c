/**
  A small file system: physical paths to files, directories and symbolic links, with the
  kernel's path resolution, and a disk that can fail or be interrupted between any two calls.
 */
module FileTree {
  import opened Names

  newtype byte = x: int | 0 <= x < 256
  type Bytes = seq<byte>

  /** A path from the file-system root, one name per element. */
  type Path = seq<string>

  datatype Target = Target(absolute: bool, parts: Path)

  datatype Node =
    | File(content: Bytes, perm: int)
    | Dir
    | Link(target: Target)

  type Tree = map<Path, Node>

  /** How many links the kernel follows before it gives up. */
  const MAX_LINKS: nat := 40

  function Parent(p: Path): (r: Path)
    requires p != []
    ensures |r| == |p| - 1
  {
    p[..|p| - 1]
  }

  function Base(p: Path): string
    requires p != []
  {
    p[|p| - 1]
  }

  predicate PhysicalDir(t: Tree, p: Path) {
    p in t && t[p].Dir?
  }

  /** p has an ordinary name and sits in a directory. */
  predicate Sits(t: Tree, p: Path)
    requires p != []
  {
    PhysicalDir(t, Parent(p)) && PlainSegment(Base(p))
  }

  ghost predicate WellFormed(t: Tree) {
    PhysicalDir(t, []) && forall p {:trigger Sits(t, p)} :: p in t && p != [] ==> Sits(t, p)
  }

  lemma {:induction false} PrefixIsDir(t: Tree, p: Path, k: nat)
    requires WellFormed(t) && p in t && k < |p|
    ensures p[..k] in t && t[p[..k]].Dir?
    decreases |p|
  {
    assert Sits(t, p);
    if k < |p| - 1 {
      PrefixIsDir(t, Parent(p), k);
      assert Parent(p)[..k] == p[..k];
    }
  }

  // ---------- Resolution ----------

  datatype Lookup =
    | Found(at: Path)
    | Vacant(at: Path)      // only the last name is missing
    | NoEntry               // a directory on the way is missing
    | NotDirectory
    | TooManyLinks

  /** Resolves rest from the directory cur; follow says whether a final link is followed. */
  function Walk(t: Tree, cur: Path, rest: Path, follow: bool, links: nat): (r: Lookup)
    requires WellFormed(t) && PhysicalDir(t, cur)
    ensures r.Found? ==> r.at in t && (follow ==> !t[r.at].Link?)
    ensures r.Vacant? ==> r.at != [] && r.at !in t && Sits(t, r.at)
    decreases links, |rest|
  {
    if rest == [] then Found(cur)
    else if rest[0] == "" || rest[0] == "." then Walk(t, cur, rest[1..], follow, links)
    else if rest[0] == ".." then
      assert cur != [] ==> Sits(t, cur);
      Walk(t, if cur == [] then cur else Parent(cur), rest[1..], follow, links)
    else
      var next := cur + [rest[0]];
      if next !in t then if |rest| == 1 then Vacant(next) else NoEntry
      else match t[next]
        case Dir => Walk(t, next, rest[1..], follow, links)
        case File(_, _) => if |rest| == 1 then Found(next) else NotDirectory
        case Link(target) =>
          if |rest| == 1 && !follow then Found(next)
          else if links == 0 then TooManyLinks
          else Walk(t, if target.absolute then [] else cur, target.parts + rest[1..], follow, links - 1)
  }

  datatype Info = Info(node: Node) | NotExist | Failed

  function InfoAt(t: Tree, r: Lookup): Info
    requires r.Found? ==> r.at in t
  {
    match r
    case Found(q) => Info(t[q])
    case Vacant(_) => NotExist
    case NoEntry => NotExist
    case _ => Failed
  }

  /** Describes the entry itself, without following a final link. */
  function Lstat(t: Tree, p: Path): Info
    requires WellFormed(t)
  {
    InfoAt(t, Walk(t, [], p, false, MAX_LINKS))
  }

  function Stat(t: Tree, p: Path): (r: Info)
    requires WellFormed(t)
    ensures r.Info? ==> !r.node.Link?
  {
    InfoAt(t, Walk(t, [], p, true, MAX_LINKS))
  }

  datatype ReadResult = Content(bytes: Bytes) | NoContent

  /** os.ReadFile, which follows links. */
  function ReadFile(t: Tree, p: Path): ReadResult
    requires WellFormed(t)
  {
    match Stat(t, p)
    case Info(File(content, _)) => Content(content)
    case _ => NoContent
  }

  // ---------- Mutations ----------

  datatype Step = Step(tree: Tree, ok: bool)

  predicate Empty(t: Tree, q: Path) {
    forall r :: r in t ==> r == q || !(q <= r)
  }

  /** os.Remove: a file, a link, or an empty directory. */
  function Removed(t: Tree, p: Path): Step
    requires WellFormed(t)
  {
    var r := Walk(t, [], p, false, MAX_LINKS);
    if r.Found? && r.at != [] && (t[r.at].Dir? ==> Empty(t, r.at)) then Step(t - {r.at}, true) else Step(t, false)
  }

  /** Opening for writing with create and truncate, then setting the mode. */
  function Written(t: Tree, p: Path, content: Bytes, perm: int): Step
    requires WellFormed(t)
  {
    var r := Walk(t, [], p, true, MAX_LINKS);
    if r.Vacant? || (r.Found? && t[r.at].File?) then Step(t[r.at := File(content, perm)], true) else Step(t, false)
  }

  function MadeDir(t: Tree, p: Path): Step
    requires WellFormed(t)
  {
    var r := Walk(t, [], p, false, MAX_LINKS);
    if r.Vacant? then Step(t[r.at := Dir], true) else Step(t, false)
  }

  lemma MutationsKeepForm(t: Tree, p: Path, content: Bytes, perm: int)
    requires WellFormed(t)
    ensures WellFormed(Removed(t, p).tree)
    ensures WellFormed(Written(t, p, content, perm).tree)
    ensures WellFormed(MadeDir(t, p).tree)
  {
    var r, w := Walk(t, [], p, false, MAX_LINKS), Walk(t, [], p, true, MAX_LINKS);
    if r.Found? && r.at != [] {
      if t[r.at].Dir? && Empty(t, r.at) {
        DropEmptyKeepsForm(t, r.at);
      } else if !t[r.at].Dir? {
        DropKeepsForm(t, r.at);
      }
    }
    if r.Vacant? {
      PutKeepsForm(t, r.at, Dir);
    }
    if w.Vacant? || (w.Found? && t[w.at].File?) {
      assert w.at != [] && Sits(t, w.at);
      PutKeepsForm(t, w.at, File(content, perm));
    }
  }

  /** p and everything below it. */
  function Under(t: Tree, p: Path): set<Path> {
    set q | q in t && p <= q
  }

  /** os.RemoveAll of a physical path. */
  function Pruned(t: Tree, p: Path): Tree {
    t - Under(t, p)
  }

  lemma PrunedKeepsForm(t: Tree, p: Path)
    requires WellFormed(t) && p != []
    ensures WellFormed(Pruned(t, p))
  {
    forall q | q in Pruned(t, p) && q != []
      ensures Sits(Pruned(t, p), q)
    {
      assert Sits(t, q) && Parent(q) <= q;
    }
  }

  /** os.Rename of a directory between physical paths, where nothing is at the new one. */
  function Moved(t: Tree, from: Path, to: Path): Step {
    if from != [] && from in t && to != [] && to !in t && Sits(t, to) && !(from <= to) then
      Step(map q | q in Pruned(t, from).Keys + (set r | r in Under(t, from) :: to + r[|from|..]) ::
             if to <= q && from + q[|to|..] in t then t[from + q[|to|..]] else if q in t then t[q] else Dir, true)
    else Step(t, false)
  }

  /** Below the new path lies what lay below the old one; nothing else has changed. */
  lemma MovedAt(t: Tree, from: Path, to: Path, q: Path)
    requires WellFormed(t) && Moved(t, from, to).ok
    ensures var u := Moved(t, from, to).tree;
            if to <= q then (q in u <==> from + q[|to|..] in t) && (q in u ==> u[q] == t[from + q[|to|..]])
            else (q in u <==> q in t && !(from <= q)) && (q in u ==> u[q] == t[q])
  {
    if to <= q {
      if q in t {
        if q != to {
          MissingAncestor(t, to, q);
        }
      }
      var r := from + q[|to|..];
      assert r[|from|..] == q[|to|..] && to + q[|to|..] == q;
      if r in t {
        assert r in Under(t, from);
      }
      forall s | s in Under(t, from) && to + s[|from|..] == q
        ensures s == r
      {
        assert s == from + s[|from|..] && (to + s[|from|..])[|to|..] == s[|from|..];
      }
    }
  }

  lemma MovedKeepsForm(t: Tree, from: Path, to: Path)
    requires WellFormed(t) && Moved(t, from, to).ok
    ensures WellFormed(Moved(t, from, to).tree)
  {
    var u := Moved(t, from, to).tree;
    MovedAt(t, from, to, []);
    assert !(from <= []);
    forall q | q in u && q != []
      ensures Sits(u, q)
    {
      MovedAt(t, from, to, q);
      MovedAt(t, from, to, Parent(q));
      assert Parent(q) <= q;
      if to < q {
        var r := from + q[|to|..];
        assert Sits(t, r) && Parent(r) == from + Parent(q)[|to|..] && Base(r) == Base(q);
        assert to <= Parent(q);
      } else if q == to {
        assert from <= Parent(to) ==> from <= to;
        assert !(to <= Parent(to));
      } else {
        assert Sits(t, q);
        assert to <= Parent(q) ==> to <= q;
        assert from <= Parent(q) ==> from <= q;
      }
    }
  }

  lemma PutKeepsForm(t: Tree, p: Path, node: Node)
    requires WellFormed(t) && p != [] && (p in t ==> !t[p].Dir?)
    requires Sits(t, p)
    ensures WellFormed(t[p := node])
  {
    var u := t[p := node];
    forall q | q in u && q != []
      ensures Sits(u, q)
    {
      assert Sits(t, q);
    }
  }

  lemma DropKeepsForm(t: Tree, p: Path)
    requires WellFormed(t) && p in t && !t[p].Dir?
    ensures WellFormed(t - {p})
  {
    forall q | q in t - {p} && q != []
      ensures Sits(t - {p}, q)
    {
      assert Sits(t, q);
    }
  }

  lemma DropEmptyKeepsForm(t: Tree, p: Path)
    requires WellFormed(t) && p != [] && PhysicalDir(t, p) && Empty(t, p)
    ensures WellFormed(t - {p})
  {
    forall q | q in t - {p} && q != []
      ensures Sits(t - {p}, q)
    {
      assert Sits(t, q) && Parent(q) <= q;
    }
  }

  // ---------- Paths that meet no link ----------

  predicate DirIfPresent(t: Tree, p: Path) {
    p in t ==> t[p].Dir?
  }

  /** No existing entry strictly between base and base + rest is anything but a directory. */
  ghost predicate Clear(t: Tree, base: Path, rest: Path) {
    forall k {:trigger DirIfPresent(t, base + rest[..k])} :: 0 < k < |rest| ==> DirIfPresent(t, base + rest[..k])
  }

  /** What resolving a clear path to full must answer. */
  ghost predicate Reaches(t: Tree, r: Lookup, full: Path, follow: bool)
    requires full != []
  {
    if full in t then (follow && t[full].Link?) || r == Found(full)
    else if Parent(full) in t then r == Vacant(full)
    else r == NoEntry
  }

  lemma ClearFewer(t: Tree, u: Tree, base: Path, rest: Path)
    requires Clear(t, base, rest) && forall q :: DirIfPresent(t, q) ==> DirIfPresent(u, q)
    ensures Clear(u, base, rest)
  {
    forall k | 0 < k < |rest|
      ensures DirIfPresent(u, base + rest[..k])
    {
      assert DirIfPresent(t, base + rest[..k]);
    }
  }

  lemma {:induction false} WalkClear(t: Tree, cur: Path, rest: Path, follow: bool, links: nat)
    requires WellFormed(t) && PhysicalDir(t, cur)
    requires rest != [] && PlainSegments(rest) && Clear(t, cur, rest)
    ensures Reaches(t, Walk(t, cur, rest, follow, links), cur + rest, follow)
    decreases |rest|
  {
    var full, next := cur + rest, cur + [rest[0]];
    assert PlainSegment(rest[0]);
    assert cur + rest[..1] == next by { assert rest[..1] == [rest[0]]; }
    assert |rest| > 1 ==> DirIfPresent(t, cur + rest[..1]);
    if |rest| == 1 {
      WalkLast(t, cur, rest, follow, links);
    } else if next in t {
      var tail := rest[1..];
      assert next + tail == full;
      ClearTail(t, cur, rest);
      WalkClear(t, next, tail, follow, links);
    } else {
      MissingAncestor(t, next, full);
      if |rest| > 2 {
        MissingAncestor(t, next, Parent(full));
      } else {
        assert Parent(full) == next;
      }
    }
  }

  lemma {:induction false} WalkLast(t: Tree, cur: Path, rest: Path, follow: bool, links: nat)
    requires WellFormed(t) && PhysicalDir(t, cur)
    requires |rest| == 1 && PlainSegment(rest[0])
    ensures Reaches(t, Walk(t, cur, rest, follow, links), cur + rest, follow)
  {
    assert rest == [rest[0]] && Parent(cur + rest) == cur;
  }

  lemma ClearTail(t: Tree, cur: Path, rest: Path)
    requires |rest| > 1 && Clear(t, cur, rest)
    ensures Clear(t, cur + [rest[0]], rest[1..])
  {
    var next, tail := cur + [rest[0]], rest[1..];
    forall k | 0 < k < |tail|
      ensures DirIfPresent(t, next + tail[..k])
    {
      assert rest[..k + 1] == [rest[0]] + tail[..k];
      assert next + tail[..k] == cur + rest[..k + 1];
      assert DirIfPresent(t, cur + rest[..k + 1]);
    }
  }

  lemma MissingAncestor(t: Tree, q: Path, p: Path)
    requires WellFormed(t) && q !in t && q < p
    ensures p !in t
  {
    assert p[..|q|] == q;
    if p in t {
      PrefixIsDir(t, p, |q|);
    }
  }

  /** Resolving through a directory that is really there continues from it. */
  lemma {:induction false} WalkFrom(t: Tree, cur: Path, p: Path, rest: Path, follow: bool, links: nat)
    requires WellFormed(t) && PhysicalDir(t, cur) && PhysicalDir(t, cur + p) && rest != []
    ensures Walk(t, cur, p + rest, follow, links) == Walk(t, cur + p, rest, follow, links)
    decreases |p|
  {
    if p == [] {
      assert p + rest == rest && cur + p == cur;
    } else {
      var next := cur + [p[0]];
      NamesArePlain(t, cur + p);
      assert p[0] == (cur + p)[|cur|] && PlainSegment(p[0]) && (p + rest)[0] == p[0];
      assert (cur + p)[..|next|] == next && cur + p == next + p[1..];
      if |p| > 1 {
        PrefixIsDir(t, cur + p, |next|);
      } else {
        assert next == cur + p;
      }
      WalkFrom(t, next, p[1..], rest, follow, links);
      assert (p + rest)[1..] == p[1..] + rest;
    }
  }

  /** Nothing can be reached below a regular file. */
  lemma LstatBelowFile(t: Tree, p: Path, rest: Path)
    requires WellFormed(t) && p in t && t[p].File? && rest != []
    ensures Lstat(t, p + rest) == Failed
  {
    assert Sits(t, p);
    var tail := [Base(p)] + rest;
    assert p + rest == Parent(p) + tail && [] + Parent(p) == Parent(p);
    WalkFrom(t, [], Parent(p), tail, false, MAX_LINKS);
    assert Parent(p) + [tail[0]] == p;
  }

  /** Whatever is physically there is found under its own path. */
  lemma LstatPresent(t: Tree, p: Path)
    requires WellFormed(t) && p in t
    ensures Lstat(t, p) == Info(t[p])
  {
    if p == [] {
      ResolveDir(t, p, false);
    } else {
      assert Sits(t, p) && Parent(p) + [Base(p)] == p;
      LookupInDir(t, Parent(p), Base(p), false);
    }
  }

  /** An entry of a directory that is really there is looked up directly. */
  lemma LookupInDir(t: Tree, dir: Path, name: string, follow: bool)
    requires WellFormed(t) && PhysicalDir(t, dir) && PlainSegment(name)
    ensures var p := dir + [name];
            var r := Walk(t, [], p, follow, MAX_LINKS);
            if p !in t then r == Vacant(p) else (follow && t[p].Link?) || r == Found(p)
  {
    assert Parent(dir + [name]) == dir;
    ResolveClear(t, dir, [name], follow);
  }

  /** The path to something physically present meets no link. */
  lemma ClearFromRoot(t: Tree, base: Path, rest: Path)
    requires WellFormed(t) && PhysicalDir(t, base) && Clear(t, base, rest)
    requires PlainSegments(rest)
    ensures Clear(t, [], base + rest) && PlainSegments(base + rest)
  {
    var full := base + rest;
    forall k | 0 < k < |full|
      ensures DirIfPresent(t, [] + full[..k])
    {
      if k < |base| {
        PrefixIsDir(t, base, k);
        assert [] + full[..k] == base[..k];
      } else if k == |base| {
        assert [] + full[..k] == base;
      } else {
        assert [] + full[..k] == base + rest[..k - |base|];
        assert DirIfPresent(t, base + rest[..k - |base|]);
      }
    }
    NamesArePlain(t, base);
  }

  lemma {:induction false} NamesArePlain(t: Tree, p: Path)
    requires WellFormed(t) && p in t
    ensures PlainSegments(p)
    decreases |p|
  {
    if p != [] {
      assert Sits(t, p);
      NamesArePlain(t, Parent(p));
      assert p == Parent(p) + [Base(p)];
    }
  }

  /** On a clear path the kernel reaches exactly the entry the name spells. */
  lemma ResolveClear(t: Tree, base: Path, rest: Path, follow: bool)
    requires WellFormed(t) && PhysicalDir(t, base)
    requires rest != [] && PlainSegments(rest) && Clear(t, base, rest)
    ensures Reaches(t, Walk(t, [], base + rest, follow, MAX_LINKS), base + rest, follow)
  {
    ClearFromRoot(t, base, rest);
    assert [] + (base + rest) == base + rest;
    WalkClear(t, [], base + rest, follow, MAX_LINKS);
  }

  /** The same for a physical directory. */
  lemma ResolveDir(t: Tree, p: Path, follow: bool)
    requires WellFormed(t) && PhysicalDir(t, p)
    ensures Walk(t, [], p, follow, MAX_LINKS) == Found(p)
  {
    if p != [] {
      assert Sits(t, p);
      var rest := [Base(p)];
      assert Parent(p) + rest == p;
      ResolveClear(t, Parent(p), rest, follow);
    }
  }

  // ---------- Trees without links ----------

  /** base is a real directory with no link anywhere below it. */
  ghost predicate Linkless(t: Tree, base: Path) {
    PhysicalDir(t, base) && forall p :: p in t && base <= p ==> !t[p].Link?
  }

  lemma {:induction false} WalkLinkless(t: Tree, base: Path, cur: Path, rest: Path, follow: bool, links: nat)
    requires WellFormed(t) && PhysicalDir(t, cur) && Linkless(t, base) && base <= cur && PlainSegments(rest)
    ensures var r := Walk(t, cur, rest, follow, links);
            (r.Found? || r.Vacant?) ==> r.at == cur + rest
    decreases |rest|
  {
    if rest != [] {
      var next := cur + [rest[0]];
      assert PlainSegment(rest[0]) && cur + rest == next + rest[1..];
      assert |rest| == 1 ==> next == cur + rest;
      assert base <= next;
      if next in t && t[next].Dir? {
        WalkLinkless(t, base, next, rest[1..], follow, links);
      }
    }
  }

  /** Every prefix of an entry is a directory, so the way to it is plain. */
  lemma PresentIsPlain(t: Tree, p: Path)
    requires WellFormed(t) && PhysicalDir(t, p)
    ensures Plain(t, p)
  {
    NamesArePlain(t, p);
    forall k | 0 <= k <= |p|
      ensures DirIfPresent(t, p[..k])
    {
      if k < |p| {
        PrefixIsDir(t, p, k);
      } else {
        assert p[..k] == p;
      }
    }
  }

  lemma PlainChild(t: Tree, p: Path)
    requires p != [] && PlainSegments(p) && Plain(t, Parent(p)) && DirIfPresent(t, p)
    ensures Plain(t, p)
  {
    forall k | 0 <= k <= |p|
      ensures DirIfPresent(t, p[..k])
    {
      if k < |p| {
        assert Parent(p)[..k] == p[..k] && DirIfPresent(t, Parent(p)[..k]);
      } else {
        assert p[..k] == p;
      }
    }
  }

  /** Where there are no links, only what is missing has no information. */
  lemma StatLinkless(t: Tree, base: Path, p: Path)
    requires WellFormed(t) && Linkless(t, base) && base <= p && PlainSegments(p)
    ensures Stat(t, p).Info? ==> p in t && Stat(t, p) == Info(t[p])
    ensures p != [] && Plain(t, Parent(p)) && p in t ==> Stat(t, p).Info?
  {
    if p == base {
      ResolveDir(t, p, true);
    } else {
      var rest := p[|base|..];
      assert base + rest == p && [] + base == base;
      WalkFrom(t, [], base, rest, true, MAX_LINKS);
      WalkLinkless(t, base, base, rest, true, MAX_LINKS);
    }
    if p != [] && Plain(t, Parent(p)) && p in t {
      assert Sits(t, p);
      assert Parent(p) + [Base(p)] == p;
      LookupInDir(t, Parent(p), Base(p), true);
    }
  }

  /** What is missing below a linkless base lies strictly below it. */
  lemma MissingIsPlain(t: Tree, base: Path, p: Path)
    requires WellFormed(t) && Linkless(t, base) && base <= p && PlainSegments(p)
    requires p != [] && !Stat(t, p).Info?
    ensures base <= Parent(p) && PlainSegments(Parent(p))
    ensures Plain(t, Parent(p)) ==> Plain(t, p)
  {
    ResolveDir(t, base, true);
    StatLinkless(t, base, p);
    assert base != p;
    assert forall c :: c in Parent(p) ==> c in p;
    if Plain(t, Parent(p)) {
      PlainChild(t, p);
    }
  }

  // ---------- Creating directories ----------

  /** t with every missing prefix of p made a directory. */
  ghost function WithDirs(t: Tree, p: Path): (r: Tree)
    ensures t.Keys <= r.Keys && (forall q :: q in t ==> r[q] == t[q])
    ensures forall q :: q in r && q !in t ==> q <= p && r[q] == Dir
    ensures p in r
    decreases |p|
  {
    var u := if p == [] then t else WithDirs(t, Parent(p));
    if p in u then u else u[p := Dir]
  }

  lemma {:induction false} WithDirsHas(t: Tree, p: Path, k: nat)
    requires k <= |p|
    ensures p[..k] in WithDirs(t, p)
    decreases |p|
  {
    if k == |p| {
      assert p[..k] == p;
    } else {
      WithDirsHas(t, Parent(p), k);
      assert Parent(p)[..k] == p[..k];
    }
  }

  /** Every existing prefix of p, p included, is a directory. */
  ghost predicate Plain(t: Tree, p: Path) {
    PlainSegments(p) && forall k {:trigger DirIfPresent(t, p[..k])} :: 0 <= k <= |p| ==> DirIfPresent(t, p[..k])
  }

  lemma PlainIsClear(t: Tree, p: Path)
    requires WellFormed(t) && Plain(t, p) && p != []
    ensures Clear(t, [], p)
  {
    forall k | 0 < k < |p|
      ensures DirIfPresent(t, [] + p[..k])
    {
      assert [] + p[..k] == p[..k] && DirIfPresent(t, p[..k]);
    }
  }

  lemma {:induction false} WithDirsKeepsForm(t: Tree, p: Path)
    requires WellFormed(t) && Plain(t, p)
    ensures WellFormed(WithDirs(t, p)) && PhysicalDir(WithDirs(t, p), p)
    decreases |p|
  {
    assert p[..|p|] == p && DirIfPresent(t, p[..|p|]);
    if p != [] {
      PlainParent(t, p);
      WithDirsKeepsForm(t, Parent(p));
      var u := WithDirs(t, Parent(p));
      if p !in u {
        PutKeepsForm(u, p, Dir);
      }
    }
  }

  lemma PlainParent(t: Tree, p: Path)
    requires Plain(t, p) && p != []
    ensures Plain(t, Parent(p))
  {
    forall k | 0 <= k <= |p| - 1
      ensures DirIfPresent(t, Parent(p)[..k])
    {
      assert Parent(p)[..k] == p[..k] && DirIfPresent(t, p[..k]);
    }
  }

  lemma StatPlain(t: Tree, p: Path)
    requires WellFormed(t)
    ensures p == [] ==> Stat(t, p) == Info(Dir)
    ensures Plain(t, p) && p in t ==> Stat(t, p) == Info(Dir) && WithDirs(t, p) == t
    ensures Plain(t, p) && p !in t ==> Stat(t, p) == NotExist
  {
    assert p[..|p|] == p && (Plain(t, p) ==> DirIfPresent(t, p[..|p|]));
    if Plain(t, p) && p in t {
      ResolveDir(t, p, true);
      WithDirsPresent(t, p);
    } else if Plain(t, p) && p != [] {
      PlainIsClear(t, p);
      assert [] + p == p;
      WalkClear(t, [], p, true, MAX_LINKS);
    }
  }

  lemma {:induction false} WithDirsPresent(t: Tree, p: Path)
    requires WellFormed(t) && p in t
    ensures WithDirs(t, p) == t
    decreases |p|
  {
    if p != [] {
      assert Sits(t, p);
      WithDirsPresent(t, Parent(p));
    }
  }

  lemma MadeDirPlain(t: Tree, p: Path)
    requires WellFormed(t) && Plain(t, p) && p != [] && p !in t
    ensures var u := WithDirs(t, Parent(p));
            WellFormed(u) && MadeDir(u, p) == Step(WithDirs(t, p), true)
            && Lstat(u, p) == NotExist
  {
    PlainParent(t, p);
    WithDirsKeepsForm(t, Parent(p));
    var u := WithDirs(t, Parent(p));
    assert Plain(u, p) by {
      forall k | 0 <= k <= |p|
        ensures DirIfPresent(u, p[..k])
      {
        assert DirIfPresent(t, p[..k]);
      }
    }
    PlainIsClear(u, p);
    assert [] + p == p;
    WalkClear(u, [], p, false, MAX_LINKS);
  }

  /** Everything in t is still there, and everything new is a directory towards p. */
  ghost predicate MidDirs(t: Tree, p: Path, u: Tree) {
    t.Keys <= u.Keys && (forall q :: q in t ==> u[q] == t[q]) &&
    forall q :: q in u && q !in t ==> u[q].Dir? && (Plain(t, p) ==> q <= p)
  }

  /** u is t, or was reached by making a directory that p or a prefix of p names. */
  ghost predicate ByMakingDirs(t: Tree, p: Path, u: Tree) {
    u == t || exists k, v :: 0 < k <= |p| && WellFormed(v) && MadeDir(v, p[..k]) == Step(u, true)
  }

  /** What is known of every state on the way to p. */
  ghost predicate Midway(t: Tree, p: Path, u: Tree) {
    MidDirs(t, p, u) && ByMakingDirs(t, p, u)
  }

  /** Such a state is a proper tree. */
  lemma MidwayFormed(t: Tree, p: Path, u: Tree)
    requires WellFormed(t) && Midway(t, p, u)
    ensures WellFormed(u)
  {
    if u != t {
      var k, v :| 0 < k <= |p| && WellFormed(v) && MadeDir(v, p[..k]) == Step(u, true);
      MutationsKeepForm(v, p[..k], [], 0);
    }
  }

  lemma MidwayParent(t: Tree, p: Path, u: Tree)
    requires p != [] && Midway(t, Parent(p), u)
    ensures Midway(t, p, u)
  {
    if Plain(t, p) {
      PlainParent(t, p);
    }
    if u != t {
      var k, v :| 0 < k <= |Parent(p)| && WellFormed(v) && MadeDir(v, Parent(p)[..k]) == Step(u, true);
      assert Parent(p)[..k] == p[..k];
    }
  }

  ghost predicate AllMidway(t: Tree, p: Path, history: seq<Tree>, before: nat) {
    forall i :: before <= i < |history| ==> Midway(t, p, history[i])
  }

  lemma AllMidwayParent(t: Tree, p: Path, history: seq<Tree>, before: nat)
    requires p != [] && AllMidway(t, Parent(p), history, before)
    ensures AllMidway(t, p, history, before)
  {
    forall i | before <= i < |history|
      ensures Midway(t, p, history[i])
    {
      MidwayParent(t, p, history[i]);
    }
  }

  lemma MidwayMade(t: Tree, p: Path, u: Tree, v: Tree)
    requires WellFormed(t) && WellFormed(u) && p != []
    requires Midway(t, p, u) && MadeDir(u, p) == Step(v, true)
    requires Plain(t, p) ==> u == WithDirs(t, Parent(p))
    ensures Midway(t, p, v) && (Plain(t, p) ==> v == WithDirs(t, p))
  {
    MidDirsMade(t, p, u, v);
    assert p[..|p|] == p;
  }

  lemma MidDirsMade(t: Tree, p: Path, u: Tree, v: Tree)
    requires WellFormed(t) && WellFormed(u) && p != []
    requires MidDirs(t, p, u) && MadeDir(u, p) == Step(v, true)
    requires Plain(t, p) ==> u == WithDirs(t, Parent(p))
    ensures MidDirs(t, p, v) && (Plain(t, p) ==> v == WithDirs(t, p))
  {
    if Plain(t, p) {
      if p in t {
        assert Sits(t, p);
        WithDirsPresent(t, Parent(p));
        ResolveDir(t, p, false) by { assert p[..|p|] == p && DirIfPresent(t, p[..|p|]); }
      } else {
        MadeDirPlain(t, p);
      }
    }
  }

  /** What making a missing directory goes by: its parent, and then one step. */
  lemma MissingFacts(t: Tree, p: Path, base: Path)
    requires WellFormed(t) && p != [] && !Stat(t, p).Info?
    ensures var u := WithDirs(t, Parent(p));
      Plain(t, p) ==>
        WellFormed(u) && Plain(t, Parent(p)) && MadeDir(u, p) == Step(WithDirs(t, p), true) && Lstat(u, p) == NotExist
    ensures Linkless(t, base) && base <= p && PlainSegments(p) && !Plain(t, p) ==>
      base <= Parent(p) && PlainSegments(Parent(p)) && !Plain(t, Parent(p))
  {
    if Plain(t, p) {
      StatPlain(t, p);
      PlainParent(t, p);
      MadeDirPlain(t, p);
    }
    if Linkless(t, base) && base <= p && PlainSegments(p) {
      MissingIsPlain(t, base, p);
    }
  }

  // ---------- The disk ----------

  /** u is t without some of what lies under p. */
  ghost predicate Pruning(t: Tree, p: Path, u: Tree) {
    WellFormed(u) && (forall q :: q in u ==> q in t && u[q] == t[q]) && forall q :: q in t && !(p <= q) ==> q in u
  }

  /** The states a write of p passes through: untouched, or the file with some bytes. */
  ghost predicate MidWrite(t: Tree, p: Path, u: Tree)
    requires WellFormed(t)
  {
    u == t || exists c: Bytes, m: int :: Written(t, p, c, m) == Step(u, true)
  }

  /**
    A mutable tree. history records every state the disk passes through, so a property of all
    of it holds wherever the process stops. Unless the disk is reliable any call may fail.
   */
  class Disk {
    var tree: Tree
    ghost var history: seq<Tree>
    const reliable: bool

    ghost predicate Valid()
      reads this
    {
      WellFormed(tree) && history != [] && history[|history| - 1] == tree
    }

    constructor (t: Tree, reliable: bool)
      requires WellFormed(t)
      ensures Valid() && tree == t && history == [t] && this.reliable == reliable
    {
      tree := t;
      history := [t];
      this.reliable := reliable;
    }

    method Remove(p: Path) returns (ok: bool)
      requires Valid()
      modifies this
      ensures Valid() && history == old(history) + [tree]
      ensures ok ==> Removed(old(tree), p) == Step(tree, true)
      ensures !ok ==> tree == old(tree)
      ensures reliable ==> ok == Removed(old(tree), p).ok
    {
      var fault: bool := *;
      ok := Removed(tree, p).ok && (reliable || !fault);
      MutationsKeepForm(tree, p, [], 0);
      if ok {
        tree := Removed(tree, p).tree;
      }
      history := history + [tree];
    }

    method MakeDir(p: Path) returns (ok: bool)
      requires Valid()
      modifies this
      ensures Valid() && history == old(history) + [tree]
      ensures ok ==> MadeDir(old(tree), p) == Step(tree, true)
      ensures !ok ==> tree == old(tree)
      ensures reliable ==> ok == MadeDir(old(tree), p).ok
    {
      var fault: bool := *;
      ok := MadeDir(tree, p).ok && (reliable || !fault);
      MutationsKeepForm(tree, p, [], 0);
      if ok {
        tree := MadeDir(tree, p).tree;
      }
      history := history + [tree];
    }

    /** A write that is cut short leaves some other bytes behind. */
    method WriteFile(p: Path, content: Bytes, perm: int) returns (ok: bool)
      requires Valid()
      modifies this
      ensures Valid() && old(history) < history
      ensures forall i :: |old(history)| <= i < |history| ==> MidWrite(old(tree), p, history[i])
      ensures ok ==> Written(old(tree), p, content, perm) == Step(tree, true)
      ensures reliable ==> ok == Written(old(tree), p, content, perm).ok
    {
      var started: bool := *;
      var completed: bool := *;
      var partial: Bytes := *;
      var was := tree;
      ok := false;
      if Written(was, p, content, perm).ok && (reliable || started) {
        MutationsKeepForm(was, p, partial, perm);
        MutationsKeepForm(was, p, content, perm);
        tree := Written(was, p, partial, perm).tree;
        history := history + [tree];
        assert MidWrite(was, p, tree);
        if reliable || completed {
          tree := Written(was, p, content, perm).tree;
          ok := true;
          assert MidWrite(was, p, tree);
        }
      }
      history := history + [tree];
    }

    method Rename(from: Path, to: Path) returns (ok: bool)
      requires Valid()
      modifies this
      ensures Valid() && history == old(history) + [tree]
      ensures ok ==> Moved(old(tree), from, to) == Step(tree, true)
      ensures !ok ==> tree == old(tree)
      ensures reliable ==> ok == Moved(old(tree), from, to).ok
    {
      var fault: bool := *;
      ok := Moved(tree, from, to).ok && (reliable || !fault);
      if ok {
        MovedKeepsForm(tree, from, to);
        tree := Moved(tree, from, to).tree;
      }
      history := history + [tree];
    }

    /** A removal that is cut short has removed only some of what lies under p. */
    method RemoveTree(p: Path)
      requires Valid() && p != []
      modifies this
      ensures Valid() && old(history) < history
      ensures forall i :: |old(history)| <= i < |history| ==> Pruning(old(tree), p, history[i])
      ensures reliable ==> tree == Pruned(old(tree), p)
    {
      var fault: bool := *;
      PrunedKeepsForm(tree, p);
      if reliable || !fault {
        tree := Pruned(tree, p);
      }
      history := history + [tree];
    }

    /** os.MkdirAll: parents first, stopping at the first that cannot be made. */
    method MakeDirs(p: Path, ghost base: Path) returns (ok: bool)
      requires Valid()
      modifies this
      ensures Valid() && old(history) < history
      ensures AllMidway(old(tree), p, history, |old(history)|)
      ensures Plain(old(tree), p) && ok ==> tree == WithDirs(old(tree), p)
      ensures Plain(old(tree), p) && reliable ==> ok
      ensures Linkless(old(tree), base) && base <= p && PlainSegments(p) && !Plain(old(tree), p) ==>
                !ok && forall i :: |old(history)| <= i < |history| ==> history[i] == old(tree)
      decreases |p|, 1
    {
      StatPlain(tree, p);
      match Stat(tree, p) {
        case Info(node) =>
          if Linkless(tree, base) && base <= p && PlainSegments(p) && node.Dir? {
            StatLinkless(tree, base, p);
            PresentIsPlain(tree, p);
          }
          history := history + [tree];
          ok := node.Dir?;
        case _ =>
          ok := MakeMissing(p, base);
      }
    }

    method MakeMissing(p: Path, ghost base: Path) returns (ok: bool)
      requires Valid() && p != [] && !Stat(tree, p).Info?
      modifies this
      ensures Valid() && old(history) < history
      ensures AllMidway(old(tree), p, history, |old(history)|)
      ensures Plain(old(tree), p) && ok ==> tree == WithDirs(old(tree), p)
      ensures Plain(old(tree), p) && reliable ==> ok
      ensures Linkless(old(tree), base) && base <= p && PlainSegments(p) && !Plain(old(tree), p) ==>
                !ok && forall i :: |old(history)| <= i < |history| ==> history[i] == old(tree)
      decreases |p|, 0
    {
      ghost var t := tree;
      MissingFacts(t, p, base);
      ok := MakeDirs(Parent(p), base);
      AllMidwayParent(t, p, history, |old(history)|);
      if ok {
        ghost var u := tree;
        assert Midway(t, p, u) by { assert u == history[|history| - 1]; }
        ok := MakeDir(p);
        if ok {
          MidwayMade(t, p, u, tree);
        } else {
          // Somebody else may have made it meanwhile.
          ok := Lstat(tree, p) == Info(Dir);
        }
      }
    }
  }
}
