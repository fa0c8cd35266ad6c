/** How path resolution composes and how it fares while a tree grows. */
module Resolution {
  import opened Names
  import opened FileTree

  /** Past a directory, however many links led there, resolution continues from that directory. */
  lemma {:induction false} ThroughDir(t: Tree, cur: Path, p: Path, rest: Path, follow: bool,
                                      links: nat) returns (left: nat)
    requires WellFormed(t) && PhysicalDir(t, cur) && rest != []
    requires var r := Walk(t, cur, p, true, links); r.Found? && t[r.at].Dir?
    ensures Walk(t, cur, p + rest, follow, links) == Walk(t, Walk(t, cur, p, true, links).at, rest, follow, left)
    decreases links, |p|
  {
    if p == [] {
      assert p + rest == rest;
      left := links;
    } else {
      assert (p + rest)[0] == p[0] && (p + rest)[1..] == p[1..] + rest;
      if p[0] == "" || p[0] == "." {
        left := ThroughDir(t, cur, p[1..], rest, follow, links);
      } else if p[0] == ".." {
        assert cur != [] ==> Sits(t, cur);
        left := ThroughDir(t, if cur == [] then cur else Parent(cur), p[1..], rest, follow, links);
      } else {
        var next := cur + [p[0]];
        match t[next] {
          case Dir => left := ThroughDir(t, next, p[1..], rest, follow, links);
          case Link(target) =>
            assert target.parts + (p[1..] + rest) == (target.parts + p[1..]) + rest;
            left := ThroughDir(t, if target.absolute then [] else cur, target.parts + p[1..], rest, follow, links - 1);
        }
      }
    }
  }

  /** A last name that is merely vacant has its directory in place. */
  lemma {:induction false} VacantParent(t: Tree, cur: Path, p: Path, name: string, links: nat)
    requires WellFormed(t) && PhysicalDir(t, cur) && PlainSegment(name)
    requires Walk(t, cur, p + [name], false, links).Vacant?
    ensures var q := Parent(Walk(t, cur, p + [name], false, links).at);
            Walk(t, cur, p, true, links) == Found(q) && Walk(t, cur, p + [name], false, links).at == q + [name]
    decreases links, |p|
  {
    var whole := p + [name];
    if p == [] {
      assert whole == [name];
      assert Parent(cur + [name]) == cur;
    } else {
      assert whole[0] == p[0] && whole[1..] == p[1..] + [name];
      if p[0] == "" || p[0] == "." {
        VacantParent(t, cur, p[1..], name, links);
      } else if p[0] == ".." {
        assert cur != [] ==> Sits(t, cur);
        VacantParent(t, if cur == [] then cur else Parent(cur), p[1..], name, links);
      } else {
        var next := cur + [p[0]];
        match t[next] {
          case Dir => VacantParent(t, next, p[1..], name, links);
          case Link(target) =>
            assert target.parts + (p[1..] + [name]) == (target.parts + p[1..]) + [name];
            VacantParent(t, if target.absolute then [] else cur, target.parts + p[1..], name, links - 1);
        }
      }
    }
  }

  /** u has everything t has. */
  ghost predicate Grown(t: Tree, u: Tree) {
    forall p :: p in t ==> p in u && u[p] == t[p]
  }

  lemma {:induction false} FoundStaysFound(t: Tree, u: Tree, cur: Path, p: Path, follow: bool, links: nat)
    requires WellFormed(t) && WellFormed(u) && Grown(t, u) && PhysicalDir(t, cur)
    requires Walk(t, cur, p, follow, links).Found?
    ensures Walk(u, cur, p, follow, links) == Walk(t, cur, p, follow, links)
    decreases links, |p|
  {
    if p != [] {
      if p[0] == "" || p[0] == "." {
        FoundStaysFound(t, u, cur, p[1..], follow, links);
      } else if p[0] == ".." {
        assert cur != [] ==> Sits(t, cur);
        FoundStaysFound(t, u, if cur == [] then cur else Parent(cur), p[1..], follow, links);
      } else {
        var next := cur + [p[0]];
        match t[next] {
          case Dir => FoundStaysFound(t, u, next, p[1..], follow, links);
          case File(_, _) =>
          case Link(target) =>
            if !(|p| == 1 && !follow) {
              FoundStaysFound(t, u, if target.absolute then [] else cur, target.parts + p[1..], follow, links - 1);
            }
        }
      }
    }
  }

  /** A directory just made at p has nothing in it, so nothing is found below p. */
  lemma NothingBelowNewDir(t: Tree, u: Tree, p: Path, rest: Path)
    requires WellFormed(t) && WellFormed(u) && MadeDir(t, p) == Step(u, true)
    requires p != [] && PlainSegments(p) && rest != [] && PlainSegments(rest)
    ensures Lstat(u, p + rest) == NotExist
  {
    var v := Walk(t, [], p, false, MAX_LINKS).at;
    assert Parent(p) + [Base(p)] == p;
    VacantParent(t, [], Parent(p), Base(p), MAX_LINKS);
    var q := Parent(v);
    FoundStaysFound(t, u, [], Parent(p), true, MAX_LINKS);
    var left := ThroughDir(u, [], Parent(p), [Base(p)] + rest, false, MAX_LINKS);
    assert Parent(p) + ([Base(p)] + rest) == p + rest;
    assert ([Base(p)] + rest)[1..] == rest;
    var below := v + [rest[0]];
    assert Parent(below) == v && (below in t ==> Sits(t, below));
    assert PlainSegment(rest[0]) && PlainSegment(Base(p));
    assert Walk(u, q, [Base(p)] + rest, false, left) == Walk(u, v, rest, false, left);
  }

  /** Below a resolved directory, a clear path is looked up directly. */
  lemma LookupThrough(t: Tree, p: Path, q: Path, rest: Path, follow: bool)
    requires WellFormed(t) && Walk(t, [], p, true, MAX_LINKS) == Found(q) && PhysicalDir(t, q)
    requires rest != [] && PlainSegments(rest) && Clear(t, q, rest)
    ensures Reaches(t, Walk(t, [], p + rest, follow, MAX_LINKS), q + rest, follow)
  {
    var left := ThroughDir(t, [], p, rest, follow, MAX_LINKS);
    WalkClear(t, q, rest, follow, left);
  }

  /** A path that resolves to something other than a link resolves there when links are followed too. */
  lemma {:induction false} FollowingChangesNothing(t: Tree, cur: Path, rest: Path, links: nat)
    requires WellFormed(t) && PhysicalDir(t, cur)
    requires var r := Walk(t, cur, rest, false, links); r.Found? && !t[r.at].Link?
    ensures Walk(t, cur, rest, true, links) == Walk(t, cur, rest, false, links)
    decreases links, |rest|
  {
    if rest != [] {
      if rest[0] == "" || rest[0] == "." {
        FollowingChangesNothing(t, cur, rest[1..], links);
      } else if rest[0] == ".." {
        assert cur != [] ==> Sits(t, cur);
        FollowingChangesNothing(t, if cur == [] then cur else Parent(cur), rest[1..], links);
      } else {
        var next := cur + [rest[0]];
        if t[next].Dir? {
          FollowingChangesNothing(t, next, rest[1..], links);
        } else if t[next].Link? && links > 0 {
          var target := t[next].target;
          FollowingChangesNothing(t, if target.absolute then [] else cur, target.parts + rest[1..], links - 1);
        }
      }
    }
  }
}
