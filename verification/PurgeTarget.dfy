/** Which directory a delete may purge: the walk up from every protected path, over a tree with links. */
module PurgeTarget {
  import opened Text

  type Path = seq<string>

  // The file system at one moment. Real paths have no links in them; resolve is the real path behind any
  // spelling that exists, links are the spellings whose last step is a link, and same compares the files
  // behind two real paths.
  datatype Tree = Tree(exist: set<Path>, dirs: set<Path>, links: set<Path>,
                       resolve: Path -> Option<Path>, same: (Path, Path) -> bool)

  function Up(p: Path): Path {
    if p == [] then [] else p[..|p| - 1]
  }

  ghost predicate Sound(t: Tree) {
    && [] in t.exist && t.resolve([]) == Some([])
    && t.dirs <= t.exist
    && (forall p :: p in t.exist ==> Up(p) in t.exist && t.resolve(p) == Some(p))
    && (forall p :: t.resolve(p).Some? ==> t.resolve(p).value in t.exist)
    && (forall p :: t.resolve(p).None? && p != [] && t.resolve(Up(p)).Some?
                    ==> t.resolve(Up(p)).value + [p[|p| - 1]] !in t.exist)
    && (forall p, q :: p in t.dirs && q in t.exist ==> (t.same(p, q) <==> p == q))
  }

  // The real location of a path, or of its nearest ancestor that exists.
  function Anchor(t: Tree, p: Path): Path
    decreases |p|
  {
    var r := t.resolve(p);
    if r.Some? then r.value else if p == [] then [] else Anchor(t, Up(p))
  }

  // One protected path: climbs from it to the root and refuses on meeting the target directory.
  method WalkMeets(t: Tree, target: Path, path: Path) returns (meets: bool)
    requires Sound(t) && target in t.dirs
    ensures meets <==> target <= Anchor(t, path)
  {
    var p := path;
    var found := false;
    while true
      invariant !found ==> Anchor(t, p) == Anchor(t, path)
      invariant found ==> p in t.exist && p <= Anchor(t, path)
      invariant found ==> (target <= Anchor(t, path) <==> target <= p)
      decreases if found then 0 else 1, |p|
    {
      if t.resolve(p).Some? {
        p := t.resolve(p).value;
        found := true;
        if t.same(target, p) {
          return true;
        }
        assert target != p;
      }
      if p == [] {
        return false;
      }
      ShorterPrefix(target, p);
      p := Up(p);
    }
  }

  lemma ShorterPrefix(a: Path, p: Path)
    requires p != []
    ensures a != p ==> (a <= p <==> a <= Up(p))
    ensures Up(p) <= p && |Up(p)| < |p|
  {
    if a <= p && a != p { assert a == p[..|a|] == Up(p)[..|a|]; }
  }

  // Where a path really lies: its real path, or would lie once made below its nearest ancestor that exists.
  function Home(t: Tree, p: Path): Path
    decreases |p|
  {
    var r := t.resolve(p);
    if r.Some? then r.value else if p == [] then [] else Home(t, Up(p)) + [p[|p| - 1]]
  }

  // The climb decides where the path lies, not only where its nearest ancestor does.
  lemma {:induction false} WalkDecidesHome(t: Tree, target: Path, p: Path)
    requires Sound(t) && target in t.exist
    ensures target <= Anchor(t, p) <==> target <= Home(t, p)
    ensures t.resolve(p).None? ==> Home(t, p) !in t.exist
    decreases |p|
  {
    if t.resolve(p).None? && p != [] {
      WalkDecidesHome(t, target, Up(p));
      var h := Home(t, p);
      assert Up(h) == Home(t, Up(p));
      if t.resolve(Up(p)).None? { assert h in t.exist ==> Up(h) in t.exist; }
      ShorterPrefix(target, h);
    }
  }

  datatype Verdict = Elsewhere | NothingThere | NotADirectory | Refused(path: Path) | MayPurge(target: Path)

  predicate SamePlace(t: Tree, a: Path, b: Path) {
    t.resolve(a).Some? && t.resolve(b).Some? && t.same(t.resolve(a).value, t.resolve(b).value)
  }

  // The first protected path that lies at the target or below it.
  method FirstMet(t: Tree, target: Path, protectedPaths: seq<Path>) returns (met: Option<Path>)
    requires Sound(t) && target in t.dirs
    ensures met.Some? ==> met.value in protectedPaths && target <= Home(t, met.value)
    ensures met.None? ==> forall p :: p in protectedPaths ==> !(target <= Home(t, p))
  {
    hide Sound, Home, Anchor;
    DirsExist(t, target);
    for k := 0 to |protectedPaths|
      invariant forall j :: 0 <= j < k ==> !(target <= Home(t, protectedPaths[j]))
    {
      var meets := WalkMeets(t, target, protectedPaths[k]);
      WalkDecidesHome(t, target, protectedPaths[k]);
      if meets {
        return Some(protectedPaths[k]);
      }
    }
    met := None;
  }

  lemma DirsExist(t: Tree, p: Path)
    requires Sound(t) && p in t.dirs
    ensures p in t.exist
  {
  }

  // purgeTarget. running lists the directories the tailnet's own nodes write to. A directory that is not
  // there is no obstacle: there is nothing to purge.
  method Judge(t: Tree, dir: Path, running: seq<Path>, protectedPaths: seq<Path>) returns (v: Verdict)
    requires Sound(t)
    ensures v.Elsewhere? <==> exists k :: 0 <= k < |running| && !SamePlace(t, dir, running[k])
    ensures v.NothingThere? <==> !v.Elsewhere? && dir !in t.links && t.resolve(dir).None?
    ensures v.NotADirectory? <==>
              !v.Elsewhere? && (dir in t.links || (t.resolve(dir).Some? && t.resolve(dir).value !in t.dirs))
    ensures v.Refused? ==> v.path in protectedPaths && t.resolve(dir).value <= Home(t, v.path)
    ensures v.MayPurge? ==> t.resolve(dir) == Some(v.target) && v.target in t.dirs
    ensures v.MayPurge? ==> forall p :: p in protectedPaths ==> !(v.target <= Home(t, p))
  {
    hide Sound, Home, SamePlace;
    for k := 0 to |running|
      invariant forall j :: 0 <= j < k ==> SamePlace(t, dir, running[j])
    {
      if !SamePlace(t, dir, running[k]) {
        return Elsewhere;
      }
    }
    if dir in t.links {
      return NotADirectory;
    }
    if t.resolve(dir).None? {
      return NothingThere;
    }
    var target := t.resolve(dir).value;
    if target !in t.dirs {
      return NotADirectory;
    }
    var met := FirstMet(t, target, protectedPaths);
    v := if met.Some? then Refused(met.value) else MayPurge(target);
  }

  // A tree without links, all of whose paths are directories.
  function PlainTree(dirs: set<Path>): Tree {
    Tree(dirs, dirs, {}, p => if p in dirs then Some(p) else None, (p, q) => p == q)
  }

  ghost predicate Closed(dirs: set<Path>) {
    [] in dirs && forall p :: p in dirs ==> Up(p) in dirs
  }

  lemma PlainTreeIsSound(dirs: set<Path>)
    requires Closed(dirs)
    ensures Sound(PlainTree(dirs))
  {
    var t := PlainTree(dirs);
    forall p | t.resolve(p).None? && p != [] && t.resolve(Up(p)).Some?
      ensures t.resolve(Up(p)).value + [p[|p| - 1]] !in t.exist
    {
      assert Up(p) + [p[|p| - 1]] == p;
    }
  }

  lemma {:induction false} PlainHome(dirs: set<Path>, p: Path)
    ensures Home(PlainTree(dirs), p) == p
    decreases |p|
  {
    if p !in dirs && p != [] {
      PlainHome(dirs, Up(p));
      assert Up(p) + [p[|p| - 1]] == p;
    }
  }

  lemma {:induction false} ClosedHolds(dirs: set<Path>, a: Path, p: Path)
    requires Closed(dirs) && p in dirs && a <= p
    ensures a in dirs
    decreases |p|
  {
    if a != p {
      ShorterPrefix(a, p);
      ClosedHolds(dirs, a, Up(p));
    }
  }

  // What is left after the target and everything below it is removed.
  ghost function Survivors(t: Tree, target: Path): set<Path> {
    set p | p in t.exist && !(target <= p)
  }

  lemma {:induction false} PrefixExists(t: Tree, p: Path, n: nat)
    requires Sound(t) && p in t.exist && n <= |p|
    ensures p[..n] in t.exist
    decreases |p|
  {
    if n == |p| {
      assert p[..n] == p;
    } else {
      assert Up(p)[..n] == p[..n];
      PrefixExists(t, Up(p), n);
    }
  }

  lemma PrefixOfPrefix(a: Path, r: Path, n: nat)
    requires n <= |r| && a <= r[..n]
    ensures a <= r
  {
    assert r[..|a|] == r[..n][..|a|];
  }

  lemma PrefixesNest(a: Path, b: Path, p: Path)
    requires a <= p && b <= p
    ensures a <= b || b <= a
  {
    if |a| <= |b| {
      assert b[..|a|] == p[..|b|][..|a|] == p[..|a|];
    } else {
      assert a[..|b|] == p[..|a|][..|b|] == p[..|b|];
    }
  }

  // A target the walk passes takes no protected location with it, nor anything on the way there; one it
  // refuses would have.
  lemma PurgeSparesIff(t: Tree, target: Path, path: Path)
    requires Sound(t) && target in t.dirs
    ensures !(target <= Anchor(t, path))
        <==> forall n :: 0 <= n <= |Anchor(t, path)| ==> Anchor(t, path)[..n] in Survivors(t, target)
  {
    var r := Anchor(t, path);
    AnchorExists(t, path);
    if !(target <= r) {
      forall n | 0 <= n <= |r| ensures r[..n] in Survivors(t, target) {
        PrefixExists(t, r, n);
        if target <= r[..n] { PrefixOfPrefix(target, r, n); }
      }
    } else {
      assert r[..|r|] == r;
    }
  }

  lemma {:induction false} AnchorExists(t: Tree, p: Path)
    requires Sound(t)
    ensures Anchor(t, p) in t.exist
    decreases |p|
  {
    if t.resolve(p).None? && p != [] { AnchorExists(t, Up(p)); }
  }

  // The walk looks only upward. A target inside a protected directory passes, and the purge then takes part
  // of that directory: meant for the shared base, but just as true of another tailnet's state_dir.
  lemma TargetInsidePasses(t: Tree, target: Path, path: Path)
    requires Sound(t) && target in t.dirs && !(target <= Anchor(t, path))
    ensures (forall p :: p in t.exist && Anchor(t, path) <= p ==> p in Survivors(t, target))
        <==> !(Anchor(t, path) <= target)
  {
    var r := Anchor(t, path);
    forall p | p in t.exist && r <= p && target <= p ensures r <= target {
      PrefixesNest(target, r, p);
    }
    assert target !in Survivors(t, target);
  }
}
