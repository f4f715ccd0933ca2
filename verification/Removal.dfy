/** Deleting a tailnet and resetting its identity: protocols of ordered writes that may fail or be cut short
    by a crash after any of them. */
module Removal {
  import opened Text
  import opened Config
  import opened ConfigWrite
  import opened WriteLaws
  import opened Writes
  import opened Requests
  import opened PurgeTarget

  // What a directory holds: the saved node identity, if any, and whether selection pins are kept there.
  datatype Store = Store(key: Option<nat>, pins: bool)

  const EMPTY_DIR: Store := Store(None, false)

  // A running node: the directory it writes to and the identity it runs.
  datatype Node = Node(name: string, dir: Path, key: nat)

  // How far a delete or reset got: entry switched off, node stopped, state purged.
  datatype Progress =
    | Idle
    | Off(name: string, del: bool)
    | Stopped(name: string, del: bool)
    | Purged(name: string)

  // stores has every directory there is, by its real path. A fresh enrollment mints nextKey.
  datatype Sys = Sys(disk: seq<TailnetConf>, live: set<Node>, stores: map<Path, Store>, nextKey: nat, at: Progress)

  // Where a tailnet keeps its state, by name below the shared base or at its own state_dir; and what no
  // purge may take: the base, the config file and the hosts file.
  datatype World = World(place: (string, string) -> Path, fixed: seq<Path>)

  function DirOf(w: World, tc: TailnetConf): Path {
    w.place(tc.name, tc.stateDir)
  }

  // The files a purge that breaks off had reached: identities and pins of these directories.
  datatype Loss = Loss(keys: set<Path>, pins: set<Path>)

  // What can happen. An add appends its entry unchecked, under a lock hold of its own. Stops and starts stand
  // for sync, restart and background retry, which start nothing but entries that are on and not running; a
  // running node may write its pins at any time. Stopping a node cannot fail, so between the first write and
  // the stop only a crash can.
  datatype Step =
    | Edit(q: Request, env: Env)
    | Append(conf: TailnetConf)
    | SavePins(node: Node)
    | StopAny(node: Node)
    | StartAny(i: nat)
    | Begin(name: string, del: bool)
    | StopNode
    | Purge
    | Forget
    | Fail(loss: Loss)
    | Crash(loss: Loss)

  predicate RunsNamed(s: Sys, name: string) {
    exists n :: n in s.live && EqualFold(n.name, name)
  }

  // A delete of dir takes the whole tree below it, a reset one file in it.
  predicate Hits(del: bool, dir: Path, p: Path) {
    if del then dir <= p else dir == p
  }

  // Nothing of a tailnet of another name, and for a delete nothing protected, lies where the purge would go.
  predicate Spares(s: Sys, w: World, i: nat, del: bool)
    requires i < |s.disk|
  {
    var tc := s.disk[i];
    && (forall j :: 0 <= j < |s.disk| && !EqualFold(s.disk[j].name, tc.name)
                    ==> !Hits(del, DirOf(w, tc), DirOf(w, s.disk[j])))
    && (forall n :: n in s.live && !EqualFold(n.name, tc.name) ==> !Hits(del, DirOf(w, tc), n.dir))
    && (del ==> forall k :: 0 <= k < |w.fixed| ==> !(DirOf(w, tc) <= w.fixed[k]))
  }

  predicate RunsInPlace(s: Sys, w: World, tc: TailnetConf) {
    forall n :: n in s.live && EqualFold(n.name, tc.name) ==> n.dir == DirOf(w, tc)
  }

  // The checks before a delete or reset: unlocked, the running node really is in the directory, and a
  // directory that exists may be purged.
  predicate MayBegin(s: Sys, w: World, i: nat, del: bool)
    requires i < |s.disk|
  {
    && s.disk[i].locked == []
    && RunsInPlace(s, w, s.disk[i])
    && (DirOf(w, s.disk[i]) in s.stores ==> Spares(s, w, i, del))
  }

  // A purge gone through: a delete takes the directory with everything below it, a reset the identity.
  function PurgedStores(stores: map<Path, Store>, dir: Path, del: bool): map<Path, Store> {
    if del then map d | d in stores && !(dir <= d) :: stores[d]
    else if dir in stores then stores[dir := stores[dir].(key := None)]
    else stores
  }

  // A purge broken off: a delete may have reached any file below, a reset only the identity.
  function BrokenStores(stores: map<Path, Store>, dir: Path, del: bool, loss: Loss): map<Path, Store> {
    map d | d in stores ::
      if !Hits(del, dir, d) then stores[d]
      else Store(if d in loss.keys then None else stores[d].key, stores[d].pins && !(del && d in loss.pins))
  }

  function DirAt(s: Sys, w: World, name: string): Option<Path> {
    var i := IndexByName(s.disk, name);
    if i < |s.disk| then Some(DirOf(w, s.disk[i])) else None
  }

  // The stores when a purge breaks off.
  function Broken(s: Sys, w: World, loss: Loss): map<Path, Store> {
    var dir := if s.at.Stopped? then DirAt(s, w, s.at.name) else None;
    if dir.Some? then BrokenStores(s.stores, dir.value, s.at.del, loss) else s.stores
  }

  // The file after a change of the record; a refused write leaves it alone.
  function Put(s: Sys, next: seq<TailnetConf>): Sys {
    var file := Write(s.disk, s.disk, next);
    if file.None? then s else s.(disk := file.value)
  }

  function SwitchedOff(disk: seq<TailnetConf>, i: nat): seq<TailnetConf>
    requires i < |disk|
  {
    disk[i := Revoked(disk[i])]
  }

  // One step; a step whose guard fails changes nothing. A delete or reset holds the config lock, so only
  // its own steps, its failure, pins or a crash can follow until it ends.
  function Next(s: Sys, w: World, step: Step): Sys {
    match step
    case Edit(q, env) =>
      if s.at != Idle || !q.Update? then s
      else if q.view.Some? && !RunsNamed(s, q.tailnet) then s
      else Put(s, Serve(s.disk, q, env))
    case Append(conf) => if s.at != Idle then s else Put(s, s.disk + [Fresh(conf)])
    case SavePins(node) =>
      if node !in s.live || node.dir !in s.stores then s
      else s.(stores := s.stores[node.dir := s.stores[node.dir].(pins := true)])
    case StopAny(node) => if s.at != Idle then s else s.(live := s.live - {node})
    case StartAny(i) =>
      if s.at != Idle || i >= |s.disk| || !s.disk[i].Enabled() || RunsNamed(s, s.disk[i].name) then s
      else Start(s, s.disk[i].name, DirOf(w, s.disk[i]))
    case Begin(name, del) =>
      var i := IndexByName(s.disk, name);
      if s.at != Idle || i == |s.disk| || !MayBegin(s, w, i, del) then s
      else
        var file := Write(s.disk, s.disk, SwitchedOff(s.disk, i));
        if file.None? then s else s.(disk := file.value, at := Off(s.disk[i].name, del))
    case StopNode =>
      if !s.at.Off? then s
      else s.(live := (set n | n in s.live && !EqualFold(n.name, s.at.name)), at := Stopped(s.at.name, s.at.del))
    case Purge =>
      if !s.at.Stopped? then s
      else
        var dir := DirAt(s, w, s.at.name);
        if dir.None? then s
        else s.(stores := PurgedStores(s.stores, dir.value, s.at.del),
                at := if s.at.del then Purged(s.at.name) else Idle)
    case Forget => if !s.at.Purged? then s else s.(disk := RemoveNamed(s.disk, s.at.name), at := Idle)
    case Fail(loss) => if s.at.Off? then s else s.(stores := Broken(s, w, loss), at := Idle)
    case Crash(loss) => s.(stores := Broken(s, w, loss), live := {}, at := Idle)
  }

  // The directory and every directory above it.
  function WithParents(dir: Path): set<Path> {
    set n | 0 <= n <= |dir| :: dir[..n]
  }

  // A start makes the directory, then takes up the identity kept there, or enrolls a new one.
  function Start(s: Sys, name: string, dir: Path): Sys {
    var made := map d | d in s.stores.Keys + WithParents(dir) :: if d in s.stores then s.stores[d] else EMPTY_DIR;
    var kept := if dir in s.stores then s.stores[dir] else EMPTY_DIR;
    var key := if kept.key.Some? then kept.key.value else s.nextKey;
    s.(live := s.live + {Node(name, dir, key)},
       stores := made[dir := kept.(key := Some(key))],
       nextKey := if kept.key.Some? then s.nextKey else s.nextKey + 1)
  }

  function After(s: Sys, w: World, run: seq<Step>): Sys {
    if run == [] then s else Next(After(s, w, run[..|run| - 1]), w, run[|run| - 1])
  }

  // ---- the invariant ----

  // Every running node runs the identity saved in its directory, and no identity is saved twice.
  ghost predicate KeysOk(s: Sys) {
    && (forall n :: n in s.live ==> n.dir in s.stores && s.stores[n.dir].key == Some(n.key))
    && (forall d :: d in s.stores && s.stores[d].key.Some? ==> s.stores[d].key.value < s.nextKey)
    && (forall d, e :: d in s.stores && e in s.stores && s.stores[d].key.Some? && s.stores[d].key == s.stores[e].key
          ==> d == e)
  }

  // The entry under way is switched off and unlocked, and its directory may be purged.
  ghost predicate UnderWay(s: Sys, w: World, name: string, del: bool) {
    var i := IndexByName(s.disk, name);
    && i < |s.disk| && s.disk[i].name == name && !s.disk[i].Enabled() && MayBegin(s, w, i, del)
  }

  // No name runs twice.
  ghost predicate LiveOnce(s: Sys) {
    forall m, n :: m in s.live && n in s.live && EqualFold(m.name, n.name) ==> m == n
  }

  ghost predicate AtOk(s: Sys, w: World) {
    match s.at
    case Idle => true
    case Off(name, del) => UnderWay(s, w, name, del)
    case Stopped(name, del) => UnderWay(s, w, name, del) && !RunsNamed(s, name)
    case Purged(name) => UnderWay(s, w, name, true) && !RunsNamed(s, name) && DirAt(s, w, name).value !in s.stores
  }

  // Nothing is asked of the file. Some path is protected: there always is a base directory, so the root is
  // never purged.
  ghost predicate Inv(s: Sys, w: World) {
    KeysOk(s) && LiveOnce(s) && Closed(s.stores.Keys) && AtOk(s, w) && w.fixed != []
  }

  // ---- directories ----

  lemma ParentsClose(dirs: set<Path>, dir: Path)
    requires Closed(dirs)
    ensures Closed(dirs + WithParents(dir)) && dir in WithParents(dir)
  {
    assert dir[..|dir|] == dir;
    forall p | p in WithParents(dir) ensures Up(p) in WithParents(dir) {
      var n :| 0 <= n <= |dir| && p == dir[..n];
      assert n > 0 ==> Up(p) == dir[..n - 1];
      assert n == 0 ==> Up(p) == dir[..0];
    }
  }

  lemma StartKeepsDirs(s: Sys, name: string, dir: Path)
    requires Closed(s.stores.Keys)
    ensures Closed(Start(s, name, dir).stores.Keys)
  {
    hide Closed;
    ParentsClose(s.stores.Keys, dir);
    assert Start(s, name, dir).stores.Keys == s.stores.Keys + WithParents(dir);
  }

  lemma PurgeKeepsDirs(stores: map<Path, Store>, dir: Path, del: bool)
    requires Closed(stores.Keys) && (del ==> dir != [])
    ensures Closed(PurgedStores(stores, dir, del).Keys)
  {
    if del {
      var left := PurgedStores(stores, dir, del);
      forall p | p in left ensures Up(p) in left {
        if dir <= Up(p) { UpIsPrefix(dir, p); }
      }
    } else if dir in stores {
      assert PurgedStores(stores, dir, del).Keys == stores.Keys;
    }
  }

  lemma UpIsPrefix(a: Path, p: Path)
    requires a <= Up(p)
    ensures a <= p
  {
    if p != [] { assert p[..|a|] == Up(p)[..|a|]; }
  }

  lemma BreakKeepsDirs(s: Sys, w: World, loss: Loss)
    ensures Broken(s, w, loss).Keys == s.stores.Keys
  {
  }

  // ---- identities ----

  lemma StartKeepsKeys(s: Sys, name: string, dir: Path)
    requires KeysOk(s)
    ensures KeysOk(Start(s, name, dir))
  {
    hide WithParents;
    StartKeepsStores(s, name, dir);
  }

  // A start changes at most the identity of its own directory; what it makes besides is empty.
  lemma StartKeepsStores(s: Sys, name: string, dir: Path)
    ensures var r := Start(s, name, dir);
      && dir in r.stores && r.disk == s.disk && r.at == s.at
      && (forall d :: d in s.stores && d != dir ==> d in r.stores && r.stores[d] == s.stores[d])
      && (forall d :: d in r.stores && d !in s.stores && d != dir ==> r.stores[d] == EMPTY_DIR)
      && (dir in s.stores && s.stores[dir].key.Some? ==> r.stores[dir] == s.stores[dir])
      && (dir in s.stores ==> r.stores[dir].pins == s.stores[dir].pins)
  {
    hide WithParents;
  }

  lemma PurgeKeepsKeys(s: Sys, dir: Path, del: bool)
    requires KeysOk(s) && forall n :: n in s.live ==> !Hits(del, dir, n.dir)
    ensures KeysOk(s.(stores := PurgedStores(s.stores, dir, del)))
  {
  }

  lemma BreakKeepsKeys(s: Sys, dir: Path, del: bool, loss: Loss)
    requires KeysOk(s) && forall n :: n in s.live ==> !Hits(del, dir, n.dir)
    ensures KeysOk(s.(stores := BrokenStores(s.stores, dir, del, loss)))
  {
    hide Hits;
  }

  // Nobody runs where the purge of a stopped entry goes.
  lemma StoppedDirIsQuiet(s: Sys, w: World, name: string, del: bool)
    requires KeysOk(s) && Closed(s.stores.Keys) && UnderWay(s, w, name, del) && !RunsNamed(s, name)
    ensures DirAt(s, w, name).Some? && forall n :: n in s.live ==> !Hits(del, DirAt(s, w, name).value, n.dir)
    ensures del && w.fixed != [] && DirAt(s, w, name).value in s.stores ==> DirAt(s, w, name).value != []
  {
    hide EqualFold, Closed;
    var dir := DirAt(s, w, name).value;
    forall n | n in s.live ensures !Hits(del, dir, n.dir) {
      if Hits(del, dir, n.dir) { HitExists(s.stores.Keys, del, dir, n.dir); }
    }
    if dir == [] && del && w.fixed != [] { assert dir <= w.fixed[0]; }
  }

  // A purge that would reach a directory has its own directory above it, or at it.
  lemma HitExists(dirs: set<Path>, del: bool, dir: Path, p: Path)
    requires Closed(dirs) && p in dirs && Hits(del, dir, p)
    ensures dir in dirs
  {
    if del { ClosedHolds(dirs, dir, p); }
  }

  // The first entry of a name is also the first of that entry's own name.
  lemma FirstIsFirst(disk: seq<TailnetConf>, name: string)
    requires IndexByName(disk, name) < |disk|
    ensures IndexByName(disk, disk[IndexByName(disk, name)].name) == IndexByName(disk, name)
  {
    hide EqualFold;
    var i := IndexByName(disk, name);
    var full := disk[i].name;
    FoldsToItself(full);
    forall j | 0 <= j < i ensures !EqualFold(disk[j].name, full) { FoldsThrough(full, name, disk[j].name); }
  }

  // ---- every step keeps the invariant ----

  // What a write that is not structural leaves as it was.
  ghost predicate Alike(a: seq<TailnetConf>, b: seq<TailnetConf>) {
    |a| == |b|
    && forall k :: 0 <= k < |a|
         ==> a[k].name == b[k].name && a[k].stateDir == b[k].stateDir && a[k].locked == b[k].locked
  }

  lemma BegunWrite(disk: seq<TailnetConf>, i: nat)
    requires i < |disk| && Write(disk, disk, SwitchedOff(disk, i)).Some?
    ensures var out := Write(disk, disk, SwitchedOff(disk, i)).value;
      && Alike(disk, out) && !out[i].Enabled()
      && forall k :: 0 <= k < |disk| && k != i ==> out[k].Enabled() == disk[k].Enabled()
  {
    hide Write;
    var out, off := Write(disk, disk, SwitchedOff(disk, i)).value, SwitchedOff(disk, i);
    WrittenAlike(disk, disk, off);
    forall k | 0 <= k < |disk|
      ensures out[k].name == disk[k].name && out[k].stateDir == disk[k].stateDir && out[k].locked == disk[k].locked
      ensures out[k].Enabled() == (k != i && disk[k].Enabled())
    {
      assert Keyless(out[k]) == Keyless(off[k]);
      assert out[k] == Keyless(out[k]).(authKey := out[k].authKey);
    }
  }

  lemma AlikeIndex(a: seq<TailnetConf>, b: seq<TailnetConf>, name: string)
    requires Alike(a, b)
    ensures IndexByName(a, name) == IndexByName(b, name)
  {
    hide EqualFold;
    var i, j := IndexByName(a, name), IndexByName(b, name);
    assert i < |a| ==> EqualFold(b[i].name, name);
    assert j < |b| ==> EqualFold(a[j].name, name);
  }

  // Switching an entry off moves no directory.
  lemma AlikeSpares(s: Sys, r: Sys, w: World, i: nat, del: bool)
    requires Alike(s.disk, r.disk) && r.live == s.live && i < |s.disk|
    ensures Spares(r, w, i, del) == Spares(s, w, i, del)
    ensures RunsInPlace(r, w, r.disk[i]) == RunsInPlace(s, w, s.disk[i])
    ensures DirOf(w, r.disk[i]) == DirOf(w, s.disk[i])
  {
    hide EqualFold, Hits;
    assert forall j :: 0 <= j < |s.disk| ==> DirOf(w, r.disk[j]) == DirOf(w, s.disk[j]);
  }

  lemma KeysIgnoreDisk(s: Sys, s': Sys)
    requires s'.live <= s.live && s'.stores == s.stores && s'.nextKey == s.nextKey
    ensures KeysOk(s) ==> KeysOk(s')
    ensures LiveOnce(s) ==> LiveOnce(s')
  {
    hide EqualFold;
  }

  lemma BeginKeeps(s: Sys, w: World, name: string, del: bool)
    requires Inv(s, w)
    ensures Inv(Next(s, w, Begin(name, del)), w)
  {
    hide EqualFold, KeysOk, LiveOnce, Closed, Spares, RunsInPlace, Revoked, DirOf, Write, Alike;
    var i := IndexByName(s.disk, name);
    var r := Next(s, w, Begin(name, del));
    if r != s {
      BegunWrite(s.disk, i);
      FirstIsFirst(s.disk, name);
      AlikeIndex(s.disk, r.disk, s.disk[i].name);
      AlikeSpares(s, r, w, i, del);
      AlikeAt(s.disk, r.disk, i);
      KeysIgnoreDisk(s, r);
    }
  }

  lemma AlikeAt(a: seq<TailnetConf>, b: seq<TailnetConf>, k: nat)
    requires Alike(a, b) && k < |a|
    ensures |a| == |b| && a[k].name == b[k].name && a[k].stateDir == b[k].stateDir && a[k].locked == b[k].locked
  {
  }

  // With fewer nodes, what was spared is still spared.
  lemma FewerNodesSpare(s: Sys, r: Sys, w: World, i: nat, del: bool)
    requires i < |s.disk| && r.disk == s.disk && r.live <= s.live
    ensures Spares(s, w, i, del) ==> Spares(r, w, i, del)
    ensures RunsInPlace(s, w, s.disk[i]) ==> RunsInPlace(r, w, s.disk[i])
  {
    hide EqualFold, Hits;
  }

  lemma StopNodeKeeps(s: Sys, w: World)
    requires Inv(s, w)
    ensures Inv(Next(s, w, StopNode), w)
  {
    hide EqualFold, KeysOk, LiveOnce, Closed, Spares, RunsInPlace, Revoked;
    if s.at.Off? {
      var r := Next(s, w, StopNode);
      KeysIgnoreDisk(s, r);
      FewerNodesSpare(s, r, w, IndexByName(s.disk, s.at.name), s.at.del);
    }
  }

  lemma PurgeKeeps(s: Sys, w: World)
    requires Inv(s, w)
    ensures Inv(Next(s, w, Purge), w)
  {
    hide EqualFold, KeysOk, LiveOnce, Closed, Spares, RunsInPlace, Revoked, Hits;
    if s.at.Stopped? {
      StoppedDirIsQuiet(s, w, s.at.name, s.at.del);
      var dir := DirAt(s, w, s.at.name).value;
      PurgeKeepsKeys(s, dir, s.at.del);
      if s.at.del && dir !in s.stores {
        NothingToPurge(s.stores, dir);
      } else {
        PurgeKeepsDirs(s.stores, dir, s.at.del);
      }
      PurgedIsGone(s.stores, dir);
      FewerNodesSpare(s, Next(s, w, Purge), w, IndexByName(s.disk, s.at.name), s.at.del);
      KeysIgnoreStores(s, s.(stores := PurgedStores(s.stores, dir, s.at.del)));
      KeysIgnoreDisk(s.(stores := PurgedStores(s.stores, dir, s.at.del)), Next(s, w, Purge));
    }
  }

  lemma PurgedIsGone(stores: map<Path, Store>, dir: Path)
    ensures dir !in PurgedStores(stores, dir, true)
  {
  }

  // Without the directory there is nothing below it either.
  lemma NothingToPurge(stores: map<Path, Store>, dir: Path)
    requires Closed(stores.Keys) && dir !in stores
    ensures PurgedStores(stores, dir, true) == stores
  {
    hide Closed;
    forall d | d in stores ensures !(dir <= d) {
      if dir <= d { ClosedHolds(stores.Keys, dir, d); }
    }
  }

  lemma BrokenKeeps(s: Sys, w: World, loss: Loss)
    requires Inv(s, w)
    ensures KeysOk(s.(stores := Broken(s, w, loss)))
  {
    hide EqualFold, LiveOnce, BrokenStores, KeysOk, Closed, Hits, MayBegin, Revoked;
    if s.at.Stopped? {
      StoppedDirIsQuiet(s, w, s.at.name, s.at.del);
      BreakKeepsKeys(s, DirAt(s, w, s.at.name).value, s.at.del, loss);
    }
  }

  lemma SavePinsKeeps(s: Sys, w: World, node: Node)
    requires Inv(s, w)
    ensures Inv(Next(s, w, SavePins(node)), w)
  {
    hide EqualFold, LiveOnce, Closed, Spares, RunsInPlace, RunsNamed;
    var r := Next(s, w, SavePins(node));
    assert r.stores.Keys == s.stores.Keys;
    KeysIgnoreStores(s, r);
  }

  lemma KeysIgnoreStores(s: Sys, r: Sys)
    requires r.live == s.live
    ensures LiveOnce(s) ==> LiveOnce(r)
    ensures forall w, i, del :: 0 <= i < |s.disk| && r.disk == s.disk ==> Spares(r, w, i, del) == Spares(s, w, i, del)
    ensures forall w, tc :: RunsInPlace(r, w, tc) == RunsInPlace(s, w, tc)
    ensures forall name :: RunsNamed(r, name) == RunsNamed(s, name)
  {
  }

  lemma StartKeepsOnce(s: Sys, name: string, dir: Path)
    requires LiveOnce(s) && !RunsNamed(s, name)
    ensures LiveOnce(Start(s, name, dir))
  {
    hide EqualFold, WithParents;
    var r := Start(s, name, dir);
    forall m, n | m in r.live && n in r.live && EqualFold(m.name, n.name) ensures m == n {
      if m !in s.live && n in s.live { FoldsBack(name, n.name); }
    }
  }

  lemma NextKeeps(s: Sys, w: World, step: Step)
    requires Inv(s, w)
    ensures Inv(Next(s, w, step), w)
  {
    hide EqualFold, KeysOk, LiveOnce, Closed, UnderWay, Broken, Start, MayBegin, RunsNamed, Serve, Write;
    var r := Next(s, w, step);
    match step {
      case Edit(q, env) => KeysIgnoreDisk(s, r);
      case Append(conf) => KeysIgnoreDisk(s, r);
      case SavePins(node) => SavePinsKeeps(s, w, node);
      case StopAny(node) => KeysIgnoreDisk(s, r);
      case StartAny(i) =>
        if r != s {
          StartKeepsKeys(s, s.disk[i].name, DirOf(w, s.disk[i]));
          StartKeepsDirs(s, s.disk[i].name, DirOf(w, s.disk[i]));
          StartKeepsStores(s, s.disk[i].name, DirOf(w, s.disk[i]));
          StartKeepsOnce(s, s.disk[i].name, DirOf(w, s.disk[i]));
        }
      case Begin(name, del) => BeginKeeps(s, w, name, del);
      case StopNode => StopNodeKeeps(s, w);
      case Purge => PurgeKeeps(s, w);
      case Forget => KeysIgnoreDisk(s, r);
      case Fail(loss) =>
        BrokenKeeps(s, w, loss);
        BreakKeepsDirs(s, w, loss);
        KeysIgnoreStores(s, s.(stores := Broken(s, w, loss)));
        if !s.at.Off? { KeysIgnoreDisk(s.(stores := Broken(s, w, loss)), r); }
      case Crash(loss) =>
        BrokenKeeps(s, w, loss);
        BreakKeepsDirs(s, w, loss);
        KeysIgnoreStores(s, s.(stores := Broken(s, w, loss)));
        KeysIgnoreDisk(s.(stores := Broken(s, w, loss)), r);
    }
  }

  lemma {:induction false} AfterKeeps(s: Sys, w: World, run: seq<Step>)
    requires Inv(s, w)
    ensures Inv(After(s, w, run), w)
  {
    hide Inv, Next;
    if run != [] {
      AfterKeeps(s, w, run[..|run| - 1]);
      NextKeeps(After(s, w, run[..|run| - 1]), w, run[|run| - 1]);
    }
  }

  // From a fresh process over any file and an empty disk.
  lemma EveryReachableHost(file: seq<TailnetConf>, w: World, run: seq<Step>)
    requires w.fixed != []
    ensures Inv(After(Sys(file, {}, map[[] := EMPTY_DIR], 0, Idle), w, run), w)
  {
    hide After;
    var stores: map<Path, Store> := map[[] := EMPTY_DIR];
    assert stores.Keys == {[]};
    AfterKeeps(Sys(file, {}, stores, 0, Idle), w, run);
  }

  // Where one attempt breaks off.
  datatype Fault = NoFault | OffUnwritten | PurgeFails(loss: Loss) | GoneUnwritten

  // handleRemoveTailnet as a whole.
  function DeleteOf(s: Sys, w: World, name: string, fault: Fault): Sys {
    if fault.OffUnwritten? then s
    else
      var off := Next(s, w, Begin(name, true));
      if off == s then s
      else
        var stopped := Next(off, w, StopNode);
        if fault.PurgeFails? then Next(stopped, w, Fail(fault.loss))
        else
          var purged := Next(stopped, w, Purge);
          if fault.GoneUnwritten? then Next(purged, w, Fail(Loss({}, {}))) else Next(purged, w, Step.Forget)
  }

  // handleResetIdentity as a whole.
  function ResetOf(s: Sys, w: World, name: string, fault: Fault): Sys {
    if fault.OffUnwritten? then s
    else
      var off := Next(s, w, Begin(name, false));
      if off == s then s
      else
        var stopped := Next(off, w, StopNode);
        if fault.PurgeFails? then Next(stopped, w, Fail(fault.loss)) else Next(stopped, w, Purge)
  }
}
