/** What delete and reset guarantee, whichever write fails and wherever a crash comes. */
module RemovalLaws {
  import opened Text
  import opened Config
  import opened ConfigWrite
  import opened WriteLaws
  import opened Writes
  import opened Requests
  import opened PurgeTarget
  import opened Removal

  // ---- state is touched late, entries go last ----

  // A saved identity is lost only to the purge of a delete or reset, with nobody running in its directory,
  // and never from the directory of an entry of another name.
  lemma IdentityLostOnlyWhenStopped(s: Sys, w: World, step: Step, d: Path)
    requires Inv(s, w) && d in s.stores && s.stores[d].key.Some?
    requires var r := Next(s, w, step); !(d in r.stores && r.stores[d].key == s.stores[d].key)
    ensures s.at.Stopped? && DirAt(s, w, s.at.name).Some? && Hits(s.at.del, DirAt(s, w, s.at.name).value, d)
    ensures forall n :: n in s.live ==> n.dir != d
    ensures forall j :: 0 <= j < |s.disk| && !EqualFold(s.disk[j].name, s.at.name) ==> DirOf(w, s.disk[j]) != d
  {
    hide EqualFold, KeysOk, LiveOnce, Closed, Serve, Write, MayBegin, Start, AtOk, RunsNamed;
    LossIsAPurge(s, w, step, d);
    StoppedSpares(s, w, d);
  }

  lemma LossIsAPurge(s: Sys, w: World, step: Step, d: Path)
    requires d in s.stores
    requires var r := Next(s, w, step);
      !(d in r.stores && (s.stores[d].key.Some? ==> r.stores[d].key == s.stores[d].key)
        && (s.stores[d].pins ==> r.stores[d].pins))
    ensures s.at.Stopped? && DirAt(s, w, s.at.name).Some? && Hits(s.at.del, DirAt(s, w, s.at.name).value, d)
    ensures step.Purge? || step.Fail? || step.Crash?
  {
    hide EqualFold, Serve, Write, MayBegin, Start, RunsNamed, DirAt, Revoked, IndexByName;
    if step.StartAny? && step.i < |s.disk| { StartKeepsStores(s, s.disk[step.i].name, DirOf(w, s.disk[step.i])); }
  }

  lemma StoppedSpares(s: Sys, w: World, d: Path)
    requires Inv(s, w) && s.at.Stopped? && d in s.stores
    requires DirAt(s, w, s.at.name).Some? && Hits(s.at.del, DirAt(s, w, s.at.name).value, d)
    ensures forall n :: n in s.live ==> n.dir != d
    ensures forall j :: 0 <= j < |s.disk| && !EqualFold(s.disk[j].name, s.at.name) ==> DirOf(w, s.disk[j]) != d
  {
    hide EqualFold, KeysOk, Closed, Revoked, Hits;
    StoppedDirIsQuiet(s, w, s.at.name, s.at.del);
    HitExists(s.stores.Keys, s.at.del, DirAt(s, w, s.at.name).value, d);
  }

  // Selection pins go only while a delete purges, even one that breaks off. A reset never takes them,
  // whether it goes through, fails or crashes.
  lemma PinsGoOnlyWithADelete(s: Sys, w: World, step: Step, d: Path)
    requires Inv(s, w) && d in s.stores && s.stores[d].pins
    requires var r := Next(s, w, step); !(d in r.stores && r.stores[d].pins)
    ensures s.at.Stopped? && s.at.del && DirAt(s, w, s.at.name).Some? && DirAt(s, w, s.at.name).value <= d
    ensures step.Purge? || step.Fail? || step.Crash?
    ensures forall j :: 0 <= j < |s.disk| && !EqualFold(s.disk[j].name, s.at.name) ==> DirOf(w, s.disk[j]) != d
  {
    hide EqualFold, KeysOk, Closed, Serve, MayBegin, Start, AtOk, RunsNamed, DirAt;
    LossIsAPurge(s, w, step, d);
    StoppedSpares(s, w, d);
  }

  // A broken delete really may lose either file without the other.
  lemma BrokenDeleteLosesEither(s: Sys, w: World, dir: Path)
    requires s.at.Stopped? && s.at.del && DirAt(s, w, s.at.name) == Some(dir)
    requires dir in s.stores && s.stores[dir] == Store(Some(0), true)
    ensures Next(s, w, Fail(Loss({dir}, {}))).stores[dir] == Store(None, true)
    ensures Next(s, w, Fail(Loss({}, {dir}))).stores[dir] == Store(Some(0), false)
  {
  }

  // ---- entries go last ----

  lemma EditKeepsNames(disk: seq<TailnetConf>, q: Request, env: Env, tc: TailnetConf)
    requires (q.Update? || q.Add?) && tc in disk
    ensures exists x :: x in Serve(disk, q, env) && x.name == tc.name
  {
    hide EditOf, EqualFold, RangeAllowed, Ranges.CheckCIDR;
    var r := Serve(disk, q, env);
    var k :| 0 <= k < |disk| && disk[k] == tc;
    if q.Update? {
      var i := IndexByName(disk, q.tailnet);
      if i < |disk| && EditOf(disk[i], q.edit, q.view, env).Some? { EditKeepsLocks(disk[i], q.edit, q.view, env); }
    }
    assert r[k] in r && r[k].name == tc.name;
  }

  // A name that is meant to be in the file is in it after the write.
  lemma PutKeepsName(s: Sys, next: seq<TailnetConf>, name: string)
    requires (exists x :: x in s.disk && x.name == name) && (exists x :: x in next && x.name == name)
    ensures exists x :: x in Put(s, next).disk && x.name == name
  {
    hide Write;
    if Write(s.disk, s.disk, next).Some? {
      var x :| x in next && x.name == name;
      var out := Write(s.disk, s.disk, next).value;
      WrittenAlike(s.disk, s.disk, next);
      SameButKeysNames(out, next);
      HasAt(next, x);
      HasByNames(out, next, name);
      var k :| 0 <= k < |out| && out[k].name == name;
      assert out[k] in out;
    }
  }

  lemma AlikeHas(a: seq<TailnetConf>, b: seq<TailnetConf>, tc: TailnetConf)
    requires Alike(a, b) && tc in a
    ensures exists x :: x in b && x.name == tc.name
  {
    var k :| 0 <= k < |a| && a[k] == tc;
    assert b[k] in b;
  }

  // A name leaves the file only when nothing of it runs and the directory of its first entry is gone.
  lemma EntryLeavesPurged(s: Sys, w: World, step: Step, tc: TailnetConf)
    requires Inv(s, w) && tc in s.disk
    requires forall x :: x in Next(s, w, step).disk ==> x.name != tc.name
    ensures s.at == Purged(tc.name) && step.Forget? && !RunsNamed(s, tc.name)
    ensures DirAt(s, w, tc.name).Some? && DirAt(s, w, tc.name).value !in s.stores
  {
    hide EqualFold, KeysOk, LiveOnce, Closed, Serve, MayBegin, RunsNamed, Start, Broken, PurgedStores, Write, Put,
         Alike;
    match step {
      case Edit(q, env) =>
        if q.Update? {
          EditKeepsNames(s.disk, q, env, tc);
          PutKeepsName(s, Serve(s.disk, q, env), tc.name);
        }
      case Append(conf) =>
        assert tc in s.disk + [Fresh(conf)];
        PutKeepsName(s, s.disk + [Fresh(conf)], tc.name);
      case StartAny(i) => if i < |s.disk| { StartKeepsStores(s, s.disk[i].name, DirOf(w, s.disk[i])); }
      case Begin(name, del) =>
        var i := IndexByName(s.disk, name);
        if Next(s, w, step) != s {
          BegunWrite(s.disk, i);
          AlikeHas(s.disk, Next(s, w, step).disk, tc);
        }
      case Forget => if s.at.Purged? { RemoveNamedMembers(s.disk, s.at.name); }
      case _ =>
    }
  }

  // ---- a purged identity never runs again ----

  ghost predicate KeyGone(s: Sys, key: nat) {
    && key < s.nextKey
    && (forall d :: d in s.stores ==> s.stores[d].key != Some(key))
    && (forall n :: n in s.live ==> n.key != key)
  }

  // What a purge reaches is gone for good, be it broken off right after.
  lemma PurgeKillsKey(s: Sys, w: World, d: Path, loss: Loss)
    requires Inv(s, w) && s.at.Stopped? && DirAt(s, w, s.at.name).Some?
    requires Hits(s.at.del, DirAt(s, w, s.at.name).value, d) && d in s.stores && s.stores[d].key.Some?
    ensures KeyGone(Next(s, w, Purge), s.stores[d].key.value)
    ensures d in loss.keys ==> KeyGone(Next(s, w, Fail(loss)), s.stores[d].key.value)
    ensures d in loss.keys ==> KeyGone(Next(s, w, Crash(loss)), s.stores[d].key.value)
  {
    hide EqualFold, LiveOnce, Closed, MayBegin, Revoked, DirAt, IndexByName;
    StoppedSpares(s, w, d);
  }

  lemma NextKeepsKeyGone(s: Sys, w: World, step: Step, key: nat)
    requires KeyGone(s, key)
    ensures KeyGone(Next(s, w, step), key)
  {
    hide EqualFold, Serve, Write, MayBegin, DirAt, RunsNamed, WithParents, Hits;
  }

  // Whatever follows, re-adding and enabling included, no node runs a purged identity and none is saved.
  lemma {:induction false} PurgedKeyStaysGone(s: Sys, w: World, run: seq<Step>, key: nat)
    requires KeyGone(s, key)
    ensures KeyGone(After(s, w, run), key)
  {
    hide Next, KeyGone;
    if run != [] {
      PurgedKeyStaysGone(s, w, run[..|run| - 1], key);
      NextKeepsKeyGone(After(s, w, run[..|run| - 1]), w, run[|run| - 1], key);
    }
  }

  // ---- one attempt, step by step ----

  lemma OffLeadsOn(s: Sys, w: World)
    requires s.at.Off?
    ensures Next(s, w, StopNode)
         == s.(live := (set n | n in s.live && !EqualFold(n.name, s.at.name)), at := Stopped(s.at.name, s.at.del))
  {
  }

  lemma StoppedLeadsOn(s: Sys, w: World, dir: Path)
    requires s.at.Stopped? && DirAt(s, w, s.at.name) == Some(dir)
    ensures forall loss ::
              Next(s, w, Fail(loss)) == s.(stores := BrokenStores(s.stores, dir, s.at.del, loss), at := Idle)
    ensures Next(s, w, Purge)
         == s.(stores := PurgedStores(s.stores, dir, s.at.del), at := if s.at.del then Purged(s.at.name) else Idle)
  {
    hide BrokenStores, PurgedStores, DirAt;
  }

  lemma PurgedLeadsOn(s: Sys, w: World)
    requires s.at.Purged?
    ensures Next(s, w, Fail(Loss({}, {}))) == s.(at := Idle)
    ensures Next(s, w, Step.Forget) == s.(disk := RemoveNamed(s.disk, s.at.name), at := Idle)
  {
  }

  // ---- the guard is the walk of purgeTarget ----

  // The paths a delete of entry i must not reach.
  ghost predicate Protects(s: Sys, w: World, i: nat, p: Path)
    requires i < |s.disk|
  {
    || p in w.fixed
    || (exists j :: 0 <= j < |s.disk| && !EqualFold(s.disk[j].name, s.disk[i].name) && DirOf(w, s.disk[j]) == p)
    || (exists n :: n in s.live && !EqualFold(n.name, s.disk[i].name) && n.dir == p)
  }

  lemma SparesIsUnmet(s: Sys, w: World, i: nat)
    requires i < |s.disk|
    ensures Spares(s, w, i, true) <==> forall p :: Protects(s, w, i, p) ==> !(DirOf(w, s.disk[i]) <= p)
  {
    hide EqualFold;
    var dir := DirOf(w, s.disk[i]);
    if Spares(s, w, i, true) {
      forall p | Protects(s, w, i, p) ensures !(dir <= p) {
        if p in w.fixed { var k :| 0 <= k < |w.fixed| && w.fixed[k] == p; }
        assert forall j :: 0 <= j < |s.disk| && !EqualFold(s.disk[j].name, s.disk[i].name)
                 ==> !Hits(true, dir, DirOf(w, s.disk[j]));
      }
    }
    if forall p :: Protects(s, w, i, p) ==> !(dir <= p) {
      forall j | 0 <= j < |s.disk| && !EqualFold(s.disk[j].name, s.disk[i].name)
        ensures !Hits(true, dir, DirOf(w, s.disk[j]))
      {
        assert Protects(s, w, i, DirOf(w, s.disk[j]));
      }
      forall n | n in s.live && !EqualFold(n.name, s.disk[i].name) ensures !Hits(true, dir, n.dir) {
        assert Protects(s, w, i, n.dir);
      }
      forall k | 0 <= k < |w.fixed| ensures !(dir <= w.fixed[k]) {
        assert Protects(s, w, i, w.fixed[k]);
      }
    }
  }

  // In any tree of links and directories in which the tailnets' spelled directories lie where the model has
  // them, the climb from every protected spelling meets the target exactly when the guard says no.
  lemma GuardIsTheWalk(t: Tree, s: Sys, w: World, i: nat, spelled: seq<Path>)
    requires Sound(t) && i < |s.disk| && DirOf(w, s.disk[i]) in t.exist
    requires forall p :: Protects(s, w, i, p) <==> exists k :: 0 <= k < |spelled| && Home(t, spelled[k]) == p
    ensures Spares(s, w, i, true)
       <==> forall k :: 0 <= k < |spelled| ==> !(DirOf(w, s.disk[i]) <= Anchor(t, spelled[k]))
  {
    hide Sound, Home, Anchor, Protects, Spares;
    SparesIsUnmet(s, w, i);
    var dir := DirOf(w, s.disk[i]);
    forall k | 0 <= k < |spelled|
      ensures Protects(s, w, i, Home(t, spelled[k])) && (dir <= Anchor(t, spelled[k]) <==> dir <= Home(t, spelled[k]))
    {
      WalkDecidesHome(t, dir, spelled[k]);
    }
    assert Spares(s, w, i, true) ==> forall k :: 0 <= k < |spelled| ==> !(dir <= Home(t, spelled[k]));
    if forall k :: 0 <= k < |spelled| ==> !(dir <= Anchor(t, spelled[k])) {
      forall p | Protects(s, w, i, p) ensures !(dir <= p) {
        var k :| 0 <= k < |spelled| && Home(t, spelled[k]) == p;
      }
    }
  }
}
