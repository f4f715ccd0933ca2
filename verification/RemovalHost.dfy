/** The delete and reset handlers over the file, the running nodes and the state directories. */
module RemovalHost {
  import opened Text
  import opened Config
  import opened ConfigWrite
  import opened Requests
  import opened PurgeTarget
  import opened Removal
  import opened RemovalLaws
  import opened RemovalQuiet
  import opened RemovalRetry

  class Host {
    const world: World
    var disk: seq<TailnetConf>
    var live: set<Node>
    var stores: map<Path, Store>
    var nextKey: nat

    ghost function View(): Sys
      reads this
    {
      Sys(disk, live, stores, nextKey, Idle)
    }

    constructor (w: World, file: seq<TailnetConf>, kept: map<Path, Store>, fresh0: nat)
      ensures world == w && View() == Sys(file, {}, kept, fresh0, Idle)
    {
      world, disk, live, stores, nextKey := w, file, {}, kept, fresh0;
    }

    // The directories of the nodes, by whether they have this name.
    method NodeDirs(name: string) returns (own: seq<Path>, others: seq<Path>)
      ensures forall p :: p in own <==> exists n :: n in live && EqualFold(n.name, name) && n.dir == p
      ensures forall p :: p in others <==> exists n :: n in live && !EqualFold(n.name, name) && n.dir == p
    {
      hide EqualFold;
      own, others := [], [];
      var todo := live;
      while todo != {}
        invariant todo <= live
        invariant forall p :: p in own <==> exists n :: n in live - todo && EqualFold(n.name, name) && n.dir == p
        invariant forall p :: p in others <==> exists n :: n in live - todo && !EqualFold(n.name, name) && n.dir == p
        decreases todo
      {
        var n :| n in todo;
        if EqualFold(n.name, name) {
          own := own + [n.dir];
        } else {
          others := others + [n.dir];
        }
        assert live - (todo - {n}) == (live - todo) + {n};
        todo := todo - {n};
      }
    }

    // The directories of the entries of other names.
    method EntryDirs(i: nat) returns (dirs: seq<Path>)
      requires i < |disk|
      ensures forall p :: p in dirs <==>
                exists j :: 0 <= j < |disk| && !EqualFold(disk[j].name, disk[i].name) && DirOf(world, disk[j]) == p
    {
      hide DirOf, EqualFold;
      dirs := [];
      for j := 0 to |disk|
        invariant forall p :: p in dirs <==>
                    exists k :: 0 <= k < j && !EqualFold(disk[k].name, disk[i].name) && DirOf(world, disk[k]) == p
      {
        if !EqualFold(disk[j].name, disk[i].name) { dirs := dirs + [DirOf(world, disk[j])]; }
      }
    }

    // The whole tree is checked before anything is written.
    method MayDelete(i: nat) returns (ok: bool)
      requires Inv(View(), world) && i < |disk| && disk[i].locked == []
      ensures ok <==> MayBegin(View(), world, i, true)
    {
      hide Inv, RunsInPlace, Spares, DirOf, Protects, Closed, SamePlace, Home, EqualFold;
      var dir := DirOf(world, disk[i]);
      var own, others := NodeDirs(disk[i].name);
      var entries := EntryDirs(i);
      var t := PlainTree(stores.Keys);
      DirsAreClosed(View(), world);
      PlainTreeIsSound(stores.Keys);
      var guarded := world.fixed + entries + others;
      var v := Judge(t, dir, own, guarded);
      ok := v.NothingThere? || v.MayPurge?;
      forall p ensures p in guarded <==> Protects(View(), world, i, p) {
        ListedIsProtected(View(), world, i, entries, others, p);
      }
      forall p ensures Home(t, p) == p { PlainHome(stores.Keys, p); }
      InPlaceIsSamePlace(View(), world, i, own);
      SparesIsUnmet(View(), world, i);
    }

    // Stops every node of that name.
    method StopAll(name: string)
      modifies this`live
      ensures live == set n | n in old(live) && !EqualFold(n.name, name)
    {
      var todo := live;
      while todo != {}
        invariant todo <= old(live)
        invariant live == set n | n in old(live) && (n in todo || !EqualFold(n.name, name))
        decreases todo
      {
        var n :| n in todo;
        if EqualFold(n.name, name) {
          live := live - {n};
        }
        todo := todo - {n};
      }
    }

    // The first write and the stop, which delete and reset share. The write may be refused.
    method SwitchOff(name: string, i: nat, ghost del: bool) returns (ok: bool, ghost stopped: Sys)
      requires Inv(View(), world) && i == IndexByName(disk, name) < |disk| && MayBegin(View(), world, i, del)
      modifies this`disk, this`live
      ensures ok <==> Write(old(disk), old(disk), SwitchedOff(old(disk), i)).Some?
      ensures ok <==> Next(old(View()), world, Begin(name, del)) != old(View())
      ensures !ok ==> View() == old(View())
      ensures stopped == Next(Next(old(View()), world, Begin(name, del)), world, StopNode)
      ensures ok ==> View() == stopped.(at := Idle) && Inv(stopped, world)
      ensures ok ==> disk == Next(old(View()), world, Begin(name, del)).disk
      ensures ok ==> stopped.at == Stopped(old(disk)[i].name, del)
      ensures ok ==> DirAt(stopped, world, old(disk)[i].name) == Some(DirOf(world, old(disk)[i]))
    {
      hide EqualFold, Inv, MayBegin, RunsNamed, DirAt, Write, SwitchedOff, Alike;
      ghost var s := View();
      ghost var off := Next(s, world, Begin(name, del));
      stopped := Next(off, world, StopNode);
      var file := Write(disk, disk, SwitchedOff(disk, i));
      if file.None? { return false, stopped; }
      NextKeeps(s, world, Begin(name, del));
      NextKeeps(off, world, StopNode);
      BegunParts(s, world, name, del);
      DirStands(s, off, world, name);
      StopAll(disk[i].name);
      disk := file.value;
      ok := true;
    }

    // handleRemoveTailnet.
    method RemoveTailnet(name: string, fault: Fault) returns (ok: bool)
      requires Inv(View(), world)
      modifies this
      ensures View() == DeleteOf(old(View()), world, name, fault)
      ensures Inv(View(), world)
      ensures ok ==> fault.NoFault? && IndexByName(old(disk), name) < |old(disk)|
      ensures ok ==> forall tc :: tc in disk ==> tc.name != old(disk)[IndexByName(old(disk), name)].name
    {
      hide EqualFold, Inv, MayBegin, RunsNamed, Next, DirAt, PurgedStores, BrokenStores, Write, SwitchedOff, DirOf;
      ghost var s := View();
      var i := IndexByName(disk, name);
      if i == |disk| {
        NotBegun(s, world, name, true);
        return false;
      }
      if disk[i].locked != [] {
        LockedMayNot(s, world, i);
        NotBegun(s, world, name, true);
        return false;
      }
      var may := MayDelete(i);
      if !may {
        NotBegun(s, world, name, true);
        return false;
      }
      if fault.OffUnwritten? { return false; }
      var full, dir, hand := disk[i].name, DirOf(world, disk[i]), SwitchedOff(disk, i);
      var off, stopped := SwitchOff(name, i, true);
      if !off { return false; }
      StoppedLeadsOn(stopped, world, dir);
      if fault.PurgeFails? {
        NextKeeps(stopped, world, Fail(fault.loss));
        stores := BrokenStores(stores, dir, true, fault.loss);
        return false;
      }
      stores := PurgedStores(stores, dir, true);
      ghost var purged := Next(stopped, world, Purge);
      NextKeeps(stopped, world, Purge);
      PurgedLeadsOn(purged, world);
      if fault.GoneUnwritten? {
        NextKeeps(purged, world, Fail(Loss({}, {})));
        return false;
      }
      NextKeeps(purged, world, Step.Forget);
      ForgetIsTheWrite(s, world, name);
      RemoveNamedMembers(disk, full);
      disk := Write(disk, hand, RemoveNamed(hand, full)).value;
      ok := true;
    }

    // handleResetIdentity.
    method ResetIdentity(name: string, fault: Fault) returns (ok: bool)
      requires Inv(View(), world)
      modifies this
      ensures View() == ResetOf(old(View()), world, name, fault)
      ensures Inv(View(), world)
      ensures ok ==> !fault.PurgeFails? && !fault.OffUnwritten? && !RunsNamed(View(), name)
    {
      hide EqualFold, Inv, MayBegin, RunsNamed, Next, DirAt, PurgedStores, BrokenStores, Write, SwitchedOff, DirOf;
      ghost var s := View();
      var i := IndexByName(disk, name);
      if i == |disk| || !MayBegin(Sys(disk, live, stores, nextKey, Idle), world, i, false) {
        NotBegun(s, world, name, false);
        return false;
      }
      if fault.OffUnwritten? { return false; }
      var full, dir := disk[i].name, DirOf(world, disk[i]);
      var off, stopped := SwitchOff(name, i, false);
      if !off { return false; }
      StoppedLeadsOn(stopped, world, dir);
      if fault.PurgeFails? {
        NextKeeps(stopped, world, Fail(fault.loss));
        stores := BrokenStores(stores, dir, false, fault.loss);
        return false;
      }
      NextKeeps(stopped, world, Purge);
      stores := PurgedStores(stores, dir, false);
      NoneRunsNow(stopped, world, View(), full, name);
      ok := true;
    }
  }

  lemma DirsAreClosed(s: Sys, w: World)
    requires Inv(s, w)
    ensures Closed(s.stores.Keys)
  {
  }

  lemma ListedIsProtected(s: Sys, w: World, i: nat, entries: seq<Path>, others: seq<Path>, p: Path)
    requires i < |s.disk|
    requires p in entries <==>
               exists j :: 0 <= j < |s.disk| && !EqualFold(s.disk[j].name, s.disk[i].name) && DirOf(w, s.disk[j]) == p
    requires p in others <==> exists n :: n in s.live && !EqualFold(n.name, s.disk[i].name) && n.dir == p
    ensures p in w.fixed + entries + others <==> Protects(s, w, i, p)
  {
  }

  // A running node of the name is in the directory exactly when the two spellings are one place.
  lemma InPlaceIsSamePlace(s: Sys, w: World, i: nat, own: seq<Path>)
    requires Inv(s, w) && i < |s.disk|
    requires forall p :: p in own <==> exists n :: n in s.live && EqualFold(n.name, s.disk[i].name) && n.dir == p
    ensures RunsInPlace(s, w, s.disk[i])
       <==> forall k :: 0 <= k < |own| ==> SamePlace(PlainTree(s.stores.Keys), DirOf(w, s.disk[i]), own[k])
  {
    hide EqualFold, LiveOnce, AtOk, Closed;
    var dir, t := DirOf(w, s.disk[i]), PlainTree(s.stores.Keys);
    forall k | 0 <= k < |own|
      ensures (SamePlace(t, dir, own[k]) <==> own[k] == dir) && (RunsInPlace(s, w, s.disk[i]) ==> own[k] == dir)
    {
      assert own[k] in own;
      var n :| n in s.live && EqualFold(n.name, s.disk[i].name) && n.dir == own[k];
    }
    if forall k :: 0 <= k < |own| ==> SamePlace(t, dir, own[k]) {
      forall n | n in s.live && EqualFold(n.name, s.disk[i].name) ensures n.dir == dir {
        assert n.dir in own;
      }
    }
  }

  lemma LockedMayNot(s: Sys, w: World, i: nat)
    requires i < |s.disk| && s.disk[i].locked != []
    ensures !MayBegin(s, w, i, true)
  {
  }

  lemma NotBegun(s: Sys, w: World, name: string, del: bool)
    requires var i := IndexByName(s.disk, name); i == |s.disk| || !MayBegin(s, w, i, del)
    ensures Next(s, w, Begin(name, del)) == s
  {
    hide MayBegin;
  }

  lemma NoneRunsNow(s: Sys, w: World, r: Sys, full: string, name: string)
    requires Inv(s, w) && s.at.Stopped? && s.at.name == full && EqualFold(full, name) && r.live == s.live
    ensures !RunsNamed(r, name)
  {
    hide LiveOnce, KeysOk, Closed, UnderWay;
    RunsFolded(s, full, name);
  }
}
