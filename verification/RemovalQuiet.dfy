/** From the first write of a delete or reset on, nothing of the name starts, unless a namesake is on. */
module RemovalQuiet {
  import opened Text
  import opened Config
  import opened ConfigWrite
  import opened WriteLaws
  import opened Writes
  import opened Requests
  import opened PurgeTarget
  import opened Removal
  import opened RemovalLaws

  // Nothing of that name runs, or it is about to be stopped.
  ghost predicate Down(s: Sys, name: string) {
    RunsNamed(s, name) ==> s.at.Off? && EqualFold(s.at.name, name)
  }

  ghost predicate AllOff(disk: seq<TailnetConf>, name: string) {
    forall k :: 0 <= k < |disk| && EqualFold(disk[k].name, name) ==> !disk[k].Enabled()
  }

  ghost predicate Asleep(s: Sys, name: string) {
    AllOff(s.disk, name) && Down(s, name)
  }

  // An explicit enable, or a fresh add of that name.
  predicate Wakes(step: Step, name: string) {
    match step
    case Edit(q, _) => q.Update? && EqualFold(q.tailnet, name) && q.edit == Switch(true)
    case Append(conf) => EqualFold(conf.name, name)
    case _ => false
  }

  ghost predicate NoWakes(run: seq<Step>, name: string) {
    forall k :: 0 <= k < |run| ==> !Wakes(run[k], name)
  }

  // ---- entries that are off stay off ----

  lemma EditKeepsOff(conf: TailnetConf, e: Edit, view: Option<View>, env: Env)
    requires EditOf(conf, e, view, env).Some?
    ensures var r := EditOf(conf, e, view, env).value;
      r.name == conf.name && (e != Switch(true) && !conf.Enabled() ==> !r.Enabled())
  {
    hide Known, AutoRuleFor, AutoOf, AddAllKnown;
  }

  lemma ServeKeepsOff(disk: seq<TailnetConf>, q: Request, env: Env, name: string)
    requires q.Update? && AllOff(disk, name) && !(EqualFold(q.tailnet, name) && q.edit == Switch(true))
    ensures AllOff(Serve(disk, q, env), name)
  {
    hide EditOf, EqualFold, RangeAllowed;
    var i := IndexByName(disk, q.tailnet);
    if i < |disk| && EditOf(disk[i], q.edit, q.view, env).Some? {
      EditKeepsOff(disk[i], q.edit, q.view, env);
      FoldsThrough(disk[i].name, q.tailnet, name);
    }
  }

  lemma PutKeepsOff(s: Sys, next: seq<TailnetConf>, name: string)
    requires AllOff(s.disk, name) && AllOff(next, name)
    ensures AllOff(Put(s, next).disk, name)
  {
    hide Write, EqualFold;
    if Write(s.disk, s.disk, next).Some? {
      var out := Write(s.disk, s.disk, next).value;
      WrittenAlike(s.disk, s.disk, next);
      forall k | 0 <= k < |out| && EqualFold(out[k].name, name) ensures !out[k].Enabled() {
        assert Keyless(out[k]) == Keyless(next[k]);
        assert out[k] == Keyless(out[k]).(authKey := out[k].authKey);
      }
    }
  }

  lemma RunsFolded(s: Sys, a: string, b: string)
    requires EqualFold(a, b)
    ensures RunsNamed(s, a) <==> RunsNamed(s, b)
  {
  }

  lemma StartKeepsDown(s: Sys, w: World, i: nat, name: string)
    requires Asleep(s, name)
    ensures Down(Next(s, w, StartAny(i)), name)
  {
    hide EqualFold, WithParents;
  }

  lemma StopKeepsDown(s: Sys, w: World, name: string)
    requires Down(s, name)
    ensures Down(Next(s, w, StopNode), name)
  {
    hide EqualFold;
    if s.at.Off? && RunsNamed(s, name) {
      forall n | n in Next(s, w, StopNode).live ensures !EqualFold(n.name, name) {
        FoldsThrough(s.at.name, name, n.name);
      }
    }
  }

  lemma NextKeepsAsleep(s: Sys, w: World, step: Step, name: string)
    requires Inv(s, w) && Asleep(s, name) && !Wakes(step, name)
    ensures Asleep(Next(s, w, step), name)
  {
    hide EqualFold, KeysOk, LiveOnce, Closed, AtOk, Broken, Serve, MayBegin, PurgedStores, Write, Put, Start, AllOff;
    match step {
      case Edit(q, env) =>
        if q.Update? {
          ServeKeepsOff(s.disk, q, env, name);
          PutKeepsOff(s, Serve(s.disk, q, env), name);
          PutKeepsLive(s, Serve(s.disk, q, env));
        }
      case Append(conf) =>
        AppendKeepsOff(s.disk, Fresh(conf), name);
        PutKeepsOff(s, s.disk + [Fresh(conf)], name);
        PutKeepsLive(s, s.disk + [Fresh(conf)]);
      case StartAny(i) =>
        StartKeepsDown(s, w, i, name);
        if i < |s.disk| { StartKeepsStores(s, s.disk[i].name, DirOf(w, s.disk[i])); }
      case Begin(other, del) =>
        var i := IndexByName(s.disk, other);
        if Next(s, w, step) != s {
          BegunWrite(s.disk, i);
          AlikeKeepsOff(s.disk, Next(s, w, step).disk, name);
        }
      case StopNode => StopKeepsDown(s, w, name);
      case Forget => if s.at.Purged? { RemoveKeepsOff(s.disk, s.at.name, name); }
      case _ =>
    }
  }

  lemma PutKeepsLive(s: Sys, next: seq<TailnetConf>)
    ensures Put(s, next).live == s.live && Put(s, next).at == s.at
  {
    hide Write;
  }

  lemma AppendKeepsOff(disk: seq<TailnetConf>, tc: TailnetConf, name: string)
    requires AllOff(disk, name) && !EqualFold(tc.name, name)
    ensures AllOff(disk + [tc], name)
  {
    hide EqualFold;
  }

  lemma AlikeKeepsOff(a: seq<TailnetConf>, b: seq<TailnetConf>, name: string)
    requires AllOff(a, name) && Alike(a, b) && forall k :: 0 <= k < |a| && b[k].Enabled() ==> a[k].Enabled()
    ensures AllOff(b, name)
  {
    hide EqualFold;
  }

  lemma RemoveKeepsOff(disk: seq<TailnetConf>, gone: string, name: string)
    requires AllOff(disk, name)
    ensures AllOff(RemoveNamed(disk, gone), name)
  {
    hide EqualFold, RemoveNamed;
    RemoveNamedMembers(disk, gone);
    var r := RemoveNamed(disk, gone);
    forall k | 0 <= k < |r| && EqualFold(r[k].name, name) ensures !r[k].Enabled() { assert r[k] in disk; }
  }

  lemma {:induction false} StaysAsleep(s: Sys, w: World, run: seq<Step>, name: string)
    requires Inv(s, w) && Asleep(s, name) && NoWakes(run, name)
    ensures Asleep(After(s, w, run), name)
  {
    hide Inv, Next, Asleep, Wakes;
    if run != [] {
      var n := |run| - 1;
      assert forall k :: 0 <= k < n ==> run[..n][k] == run[k];
      StaysAsleep(s, w, run[..n], name);
      AfterKeeps(s, w, run[..n]);
      NextKeepsAsleep(After(s, w, run[..n]), w, run[n], name);
    }
  }

  // ---- the exact condition ----

  // Whatever happens but an enable or an add of the name: failures, crashes, reboots, restarts and retries.
  ghost predicate StaysDown(s: Sys, w: World, name: string) {
    forall run :: NoWakes(run, name) ==> Down(After(s, w, run), name)
  }

  ghost predicate NamesakesOff(disk: seq<TailnetConf>, name: string) {
    forall k :: 0 <= k < |disk| && k != IndexByName(disk, name) && EqualFold(disk[k].name, name) ==> !disk[k].Enabled()
  }

  // From the first write of a delete or reset on, nothing of the name starts until somebody enables or adds
  // it, if and only if no other entry of that name, ignoring case, is on.
  lemma StaysDownIff(s: Sys, w: World, name: string, del: bool)
    requires Inv(s, w) && Next(s, w, Begin(name, del)) != s
    ensures StaysDown(Next(s, w, Begin(name, del)), w, name) <==> NamesakesOff(s.disk, name)
  {
    hide Inv, StaysDown, NamesakesOff, Next;
    if NamesakesOff(s.disk, name) {
      BegunIsAsleep(s, w, name, del);
      NextKeeps(s, w, Begin(name, del));
      AsleepStaysDown(Next(s, w, Begin(name, del)), w, name);
    } else {
      OnNamesakeWakes(s, w, name, del);
    }
  }

  lemma AsleepStaysDown(r: Sys, w: World, name: string)
    requires Inv(r, w) && Asleep(r, name)
    ensures StaysDown(r, w, name)
  {
    hide Inv, After, Down, NoWakes, AllOff;
    forall run | NoWakes(run, name) ensures Down(After(r, w, run), name) {
      StaysAsleep(r, w, run, name);
    }
  }

  lemma OnNamesakeWakes(s: Sys, w: World, name: string, del: bool)
    requires Inv(s, w) && Next(s, w, Begin(name, del)) != s && !NamesakesOff(s.disk, name)
    ensures !StaysDown(Next(s, w, Begin(name, del)), w, name)
  {
    hide Inv, After, Down, NoWakes, Next, EqualFold, Write, MayBegin;
    var r := Next(s, w, Begin(name, del));
    BegunParts(s, w, name, del);
    var k :| 0 <= k < |s.disk| && k != IndexByName(s.disk, name)
      && EqualFold(s.disk[k].name, name) && s.disk[k].Enabled();
    AlikeAt(s.disk, r.disk, k);
    NamesakeWakes(r, w, k, name);
    NeitherWakes(k, name);
  }

  lemma BegunParts(s: Sys, w: World, name: string, del: bool)
    requires Next(s, w, Begin(name, del)) != s
    ensures var r, i := Next(s, w, Begin(name, del)), IndexByName(s.disk, name);
      && s.at == Idle && i < |s.disk| && MayBegin(s, w, i, del)
      && Write(s.disk, s.disk, SwitchedOff(s.disk, i)) == Some(r.disk)
      && r == s.(disk := r.disk, at := Off(s.disk[i].name, del)) && Alike(s.disk, r.disk) && !r.disk[i].Enabled()
      && forall k :: 0 <= k < |s.disk| && k != i ==> r.disk[k].Enabled() == s.disk[k].Enabled()
  {
    hide Write, MayBegin, Alike;
    BegunWrite(s.disk, IndexByName(s.disk, name));
  }

  lemma BegunIsAsleep(s: Sys, w: World, name: string, del: bool)
    requires Inv(s, w) && Next(s, w, Begin(name, del)) != s && NamesakesOff(s.disk, name)
    ensures Asleep(Next(s, w, Begin(name, del)), name)
  {
    hide EqualFold, Inv, MayBegin, Write, Next;
    BegunParts(s, w, name, del);
  }

  // A crash, and the next boot starts the namesake.
  lemma NamesakeWakes(r: Sys, w: World, k: nat, name: string)
    requires k < |r.disk| && r.disk[k].Enabled() && EqualFold(r.disk[k].name, name)
    ensures !Down(After(r, w, [Crash(Loss({}, {})), StartAny(k)]), name)
  {
    hide Broken, WithParents, EqualFold;
    TwoSteps(r, w, Crash(Loss({}, {})), StartAny(k));
    var c := Next(r, w, Crash(Loss({}, {})));
    var n := Next(c, w, StartAny(k));
    assert exists m :: m in n.live && m.name == r.disk[k].name;
  }

  lemma TwoSteps(s: Sys, w: World, a: Step, b: Step)
    ensures After(s, w, [a, b]) == Next(Next(s, w, a), w, b)
  {
    hide Next;
    assert [a, b][..1] == [a] && [a][..0] == [];
    assert After(s, w, []) == s;
    assert After(s, w, [a]) == Next(s, w, a);
  }

  lemma NeitherWakes(k: nat, name: string)
    ensures NoWakes([Crash(Loss({}, {})), StartAny(k)], name)
  {
  }

  // Two entries of one name on one directory: a reset whose purge fails switches off the first, and the next
  // start runs the second on the old identity.
  lemma NamesakeRunsAgain(w: World, a: TailnetConf, stores: map<Path, Store>, key: nat, next: nat)
    requires a.Enabled() && a.locked == [] && DirOf(w, a) in stores && stores[DirOf(w, a)].key == Some(key)
    ensures var s := Sys([a, a], {}, stores, next, Idle);
      var r := ResetOf(s, w, a.name, PurgeFails(Loss({}, {})));
      r.disk == [Revoked(a), a] && Node(a.name, DirOf(w, a), key) in Next(r, w, StartAny(1)).live
  {
    hide Next, Write, BrokenStores;
    var s := Sys([a, a], {}, stores, next, Idle);
    var off := Next(s, w, Begin(a.name, false));
    TwinBegins(w, a, stores, next);
    OffLeadsOn(off, w);
    var stopped := Next(off, w, StopNode);
    assert stopped.live == {};
    FirstDir(w, a, stopped);
    StoppedLeadsOn(stopped, w, DirOf(w, a));
    NothingLost(stores, DirOf(w, a));
    var r := ResetOf(s, w, a.name, PurgeFails(Loss({}, {})));
    assert r == Sys([Revoked(a), a], {}, stores, next, Idle);
    StartsAgain(r, w, a, key);
  }

  lemma FirstDir(w: World, a: TailnetConf, r: Sys)
    requires r.disk == [Revoked(a), a]
    ensures DirAt(r, w, a.name) == Some(DirOf(w, a))
  {
    FoldsToItself(a.name);
    assert IndexByName(r.disk, a.name) == 0;
  }

  lemma TwinBegins(w: World, a: TailnetConf, stores: map<Path, Store>, next: nat)
    requires a.Enabled() && a.locked == []
    ensures var s := Sys([a, a], {}, stores, next, Idle);
      Next(s, w, Begin(a.name, false)) == Sys([Revoked(a), a], {}, stores, next, Off(a.name, false)) != s
  {
    hide Write, EqualFold;
    var s := Sys([a, a], {}, stores, next, Idle);
    FoldsToItself(a.name);
    TwinWrite(a, a, Revoked(a));
    assert SwitchedOff(s.disk, 0) == [Revoked(a), a];
    assert IndexByName(s.disk, a.name) == 0;
  }

  lemma StartsAgain(r: Sys, w: World, a: TailnetConf, key: nat)
    requires r.at == Idle && r.live == {} && r.disk == [Revoked(a), a] && a.Enabled()
    requires DirOf(w, a) in r.stores && r.stores[DirOf(w, a)].key == Some(key)
    ensures Node(a.name, DirOf(w, a), key) in Next(r, w, StartAny(1)).live
  {
    hide WithParents;
  }

  lemma NothingLost(stores: map<Path, Store>, dir: Path)
    ensures BrokenStores(stores, dir, false, Loss({}, {})) == stores
  {
  }

  // ---- enrollment keys ----

  ghost predicate AllBare(disk: seq<TailnetConf>, name: string) {
    forall tc :: tc in disk && EqualFold(tc.name, name) ==> tc.authKey == ""
  }

  // A new key, or a fresh add that brings one.
  predicate Rekeys(step: Step, name: string) {
    match step
    case Edit(q, _) => q.Update? && EqualFold(q.tailnet, name) && q.edit.Plain? && q.edit.authKey != ""
    case Append(conf) => EqualFold(conf.name, name) && conf.authKey != ""
    case _ => false
  }

  lemma EditKeepsKey(conf: TailnetConf, e: Edit, view: Option<View>, env: Env)
    requires EditOf(conf, e, view, env).Some?
    ensures var r := EditOf(conf, e, view, env).value;
      r.name == conf.name && r.authKey == if e.Plain? then e.authKey else conf.authKey
  {
    hide Known, AutoRuleFor, AutoOf, AddAllKnown;
  }

  lemma ServeKeepsBare(disk: seq<TailnetConf>, q: Request, env: Env, name: string)
    requires q.Update? && AllBare(disk, name) && !Rekeys(Edit(q, env), name)
    ensures AllBare(Serve(disk, q, env), name)
  {
    hide EditOf, EqualFold, RangeAllowed;
    var i := IndexByName(disk, q.tailnet);
    if i < |disk| && EditOf(disk[i], q.edit, q.view, env).Some? {
      EditKeepsKey(disk[i], q.edit, q.view, env);
      FoldsThrough(disk[i].name, q.tailnet, name);
      ReplacedMembers(disk, i, EditOf(disk[i], q.edit, q.view, env).value);
      assert disk[i] in disk;
    }
  }

  lemma WriteKeepsBare(disk: seq<TailnetConf>, next: seq<TailnetConf>, name: string)
    requires AllBare(disk, name) && AllBare(next, name) && Write(disk, disk, next).Some?
    ensures AllBare(Write(disk, disk, next).value, name)
  {
    hide Write, EqualFold;
    forall tc | tc in Write(disk, disk, next).value && EqualFold(tc.name, name) ensures tc.authKey == "" {
      WrittenKeys(disk, disk, next, tc);
    }
  }

  lemma NextKeepsBare(s: Sys, w: World, step: Step, name: string)
    requires AllBare(s.disk, name) && !Rekeys(step, name)
    ensures AllBare(Next(s, w, step).disk, name)
  {
    hide EqualFold, Broken, Serve, MayBegin, PurgedStores, Write, Start;
    match step {
      case Edit(q, env) =>
        if q.Update? {
          ServeKeepsBare(s.disk, q, env, name);
          if Write(s.disk, s.disk, Serve(s.disk, q, env)).Some? { WriteKeepsBare(s.disk, Serve(s.disk, q, env), name); }
        }
      case Append(conf) =>
        var next := s.disk + [Fresh(conf)];
        if Write(s.disk, s.disk, next).Some? { WriteKeepsBare(s.disk, next, name); }
      case StartAny(i) => if i < |s.disk| { StartKeepsStores(s, s.disk[i].name, DirOf(w, s.disk[i])); }
      case Begin(other, del) =>
        var i := IndexByName(s.disk, other);
        if i < |s.disk| {
          ReplacedMembers(s.disk, i, Revoked(s.disk[i]));
          var off := SwitchedOff(s.disk, i);
          if Write(s.disk, s.disk, off).Some? { WriteKeepsBare(s.disk, off, name); }
        }
      case Forget => if s.at.Purged? { RemoveNamedMembers(s.disk, s.at.name); }
      case _ =>
    }
  }

  // Once every entry of the name is keyless, so it stays until somebody brings a key.
  lemma {:induction false} KeylessUntilRekeyed(s: Sys, w: World, run: seq<Step>, name: string)
    requires AllBare(s.disk, name) && forall k :: 0 <= k < |run| ==> !Rekeys(run[k], name)
    ensures AllBare(After(s, w, run).disk, name)
  {
    hide Next, AllBare, Rekeys;
    if run != [] {
      var n := |run| - 1;
      assert forall k :: 0 <= k < n ==> run[..n][k] == run[k];
      KeylessUntilRekeyed(s, w, run[..n], name);
      NextKeepsBare(After(s, w, run[..n]), w, run[n], name);
    }
  }

  // The first write clears the entry's key in the file exactly when the diffs of that exact name leave no key;
  // always, when the entry has its name alone.
  lemma BeginClearsKeyIff(s: Sys, w: World, name: string, del: bool)
    requires Next(s, w, Begin(name, del)) != s
    ensures var i := IndexByName(s.disk, name);
      var own := Namesakes(s.disk, s.disk[i].name);
      && own != [] && |Next(s, w, Begin(name, del)).disk| == |s.disk|
      && (Next(s, w, Begin(name, del)).disk[i].authKey == ""
          <==> KeyLeft(s.disk[i], own[|own| - 1], Namesakes(SwitchedOff(s.disk, i), s.disk[i].name)) == "")
      && (|own| == 1 ==> Next(s, w, Begin(name, del)).disk[i].authKey == "")
  {
    hide Next, Write, Namesakes, MayBegin, EqualFold, KeyLeft, Folded, Revoked;
    BegunParts(s, w, name, del);
    var i := IndexByName(s.disk, name);
    FirstIsPlace(s.disk, name);
    var x, off, out := s.disk[i].name, SwitchedOff(s.disk, i), Next(s, w, Begin(name, del)).disk;
    RevokedName(s.disk[i]);
    HasAt(off, off[i]);
    WriteByName(s.disk, s.disk, off, x);
    OldIsLast(s.disk, x);
    FirstNamed(s.disk, x);
    SameIndex(s.disk, out, x);
    FirstNamed(out, x);
    var own := Namesakes(s.disk, x);
    FoldedKey(own[0], own[|own| - 1], Namesakes(off, x));
    if |own| == 1 {
      LoneNameIsExact(s.disk, s.disk, off, x);
      SameIndex(s.disk, off, x);
      FirstNamed(off, x);
      RevokedIsBare(s.disk[i]);
    }
  }

  lemma RevokedIsBare(tc: TailnetConf)
    ensures Revoked(tc).authKey == ""
  {
  }

  lemma FirstIsPlace(disk: seq<TailnetConf>, name: string)
    requires IndexByName(disk, name) < |disk|
    ensures Place(disk, disk[IndexByName(disk, name)].name) == IndexByName(disk, name)
  {
    var i := IndexByName(disk, name);
    assert EqualFold(disk[i].name, name);
  }

  lemma SameIndex(a: seq<TailnetConf>, b: seq<TailnetConf>, x: string)
    requires |a| == |b| && forall k :: 0 <= k < |a| ==> a[k].name == b[k].name
    ensures Place(a, x) == Place(b, x)
  {
  }

  // With a keyless namesake the file keeps the key, though the caller is told it is cleared.
  lemma KeyOutlivesReset(a: TailnetConf, b: TailnetConf)
    requires b == a.(authKey := "") && a.Enabled()
    ensures Write([a, b], [a, b], SwitchedOff([a, b], 0)) == Some([Revoked(a).(authKey := a.authKey), b])
  {
    hide Write;
    TwinWrite(a, b, Revoked(a));
    assert SwitchedOff([a, b], 0) == [Revoked(a), b];
  }
}
