/** When a delete or reset may be tried again, and what a delete that goes through leaves. */
module RemovalRetry {
  import opened Text
  import opened Config
  import opened ConfigWrite
  import opened WriteLaws
  import opened Writes
  import opened Requests
  import opened PurgeTarget
  import opened Removal
  import opened RemovalLaws
  import opened RemovalQuiet

  // Every entry of that name that may start keeps its state in the same directory.
  ghost predicate NamesakesInPlace(s: Sys, w: World, i: nat)
    requires i < |s.disk|
  {
    forall j :: 0 <= j < |s.disk| && s.disk[j].Enabled() && EqualFold(s.disk[j].name, s.disk[i].name)
      ==> DirOf(w, s.disk[j]) == DirOf(w, s.disk[i])
  }

  // No entry that may start would make the directory.
  ghost predicate NobodyMakes(s: Sys, dir: Path, w: World) {
    forall j :: 0 <= j < |s.disk| && s.disk[j].Enabled() ==> !(dir <= DirOf(w, s.disk[j]))
  }

  // Unlocked and in place, now and after any start; and sparing the others, or without a directory that
  // would have to spare them.
  ghost predicate Lasting(s: Sys, w: World, i: nat, del: bool)
    requires i < |s.disk|
  {
    && s.disk[i].locked == [] && RunsInPlace(s, w, s.disk[i]) && NamesakesInPlace(s, w, i)
    && (Spares(s, w, i, del) || (DirOf(w, s.disk[i]) !in s.stores && NobodyMakes(s, DirOf(w, s.disk[i]), w)))
  }

  ghost predicate Retryable(s: Sys, w: World, name: string, del: bool) {
    var i := IndexByName(s.disk, name);
    i < |s.disk| && Lasting(s, w, i, del)
  }

  // The checks before a delete or reset pass.
  predicate Accepts(s: Sys, w: World, name: string, del: bool) {
    var i := IndexByName(s.disk, name);
    i < |s.disk| && MayBegin(s, w, i, del)
  }

  // Failures, crashes, reboots, starts and stops, and further attempts, but no success and no edit.
  predicate Tries(step: Step) {
    !step.Edit? && !step.Append? && !step.Forget?
  }

  ghost predicate OnlyTries(run: seq<Step>) {
    forall k :: 0 <= k < |run| ==> Tries(run[k])
  }

  // ---- what lasts ----

  lemma LastingIsAccepted(s: Sys, w: World, name: string, del: bool)
    requires Retryable(s, w, name, del)
    ensures Accepts(s, w, name, del)
  {
    hide EqualFold, Spares, RunsInPlace;
  }

  lemma StartKeepsSpares(s: Sys, w: World, i: nat, j: nat, del: bool)
    requires i < |s.disk| && j < |s.disk| && Spares(s, w, i, del)
    ensures Spares(Start(s, s.disk[j].name, DirOf(w, s.disk[j])), w, i, del)
  {
    hide WithParents, Hits, EqualFold;
  }

  lemma StartKeepsPlace(s: Sys, w: World, i: nat, j: nat)
    requires i < |s.disk| && j < |s.disk| && s.disk[j].Enabled()
    requires RunsInPlace(s, w, s.disk[i]) && NamesakesInPlace(s, w, i)
    ensures RunsInPlace(Start(s, s.disk[j].name, DirOf(w, s.disk[j])), w, s.disk[i])
  {
    hide WithParents, EqualFold;
  }

  // A start makes a directory only at or above its own.
  lemma StartMakes(s: Sys, name: string, own: Path, dir: Path)
    requires dir !in s.stores && !(dir <= own)
    ensures dir !in Start(s, name, own).stores
  {
    forall n | 0 <= n <= |own| ensures own[..n] != dir {
      assert own[..n] <= own;
    }
  }

  lemma StartKeepsLasting(s: Sys, w: World, i: nat, j: nat, del: bool)
    requires i < |s.disk| && j < |s.disk| && s.disk[j].Enabled() && Lasting(s, w, i, del)
    ensures Lasting(Start(s, s.disk[j].name, DirOf(w, s.disk[j])), w, i, del)
  {
    hide WithParents, Hits, EqualFold, Spares, RunsInPlace, DirOf;
    var r := Start(s, s.disk[j].name, DirOf(w, s.disk[j]));
    assert r.disk == s.disk;
    StartKeepsPlace(s, w, i, j);
    if Spares(s, w, i, del) {
      StartKeepsSpares(s, w, i, j, del);
    } else {
      StartMakes(s, s.disk[j].name, DirOf(w, s.disk[j]), DirOf(w, s.disk[i]));
    }
  }

  lemma BeginKeepsLasting(s: Sys, r: Sys, w: World, i: nat, del: bool)
    requires Alike(s.disk, r.disk) && r.live == s.live && r.stores == s.stores && i < |s.disk|
    requires forall k :: 0 <= k < |s.disk| && r.disk[k].Enabled() ==> s.disk[k].Enabled()
    requires Lasting(s, w, i, del)
    ensures Lasting(r, w, i, del)
  {
    hide EqualFold, Spares, RunsInPlace;
    AlikeSpares(s, r, w, i, del);
    assert forall j :: 0 <= j < |s.disk| ==> DirOf(w, r.disk[j]) == DirOf(w, s.disk[j]);
  }

  lemma FewerKeepsLasting(s: Sys, r: Sys, w: World, i: nat, del: bool)
    requires i < |s.disk| && r.disk == s.disk && r.live <= s.live && r.stores.Keys <= s.stores.Keys
    requires Lasting(s, w, i, del)
    ensures Lasting(r, w, i, del)
  {
    hide EqualFold, Spares, RunsInPlace;
    FewerNodesSpare(s, r, w, i, del);
    assert DirOf(w, s.disk[i]) !in s.stores.Keys ==> DirOf(w, s.disk[i]) !in r.stores.Keys;
  }

  lemma PurgeOnlyTakes(s: Sys, w: World, loss: Loss)
    ensures Next(s, w, Purge).stores.Keys <= s.stores.Keys && Broken(s, w, loss).Keys == s.stores.Keys
  {
    hide DirAt, Hits;
  }

  lemma NextKeepsRetryable(s: Sys, w: World, step: Step, name: string, del: bool)
    requires Retryable(s, w, name, del) && Tries(step)
    ensures Retryable(Next(s, w, step), w, name, del)
  {
    hide EqualFold, Broken, MayBegin, RunsNamed, Start, Write, Lasting, PurgedStores, DirAt;
    var i := IndexByName(s.disk, name);
    var r := Next(s, w, step);
    match step {
      case StartAny(j) =>
        if j < |s.disk| && s.disk[j].Enabled() {
          StartKeepsLasting(s, w, i, j, del);
          StartKeepsStores(s, s.disk[j].name, DirOf(w, s.disk[j]));
        }
      case Begin(other, del') =>
        if r != s {
          BegunParts(s, w, other, del');
          AlikeIndex(s.disk, r.disk, name);
          BeginKeepsLasting(s, r, w, i, del);
        }
      case SavePins(node) =>
        assert r.stores.Keys == s.stores.Keys;
        FewerKeepsLasting(s, r, w, i, del);
      case Purge =>
        PurgeOnlyTakes(s, w, Loss({}, {}));
        FewerKeepsLasting(s, r, w, i, del);
      case Fail(loss) =>
        PurgeOnlyTakes(s, w, loss);
        FewerKeepsLasting(s, r, w, i, del);
      case Crash(loss) =>
        PurgeOnlyTakes(s, w, loss);
        FewerKeepsLasting(s, r, w, i, del);
      case _ => FewerKeepsLasting(s, r, w, i, del);
    }
  }

  // Failures, crashes, reboots and further attempts leave a tailnet that could be deleted deletable, until an
  // attempt succeeds or somebody edits the file.
  lemma {:induction false} FailuresStayRetryable(s: Sys, w: World, run: seq<Step>, name: string, del: bool)
    requires Retryable(s, w, name, del) && OnlyTries(run)
    ensures Retryable(After(s, w, run), w, name, del)
  {
    hide Next, Retryable, Tries;
    if run != [] {
      var n := |run| - 1;
      assert forall k :: 0 <= k < n ==> run[..n][k] == run[k];
      FailuresStayRetryable(s, w, run[..n], name, del);
      NextKeepsRetryable(After(s, w, run[..n]), w, run[n], name, del);
    }
  }

  // ---- the exact condition ----

  ghost predicate StaysAccepted(s: Sys, w: World, name: string, del: bool) {
    forall run :: OnlyTries(run) ==> Accepts(After(s, w, run), w, name, del)
  }

  // A crash, and the next boot starts entry j.
  lemma BootStarts(s: Sys, w: World, j: nat)
    requires j < |s.disk| && s.disk[j].Enabled()
    ensures var r := After(s, w, [Crash(Loss({}, {})), StartAny(j)]);
      && OnlyTries([Crash(Loss({}, {})), StartAny(j)])
      && r.disk == s.disk && DirOf(w, s.disk[j]) in r.stores
      && r.stores.Keys == s.stores.Keys + WithParents(DirOf(w, s.disk[j]))
      && exists key :: r.live == {Node(s.disk[j].name, DirOf(w, s.disk[j]), key)}
  {
    hide EqualFold, Broken, WithParents;
    TwoSteps(s, w, Crash(Loss({}, {})), StartAny(j));
    BreakKeepsDirs(s, w, Loss({}, {}));
    var c := Next(s, w, Crash(Loss({}, {})));
    assert c.live == {} && c.at == Idle && c.disk == s.disk;
    StartKeepsStores(c, s.disk[j].name, DirOf(w, s.disk[j]));
    SoleNode(c, s.disk[j].name, DirOf(w, s.disk[j]));
  }

  lemma SoleNode(c: Sys, name: string, dir: Path)
    requires c.live == {}
    ensures var r := Start(c, name, dir);
      r.stores.Keys == c.stores.Keys + WithParents(dir)
      && exists key :: r.live == {Node(name, dir, key)}
  {
    var r := Start(c, name, dir);
    assert dir[..|dir|] == dir;
    var kept := if dir in c.stores then c.stores[dir] else EMPTY_DIR;
    assert r.live == {Node(name, dir, if kept.key.Some? then kept.key.value else c.nextKey)};
  }

  lemma ElsewhereIsRefused(s: Sys, w: World, name: string, del: bool, j: nat)
    requires var i := IndexByName(s.disk, name);
      i < |s.disk| && j < |s.disk| && s.disk[j].Enabled() && EqualFold(s.disk[j].name, s.disk[i].name)
      && DirOf(w, s.disk[j]) != DirOf(w, s.disk[i])
    ensures !StaysAccepted(s, w, name, del)
  {
    hide EqualFold, After, Spares, WithParents, OnlyTries;
    BootStarts(s, w, j);
    var r := After(s, w, [Crash(Loss({}, {})), StartAny(j)]);
    assert !Accepts(r, w, name, del);
  }

  // Without the directory no node runs at it or below.
  lemma SparesButEntries(s: Sys, r: Sys, w: World, i: nat, del: bool)
    requires Inv(s, w) && i < |s.disk| && r.disk == s.disk && DirOf(w, s.disk[i]) !in s.stores && !Spares(s, w, i, del)
    ensures !Spares(r, w, i, del)
  {
    hide EqualFold, Closed, LiveOnce, AtOk, DirOf;
    forall n | n in s.live ensures !Hits(del, DirOf(w, s.disk[i]), n.dir) {
      if Hits(del, DirOf(w, s.disk[i]), n.dir) { HitExists(s.stores.Keys, del, DirOf(w, s.disk[i]), n.dir); }
    }
  }

  lemma MadeIsRefused(s: Sys, w: World, name: string, del: bool, j: nat)
    requires Inv(s, w) && IndexByName(s.disk, name) < |s.disk|
    requires var i := IndexByName(s.disk, name);
      && DirOf(w, s.disk[i]) !in s.stores && !Spares(s, w, i, del)
      && j < |s.disk| && s.disk[j].Enabled() && DirOf(w, s.disk[i]) <= DirOf(w, s.disk[j])
    ensures !StaysAccepted(s, w, name, del)
  {
    hide EqualFold, After, Spares, OnlyTries, Inv;
    BootStarts(s, w, j);
    var i, r := IndexByName(s.disk, name), After(s, w, [Crash(Loss({}, {})), StartAny(j)]);
    var dir, own := DirOf(w, s.disk[i]), DirOf(w, s.disk[j]);
    assert own[..|dir|] == dir;
    assert dir in WithParents(own) && dir in r.stores.Keys;
    SparesButEntries(s, r, w, i, del);
    assert !Accepts(r, w, name, del);
  }

  // The checks of a delete or reset keep passing, whatever fails, crashes, starts or is tried in between, if
  // and only if they pass now, every namesake that is on shares the directory, and, should the directory be
  // missing and others live in it, no entry that is on would make it.
  lemma StaysAcceptedIff(s: Sys, w: World, name: string, del: bool)
    requires Inv(s, w)
    ensures StaysAccepted(s, w, name, del) <==> Retryable(s, w, name, del)
  {
    hide EqualFold, Inv, Spares, RunsInPlace, After, OnlyTries, Accepts, Lasting;
    if Retryable(s, w, name, del) {
      forall run | OnlyTries(run) ensures Accepts(After(s, w, run), w, name, del) {
        FailuresStayRetryable(s, w, run, name, del);
        LastingIsAccepted(After(s, w, run), w, name, del);
      }
    } else if StaysAccepted(s, w, name, del) {
      AcceptsNow(s, w, name, del);
      NotLasting(s, w, name, del);
    }
  }

  lemma AcceptsNow(s: Sys, w: World, name: string, del: bool)
    requires StaysAccepted(s, w, name, del)
    ensures Accepts(s, w, name, del)
  {
    hide Accepts;
    assert OnlyTries([]) && After(s, w, []) == s;
  }

  lemma NotLasting(s: Sys, w: World, name: string, del: bool)
    requires Inv(s, w) && Accepts(s, w, name, del) && !Retryable(s, w, name, del)
    ensures !StaysAccepted(s, w, name, del)
  {
    hide EqualFold, Inv, Spares, RunsInPlace, StaysAccepted, DirOf;
    var i := IndexByName(s.disk, name);
    if !NamesakesInPlace(s, w, i) {
      var j :| 0 <= j < |s.disk| && s.disk[j].Enabled() && EqualFold(s.disk[j].name, s.disk[i].name)
        && DirOf(w, s.disk[j]) != DirOf(w, s.disk[i]);
      ElsewhereIsRefused(s, w, name, del, j);
    } else {
      var j :| 0 <= j < |s.disk| && s.disk[j].Enabled() && DirOf(w, s.disk[i]) <= DirOf(w, s.disk[j]);
      MadeIsRefused(s, w, name, del, j);
    }
  }

  // A delete or reset that got under way may be tried again, if and only if every namesake that is on shares
  // the directory and, should it be missing and others live in it, no other entry that is on would make it.
  lemma BegunIsRetryableIff(s: Sys, w: World, name: string, del: bool)
    requires Inv(s, w) && Next(s, w, Begin(name, del)) != s
    ensures var i := IndexByName(s.disk, name);
      var dir := DirOf(w, s.disk[i]);
      Retryable(Next(s, w, Begin(name, del)), w, name, del)
      <==> NamesakesInPlace(s, w, i)
           && (dir in s.stores || Spares(s, w, i, del)
               || forall j :: 0 <= j < |s.disk| && j != i && s.disk[j].Enabled() ==> !(dir <= DirOf(w, s.disk[j])))
  {
    hide EqualFold, Inv, Spares, RunsInPlace, Next, Write;
    var i, r := IndexByName(s.disk, name), Next(s, w, Begin(name, del));
    BegunParts(s, w, name, del);
    AlikeIndex(s.disk, r.disk, name);
    AlikeSpares(s, r, w, i, del);
    assert forall j :: 0 <= j < |s.disk| ==> DirOf(w, r.disk[j]) == DirOf(w, s.disk[j]);
  }

  // A delete of an unlocked tailnet in place is refused exactly when its directory exists with a protected
  // path, or the directory of another name, at it or below, or when the file cannot take the write.
  lemma DeleteRefusedIff(s: Sys, w: World, name: string)
    requires s.at == Idle && IndexByName(s.disk, name) < |s.disk|
    requires var tc := s.disk[IndexByName(s.disk, name)]; tc.locked == [] && RunsInPlace(s, w, tc)
    ensures var i := IndexByName(s.disk, name);
      Next(s, w, Begin(name, true)) == s
      <==> (exists p :: Protects(s, w, i, p) && DirOf(w, s.disk[i]) <= p && DirOf(w, s.disk[i]) in s.stores)
           || Write(s.disk, s.disk, SwitchedOff(s.disk, i)).None?
  {
    hide EqualFold, Spares, RunsInPlace, Write, Protects;
    SparesIsUnmet(s, w, IndexByName(s.disk, name));
  }

  // ---- a delete that goes through ----

  lemma DeleteGoesThrough(s: Sys, w: World, name: string)
    requires Inv(s, w) && Next(s, w, Begin(name, true)) != s
    ensures var off, r, i := Next(s, w, Begin(name, true)), DeleteOf(s, w, name, NoFault), IndexByName(s.disk, name);
      && Inv(r, w)
      && r == Sys(RemoveNamed(off.disk, s.disk[i].name), (set n | n in s.live && !EqualFold(n.name, s.disk[i].name)),
                  PurgedStores(s.stores, DirOf(w, s.disk[i]), true), s.nextKey, Idle)
  {
    hide EqualFold, Inv, MayBegin, Next, DirAt, AtOk, PurgedStores, Write, Alike, DirOf;
    var i := IndexByName(s.disk, name);
    var off := Next(s, w, Begin(name, true));
    BegunParts(s, w, name, true);
    NextKeeps(s, w, Begin(name, true));
    var stopped := Next(off, w, StopNode);
    OffLeadsOn(off, w);
    NextKeeps(off, w, StopNode);
    DirStands(s, off, w, name);
    StoppedLeadsOn(stopped, w, DirOf(w, s.disk[i]));
    var purged := Next(stopped, w, Purge);
    NextKeeps(stopped, w, Purge);
    PurgedLeadsOn(purged, w);
    NextKeeps(purged, w, Step.Forget);
  }

  lemma DirStands(s: Sys, off: Sys, w: World, name: string)
    requires Alike(s.disk, off.disk) && IndexByName(s.disk, name) < |s.disk|
    ensures var tc := s.disk[IndexByName(s.disk, name)];
      forall r: Sys :: r.disk == off.disk ==> DirAt(r, w, tc.name) == Some(DirOf(w, tc))
  {
    hide EqualFold;
    FirstIsFirst(s.disk, name);
    AlikeIndex(s.disk, off.disk, s.disk[IndexByName(s.disk, name)].name);
  }

  // The last write is the one the patcher makes: over the file as the first write left it, from the record
  // in hand, it goes through and takes out that exact name only.
  lemma ForgetIsTheWrite(s: Sys, w: World, name: string)
    requires Next(s, w, Begin(name, true)) != s
    ensures var i := IndexByName(s.disk, name);
      var off, hand, x := Next(s, w, Begin(name, true)).disk, SwitchedOff(s.disk, i), s.disk[i].name;
      Write(off, hand, RemoveNamed(hand, x)) == Some(RemoveNamed(off, x))
  {
    hide Next, Write, MayBegin, Alike;
    BegunParts(s, w, name, true);
    SecondWriteIs(s.disk, IndexByName(s.disk, name), Next(s, w, Begin(name, true)).disk);
  }

  // With nothing failing, a delete whose first write goes through finishes: the entries of that exact name
  // are gone, the directory with all below it, and every node of the name; every other entry stays, key aside
  // and key and all when it has its name alone, and no directory of another name is lost.
  lemma RetryFinishes(s: Sys, w: World, name: string)
    requires Inv(s, w) && Next(s, w, Begin(name, true)) != s
    ensures var i, r := IndexByName(s.disk, name), DeleteOf(s, w, name, NoFault);
      var full, dir := s.disk[i].name, DirOf(w, s.disk[i]);
      && r.at == Idle && Inv(r, w)
      && SameButKeys(r.disk, RemoveNamed(s.disk, full))
      && (forall tc :: tc in s.disk && tc.name != full && |Namesakes(s.disk, tc.name)| == 1 ==> tc in r.disk)
      && r.stores == PurgedStores(s.stores, dir, true) && dir !in r.stores
      && r.live == (set n | n in s.live && !EqualFold(n.name, full))
      && (forall tc :: tc in s.disk && !EqualFold(tc.name, full) && DirOf(w, tc) in s.stores
            ==> DirOf(w, tc) in r.stores && r.stores[DirOf(w, tc)] == s.stores[DirOf(w, tc)])
  {
    hide EqualFold, Inv, AtOk, PurgedStores, DeleteOf, DirOf, Next, Write, Namesakes, RemoveNamed,
         MayBegin, SameButKeys, Alike;
    var i := IndexByName(s.disk, name);
    DeleteGoesThrough(s, w, name);
    BegunParts(s, w, name, true);
    var full, dir, off := s.disk[i].name, DirOf(w, s.disk[i]), Next(s, w, Begin(name, true));
    PurgedIsGone(s.stores, dir);
    LeftAlike(s.disk, i, off.disk);
    forall tc | tc in s.disk && tc.name != full && |Namesakes(s.disk, tc.name)| == 1
      ensures tc in RemoveNamed(off.disk, full)
    {
      LoneStays(s.disk, i, off.disk, tc);
    }
    var left := PurgedStores(s.stores, dir, true);
    forall tc | tc in s.disk && !EqualFold(tc.name, full) && DirOf(w, tc) in s.stores
      ensures DirOf(w, tc) in left && left[DirOf(w, tc)] == s.stores[DirOf(w, tc)]
    {
      SparedIsKept(s, w, i, tc);
    }
  }

  lemma LeftAlike(disk: seq<TailnetConf>, i: nat, off: seq<TailnetConf>)
    requires i < |disk| && Write(disk, disk, SwitchedOff(disk, i)) == Some(off)
    ensures SameButKeys(RemoveNamed(off, disk[i].name), RemoveNamed(disk, disk[i].name))
  {
    hide Write, RemoveNamed, Revoked;
    WrittenAlike(disk, disk, SwitchedOff(disk, i));
    RevokedName(disk[i]);
    RemovedAlike(off, disk, disk[i].name, i);
  }

  // Lists alike but for entries of the name that goes are alike without it.
  lemma {:induction false} RemovedAlike(a: seq<TailnetConf>, b: seq<TailnetConf>, x: string, i: nat)
    requires |a| == |b|
    requires forall k :: 0 <= k < |a| ==> a[k].name == b[k].name && (b[k].name != x ==> Keyless(a[k]) == Keyless(b[k]))
    ensures SameButKeys(RemoveNamed(a, x), RemoveNamed(b, x))
  {
    hide Keyless;
    if a != [] {
      hide RemoveNamed;
      var n := |a| - 1;
      RemovedAlike(a[..n], b[..n], x, i);
      assert a == a[..n] + [a[n]] && b == b[..n] + [b[n]];
      RemoveNamedOne(a[..n], a[n], x);
      RemoveNamedOne(b[..n], b[n], x);
    }
  }

  lemma LoneStays(disk: seq<TailnetConf>, i: nat, off: seq<TailnetConf>, tc: TailnetConf)
    requires i < |disk| && Write(disk, disk, SwitchedOff(disk, i)) == Some(off)
    requires tc in disk && tc.name != disk[i].name && |Namesakes(disk, tc.name)| == 1
    ensures tc in RemoveNamed(off, disk[i].name)
  {
    hide Write, RemoveNamed, Revoked, Namesakes;
    var k :| 0 <= k < |disk| && disk[k] == tc;
    assert SwitchedOff(disk, i)[k] == tc;
    LoneEntryIsExact(disk, disk, SwitchedOff(disk, i), k);
    assert off[k] in off;
    RemoveNamedMembers(off, disk[i].name);
  }

  lemma SparedIsKept(s: Sys, w: World, i: nat, tc: TailnetConf)
    requires Inv(s, w) && i < |s.disk| && MayBegin(s, w, i, true)
    requires tc in s.disk && !EqualFold(tc.name, s.disk[i].name) && DirOf(w, tc) in s.stores
    ensures var r := PurgedStores(s.stores, DirOf(w, s.disk[i]), true);
      DirOf(w, tc) in r && r[DirOf(w, tc)] == s.stores[DirOf(w, tc)]
  {
    hide RunsInPlace, EqualFold, KeysOk, LiveOnce, Closed, AtOk;
    var j :| 0 <= j < |s.disk| && s.disk[j] == tc;
    var dir := DirOf(w, s.disk[i]);
    if dir in s.stores {
      assert !Hits(true, dir, DirOf(w, s.disk[j]));
    } else {
      NothingToPurge(s.stores, dir);
    }
  }

  // Of the entries that leave, those leave purged whose directory is at or below that of the first one.
  lemma LeavesPurgedIff(s: Sys, w: World, name: string, tc: TailnetConf)
    requires Inv(s, w) && Next(s, w, Begin(name, true)) != s
    requires tc in s.disk && tc.name == s.disk[IndexByName(s.disk, name)].name && DirOf(w, tc) in s.stores
    ensures var r := DeleteOf(s, w, name, NoFault);
      && (forall x :: x in r.disk ==> x.name != tc.name)
      && (DirOf(w, tc) !in r.stores <==> DirOf(w, s.disk[IndexByName(s.disk, name)]) <= DirOf(w, tc))
  {
    hide EqualFold, Inv, DeleteOf, DirOf, Next, RemoveNamed;
    DeleteGoesThrough(s, w, name);
    RemoveNamedMembers(Next(s, w, Begin(name, true)).disk, tc.name);
  }
}
