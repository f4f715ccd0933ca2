/** While one instance of a tailnet runs, its names keep their addresses, whatever happens to the others. */
module LifecycleAddresses {
  import opened Text
  import opened Config
  import ConfigWrite
  import opened RegistrySpec
  import opened Steering
  import opened Requests
  import opened Provision
  import opened LifecycleSpec
  import opened LifecycleLaws
  import opened LifecycleAgreement
  import opened LifecycleRanges

  // The instance id is running, under the name t in lower case.
  ghost predicate Runs(d: Daemon, id: nat, t: string) {
    exists i :: 0 <= i < |d.live| && d.live[i].id == id && Lower(d.live[i].conf.name) == t
  }

  ghost predicate Holds(reg: State, f: string, t: string, ip: nat) {
    HeldBy(reg, f, t) && reg.byName[f] == ip
  }

  // ---- registry steps ----

  lemma TouchHolds(reg: State, op: RegistrySpec.Op, f: string, t: string, ip: nat)
    requires Valid(reg) && Holds(reg, f, t, ip) && (op.RemoveOp? ==> Lower(op.tailnet) != t)
    ensures Holds(Apply(reg, op), f, t, ip)
  {
    hide Valid, HeldBy, Lower;
    ApplyKeepsHeld(reg, op, f, t);
  }

  lemma RegisteredHolds(reg: State, conf: TailnetConf, f: string, t: string, ip: nat)
    requires Valid(reg) && Holds(reg, f, t, ip)
    ensures Holds(Registered(reg, conf), f, t, ip)
  {
    hide Valid, DomainOf, SuffixOf, Lower, Holds;
    var suffixed := SuffixOf(reg, conf.name, Normal(conf.suffix));
    TouchHolds(reg, SuffixOp(conf.name, Normal(conf.suffix)), f, t, ip);
    assert Apply(reg, SuffixOp(conf.name, Normal(conf.suffix))) == suffixed;
    ApplyKeepsValid(reg, SuffixOp(conf.name, Normal(conf.suffix)));
    TouchHolds(suffixed, DomainOp(conf.name, conf.DomainName()), f, t, ip);
    var named := DomainOf(suffixed, conf.name, conf.DomainName());
    assert Apply(suffixed, DomainOp(conf.name, conf.DomainName())) == named;
    ResolversHoldNothing(named, named.resolvers + {Lower(conf.name)}, f, t, ip);
  }

  lemma ResolversHoldNothing(reg: State, resolvers: set<string>, f: string, t: string, ip: nat)
    requires Holds(reg, f, t, ip)
    ensures Holds(reg.(resolvers := resolvers), f, t, ip)
  {
    hide Owns;
  }

  lemma DroppedHolds(reg: State, tailnet: string, f: string, t: string, ip: nat)
    requires Valid(reg) && Holds(reg, f, t, ip) && Lower(tailnet) != t
    ensures Holds(Dropped(reg, tailnet), f, t, ip)
  {
    hide Valid, HeldBy, Lower, RemoveOf;
    RemoveKeepsValid(reg, tailnet);
    RemoveOtherKeepsHeld(reg, tailnet, f, t);
  }

  lemma HolderIsListed(reg: State, f: string, t: string, ip: nat)
    requires Holds(reg, f, t, ip)
    ensures IndexOf(reg.entries, t) < |reg.entries|
  {
    hide Owns;
  }

  // A start, or a failed one, of another tailnet.
  lemma StartOneHolds(d: Daemon, tc: TailnetConf, start: Start, f: string, t: string, ip: nat)
    requires Running(d) && FitsBeside(d.reg, tc) && Holds(d.reg, f, t, ip)
    ensures Holds(StartOne(d, tc, start).0.reg, f, t, ip)
  {
    hide Valid, FitsBeside, Lower, Holds, Registered, Dropped, Mirrors;
    if AddOf(d.reg, tc).Some? {
      var reg := AddOf(d.reg, tc).value;
      TouchHolds(d.reg, AddOp(tc), f, t, ip);
      AddKeepsValid(d.reg, tc);
      HolderIsListed(d.reg, f, t, ip);
      if start.Started? {
        RegisteredHolds(reg, tc, f, t, ip);
      } else {
        DroppedHolds(reg, tc.name, f, t, ip);
      }
    }
  }

  // ---- one sync ----

  lemma OthersName(d: Daemon, k: nat, m: nat)
    requires Running(d) && k < |d.live| && m < |d.live| && k != m
    ensures Lower(d.live[k].conf.name) != Lower(d.live[m].conf.name)
  {
    hide Tracked, Valid, Lower;
    if k < m { LiveNamesDiffer(d, k, m); } else { LiveNamesDiffer(d, m, k); }
  }

  lemma ValidWhenRunning(d: Daemon)
    requires Running(d)
    ensures Valid(d.reg) && Tracked(d)
  {
  }

  lemma StopAtHolds(d: Daemon, k: nat, m: nat, f: string, ip: nat)
    requires Running(d) && k < |d.live| && m < |d.live| && k != m
    requires Holds(d.reg, f, Lower(d.live[m].conf.name), ip)
    ensures Holds(StopAt(d, k).reg, f, Lower(d.live[m].conf.name), ip)
  {
    hide Running, Valid, Holds, Lower, Dropped;
    OthersName(d, k, m);
    ValidWhenRunning(d);
    DroppedHolds(d.reg, d.live[k].conf.name, f, Lower(d.live[m].conf.name), ip);
  }

  lemma SwappedHolds(reg: State, was: TailnetConf, tc: TailnetConf, f: string, t: string, ip: nat)
    requires Valid(reg) && Holds(reg, f, t, ip)
    ensures Holds(Swapped(reg, was, tc), f, t, ip)
  {
    hide Valid, Holds, Lower, DomainOf;
    TouchHolds(reg, DomainOp(tc.name, tc.DomainName()), f, t, ip);
    assert Apply(reg, DomainOp(tc.name, tc.DomainName())) == DomainOf(reg, tc.name, tc.DomainName());
  }

  lemma SwapAtHolds(d: Daemon, k: nat, m: nat, tc: TailnetConf, f: string, ip: nat)
    requires Running(d) && k < |d.live| && m < |d.live| && EqualFold(d.live[k].conf.name, tc.name)
    requires Holds(d.reg, f, Lower(d.live[m].conf.name), ip)
    ensures var r := SwapAt(d, k, tc);
      |r.live| == |d.live| && r.disk == d.disk && Holds(r.reg, f, Lower(r.live[m].conf.name), ip)
      && Lower(r.live[m].conf.name) == Lower(d.live[m].conf.name)
  {
    hide Running, Valid, Holds, Lower, Swapped;
    ValidWhenRunning(d);
    SwappedHolds(d.reg, d.live[k].conf, tc, f, Lower(d.live[m].conf.name), ip);
    SwapKeepsName(d, k, m, tc);
  }

  lemma {:induction false} StopPassHolds(d: Daemon, k: nat, m: nat, f: string, ip: nat)
    requires Running(d) && k <= |d.live| && m < |d.live| && (m < k || Keeps(d.live[m], d.disk))
    requires Holds(d.reg, f, Lower(d.live[m].conf.name), ip)
    ensures Holds(StopPass(d, k).reg, f, Lower(d.live[m].conf.name), ip)
    decreases |d.live| - k
  {
    hide Running, Holds, Keeps, Lower, WantOf, Swapped, Dropped;
    if k < |d.live| {
      var node := d.live[k];
      if Keeps(node, d.disk) {
        KeepsShape(node, d.disk);
        var tc := WantOf(d.disk, node.conf.name).value;
        SwapAtIsRunning(d, k, tc);
        SwapAtHolds(d, k, m, tc, f, ip);
        StopPassHolds(SwapAt(d, k, tc), k + 1, m, f, ip);
      } else {
        StopAtIsRunning(d, k);
        StopAtHolds(d, k, m, f, ip);
        StopPassHolds(StopAt(d, k), k, if m < k then m else m - 1, f, ip);
      }
    }
  }

  lemma SwapAtIsRunning(d: Daemon, k: nat, tc: TailnetConf)
    requires Running(d) && k < |d.live|
    requires EqualFold(d.live[k].conf.name, tc.name) && d.live[k].conf.cidr == tc.cidr
    ensures Running(SwapAt(d, k, tc))
  {
    hide Tracked, Valid, Swapped;
    SwapAtTracks(d, k, tc);
    SwappedIsValid(d.reg, d.live[k].conf, tc);
  }

  lemma SwapKeepsName(d: Daemon, k: nat, m: nat, tc: TailnetConf)
    requires k < |d.live| && m < |d.live| && EqualFold(d.live[k].conf.name, tc.name)
    ensures Lower(SwapAt(d, k, tc).live[m].conf.name) == Lower(d.live[m].conf.name)
  {
  }

  lemma {:induction false} StartPassHolds(d: Daemon, n: nat, starts: nat -> Start, f: string, t: string, ip: nat)
    requires Good(d) && n <= |d.disk| && Holds(d.reg, f, t, ip)
    ensures Holds(StartPass(d, n, LiveNames(d.live), starts).0.reg, f, t, ip)
  {
    hide Good, Holds, LiveNames, StartOne, Lower, Passed;
    if n > 0 {
      StartPassHolds(d, n - 1, starts, f, t, ip);
      StartPassIsGood(d, n - 1, starts);
      GoodParts(d);
      GoodParts(StartPass(d, n - 1, LiveNames(d.live), starts).0);
      StartPassRuns(d, n - 1, starts);
      var (r, failed) := StartPass(d, n - 1, LiveNames(d.live), starts);
      var tc := d.disk[n - 1];
      if tc.Enabled() && Lower(tc.name) !in LiveNames(d.live) {
        NotYetLive(d, n - 1, starts, r, failed);
        SameDisk(d, n - 1, starts, r, failed);
        FitsFromDisk(r, tc);
        StartOneHolds(r, tc, starts(n - 1), f, t, ip);
      }
    }
  }

  lemma GoodParts(d: Daemon)
    requires Good(d)
    ensures ConfigOk(d.disk) && UniqueNames(d.disk) && Running(d) && Tracked(d) && FromDisk(d) && Agrees(d)
  {
  }

  lemma RunningParts(d: Daemon)
    requires Running(d) && ConfigOk(d.disk)
    ensures Tracked(d) && Valid(d.reg) && UniqueNames(d.disk)
  {
  }

  lemma SyncHolds(d: Daemon, starts: nat -> Start, m: nat, f: string, ip: nat)
    requires Running(d) && ConfigOk(d.disk) && m < |d.live| && Keeps(d.live[m], d.disk)
    requires Holds(d.reg, f, Lower(d.live[m].conf.name), ip)
    ensures Holds(SyncOf(d, starts).0.reg, f, Lower(d.live[m].conf.name), ip)
  {
    hide Running, ConfigOk, Keeps, Holds, StopPass, StartPass, LiveNames, Lower, Good;
    StopPassHolds(d, 0, m, f, ip);
    ValidWhenRunning(d);
    StopPassMatches(d);
    SyncIsGood(d, starts);
    var s := StopPass(d, 0);
    StartPassHolds(s, |s.disk|, starts, f, Lower(d.live[m].conf.name), ip);
  }

  // ---- instances over an operation ----

  // Instances never come back: whoever runs afterwards under an old id ran before, under the same name.
  ghost predicate Continues(d: Daemon, r: Daemon) {
    && d.nextId <= r.nextId
    && forall i :: 0 <= i < |r.live| && r.live[i].id < d.nextId ==> Runs(d, r.live[i].id, Lower(r.live[i].conf.name))
  }

  lemma ContinuesOn(a: Daemon, b: Daemon, c: Daemon)
    requires Continues(a, b) && Continues(b, c)
    ensures Continues(a, c)
  {
    hide Lower;
    forall i | 0 <= i < |c.live| && c.live[i].id < a.nextId ensures Runs(a, c.live[i].id, Lower(c.live[i].conf.name)) {
      assert Runs(b, c.live[i].id, Lower(c.live[i].conf.name));
      var j :| 0 <= j < |b.live| && b.live[j].id == c.live[i].id
        && Lower(b.live[j].conf.name) == Lower(c.live[i].conf.name);
      assert Runs(a, b.live[j].id, Lower(b.live[j].conf.name));
    }
  }

  lemma SameLiveContinues(d: Daemon, r: Daemon)
    requires r.live == d.live && r.nextId == d.nextId
    ensures Continues(d, r)
  {
    hide Lower;
  }

  lemma StopAtContinues(d: Daemon, k: nat)
    requires k < |d.live|
    ensures Continues(d, StopAt(d, k))
  {
    hide Lower, Dropped;
    var r := StopAt(d, k);
    forall i | 0 <= i < |r.live| ensures Runs(d, r.live[i].id, Lower(r.live[i].conf.name)) {
      assert r.live[i] == d.live[if i < k then i else i + 1];
    }
  }

  lemma StartOneContinues(d: Daemon, tc: TailnetConf, start: Start)
    ensures Continues(d, StartOne(d, tc, start).0)
  {
    hide Lower, AddOf, Registered, Dropped;
    var r := StartOne(d, tc, start).0;
    forall i | 0 <= i < |r.live| && r.live[i].id < d.nextId ensures Runs(d, r.live[i].id, Lower(r.live[i].conf.name)) {
      assert i < |d.live| && r.live[i] == d.live[i];
    }
  }

  lemma {:induction false} StartPassContinues(d: Daemon, n: nat, names: set<string>, starts: nat -> Start)
    requires n <= |d.disk|
    ensures Continues(d, StartPass(d, n, names, starts).0)
  {
    hide StartOne, Continues;
    SameLiveContinues(d, d);
    if n > 0 {
      var r := StartPass(d, n - 1, names, starts).0;
      StartPassContinues(d, n - 1, names, starts);
      StartOneContinues(r, d.disk[n - 1], starts(n - 1));
      ContinuesOn(d, r, StartOne(r, d.disk[n - 1], starts(n - 1)).0);
    }
  }

  lemma StopPassContinues(d: Daemon)
    requires Tracked(d)
    ensures Continues(d, StopPass(d, 0))
  {
    hide Tracked, Keeps, StopPass, Lower, Kept, FromDisk;
    StopPassMatches(d);
    KeptMembers(d.live, d.disk);
    var r := StopPass(d, 0);
    forall i | 0 <= i < |r.live| ensures Runs(d, r.live[i].id, Lower(r.live[i].conf.name)) {
      assert r.live[i] in Kept(d.live, d.disk);
      var was :| was in d.live && Keeps(was, d.disk) && r.live[i] == Renewed(was, d.disk);
      KeepsShape(was, d.disk);
      var j :| 0 <= j < |d.live| && d.live[j] == was;
    }
  }

  lemma SyncContinues(d: Daemon, starts: nat -> Start)
    requires Tracked(d)
    ensures Continues(d, SyncOf(d, starts).0)
  {
    hide Tracked, StopPass, StartPass, LiveNames, Continues;
    var s := StopPass(d, 0);
    StopPassContinues(d);
    StopPassKeepsDisk(d, 0);
    StartPassContinues(s, |s.disk|, LiveNames(s.live), starts);
    ContinuesOn(d, s, SyncOf(d, starts).0);
  }

  lemma StepContinues(d: Daemon, op: LifecycleSpec.Op)
    requires Tracked(d)
    ensures Continues(d, Step(d, op))
  {
    hide Tracked, SyncOf, SyncTo, Put, StartOne, StopAt, Continues, Apply, ServeOf, StopNamed;
    SameLiveContinues(d, d);
    match op {
      case Reload(starts) => SyncContinues(d, starts);
      case Handle(q, env, starts, reached) => HandleContinues(d, q, env, starts, reached);
      case Append(conf, starts) =>
        var next := d.disk + [Fresh(conf)];
        if Put(d, next).Some? { SyncToContinues(d, next, starts, Put(d, next).value); }
      case Restart(name, start) =>
        var k := LiveIndex(d.live, name);
        if k < |d.live| {
          StopAtContinues(d, k);
          StartOneContinues(StopAt(d, k), d.live[k].conf, start);
          ContinuesOn(d, StopAt(d, k), Step(d, op));
        }
      case Retry(name, start) =>
        var i := IndexByName(d.disk, name);
        if i < |d.disk| { StartOneContinues(d, d.disk[i], start); }
      case Touch(op) => SameLiveContinues(d, d.(reg := Apply(d.reg, op)));
      case Boot(starts) =>
        var booted := d.(live := [], reg := EMPTY);
        NothingRuns(d);
        ValidWhenRunning(booted);
        SyncContinues(booted, starts);
        NothingContinues(d);
        ContinuesOn(d, booted, Step(d, op));
    }
  }

  lemma NothingContinues(d: Daemon)
    ensures Continues(d, d.(live := [], reg := EMPTY))
  {
  }

  lemma StopNamedContinues(d: Daemon, name: string)
    ensures Continues(d, StopNamed(d, name))
  {
    hide StopAt, Continues;
    SameLiveContinues(d, d);
    var k := LiveIndex(d.live, name);
    if k < |d.live| { StopAtContinues(d, k); }
  }

  lemma AfterStopTracks(d: Daemon, q: Request, env: Env)
    requires Tracked(d)
    ensures Tracked(AfterStop(d, q, env))
  {
    hide Tracked, Serve, StopAt, EqualFold;
    OtherDisk(d, Serve(d.disk, q, env));
    if StopsOne(d, q) {
      var k := LiveIndex(d.live, d.disk[IndexByName(d.disk, q.tailnet)].name);
      if k < |d.live| { StopAtTracks(Written(d, q, env), k); }
    }
  }

  lemma AfterStopContinues(d: Daemon, q: Request, env: Env)
    ensures Continues(d, AfterStop(d, q, env))
  {
    hide Continues, StopNamed, Serve;
    SameLiveContinues(d, Written(d, q, env));
    if StopsOne(d, q) {
      StopNamedContinues(Written(d, q, env), d.disk[IndexByName(d.disk, q.tailnet)].name);
      ContinuesOn(d, Written(d, q, env), AfterStop(d, q, env));
    }
  }

  lemma SyncToContinues(d: Daemon, next: seq<TailnetConf>, starts: nat -> Start, file: seq<TailnetConf>)
    requires Tracked(d)
    ensures Continues(d, SyncTo(d, next, starts, file))
  {
    hide Tracked, SyncOf, Continues;
    var r := SyncOf(d.(disk := next), starts).0;
    OtherDisk(d, next);
    SameLiveContinues(d, d.(disk := next));
    SyncContinues(d.(disk := next), starts);
    SameLiveContinues(r, r.(disk := file));
    ContinuesOn(d, d.(disk := next), r);
    ContinuesOn(d, r, r.(disk := file));
  }

  lemma SwitchOffContinues(d: Daemon, i: nat)
    requires Tracked(d) && i < |d.disk| && SwitchOff(d, i).Some?
    ensures Tracked(SwitchOff(d, i).value) && Continues(d, SwitchOff(d, i).value)
  {
    hide Tracked, Continues, StopNamed, ConfigWrite.Write, Revoked;
    var off := d.(disk := Put(d, d.disk[i := Revoked(d.disk[i])]).value);
    OtherDisk(d, off.disk);
    SameLiveContinues(d, off);
    StopNamedTracks(off, d.disk[i].name);
    StopNamedContinues(off, d.disk[i].name);
    ContinuesOn(d, off, SwitchOff(d, i).value);
  }

  lemma HandleContinues(d: Daemon, q: Request, env: Env, starts: nat -> Start, reached: bool)
    requires Tracked(d)
    ensures Continues(d, ServeOf(d, q, env, starts, reached))
  {
    hide Tracked, SyncTo, Serve, SwitchOff, Put, Continues, Revoked, RemoveNamed, ConfigWrite.Write;
    SameLiveContinues(d, d);
    match q {
      case Update(_, _, _) =>
        var next := Serve(d.disk, q, env);
        if Put(d, next).Some? { SyncToContinues(d, next, starts, Put(d, next).value); }
      case Add(_) =>
      case Reset(name) => StopThenSyncContinues(d, q, starts);
      case Remove(name, finished) => StopThenSyncContinues(d, q, starts);
    }
  }

  lemma StopThenSyncContinues(d: Daemon, q: Request, starts: nat -> Start)
    requires Tracked(d) && (q.Reset? || q.Remove?)
    ensures var i := IndexByName(d.disk, q.tailnet);
      i < |d.disk| && SwitchOff(d, i).Some? ==>
        && Continues(d, SwitchOff(d, i).value)
        && forall next, file :: Continues(d, SyncTo(SwitchOff(d, i).value, next, starts, file))
  {
    hide Tracked, SyncTo, SwitchOff, Continues;
    var i := IndexByName(d.disk, q.tailnet);
    if i < |d.disk| && SwitchOff(d, i).Some? {
      var off := SwitchOff(d, i).value;
      SwitchOffContinues(d, i);
      forall next, file ensures Continues(d, SyncTo(off, next, starts, file)) {
        SyncToContinues(off, next, starts, file);
        ContinuesOn(d, off, SyncTo(off, next, starts, file));
      }
    }
  }

  // ---- addresses over an operation ----

  // The instance ran before and still runs, so what happened between kept the name's address.
  ghost predicate KeptAddress(d: Daemon, r: Daemon, id: nat, t: string, f: string, ip: nat) {
    Runs(d, id, t) && Runs(r, id, t) && Holds(d.reg, f, t, ip) ==> Holds(r.reg, f, t, ip)
  }

  lemma SyncKeepsAddress(d: Daemon, starts: nat -> Start, id: nat, t: string, f: string, ip: nat)
    requires Running(d) && ConfigOk(d.disk)
    ensures KeptAddress(d, SyncOf(d, starts).0, id, t, f, ip)
  {
    hide Running, ConfigOk, Keeps, Holds, SyncOf, Lower;
    var r := SyncOf(d, starts).0;
    if Runs(d, id, t) && Runs(r, id, t) && Holds(d.reg, f, t, ip) {
      var m :| 0 <= m < |d.live| && d.live[m].id == id && Lower(d.live[m].conf.name) == t;
      var j :| 0 <= j < |r.live| && r.live[j].id == id && Lower(r.live[j].conf.name) == t;
      RunningParts(d);
      SyncKeepsInstances(d, starts, d.live[m]);
      assert r.live[j] in r.live;
      SyncHolds(d, starts, m, f, ip);
    }
  }

  lemma IdIsIndex(d: Daemon, i: nat, j: nat)
    requires Running(d) && i < |d.live| && j < |d.live| && d.live[i].id == d.live[j].id
    ensures i == j
  {
    hide Valid, Mirrors;
  }

  lemma StopAtKeepsAddress(d: Daemon, k: nat, id: nat, t: string, f: string, ip: nat)
    requires Running(d) && k < |d.live|
    ensures KeptAddress(d, StopAt(d, k), id, t, f, ip)
  {
    hide Running, Holds, Lower, Dropped;
    var r := StopAt(d, k);
    if Runs(d, id, t) && Runs(r, id, t) && Holds(d.reg, f, t, ip) {
      var m :| 0 <= m < |d.live| && d.live[m].id == id && Lower(d.live[m].conf.name) == t;
      var j :| 0 <= j < |r.live| && r.live[j].id == id && Lower(r.live[j].conf.name) == t;
      IdIsIndex(d, m, if j < k then j else j + 1);
      StopAtHolds(d, k, m, f, ip);
    }
  }

  lemma KeptThrough(a: Daemon, b: Daemon, c: Daemon, id: nat, t: string, f: string, ip: nat)
    requires KeptAddress(a, b, id, t, f, ip) && KeptAddress(b, c, id, t, f, ip)
    requires Continues(b, c) && id < b.nextId
    ensures KeptAddress(a, c, id, t, f, ip)
  {
    hide Holds, Lower;
    if Runs(c, id, t) {
      var j :| 0 <= j < |c.live| && c.live[j].id == id && Lower(c.live[j].conf.name) == t;
    }
  }

  lemma StartOneKeepsAddress(d: Daemon, tc: TailnetConf, start: Start, id: nat, t: string, f: string, ip: nat)
    requires Running(d) && FitsBeside(d.reg, tc)
    ensures KeptAddress(d, StartOne(d, tc, start).0, id, t, f, ip)
  {
    hide Running, Holds, StartOne, Runs, FitsBeside;
    if Holds(d.reg, f, t, ip) { StartOneHolds(d, tc, start, f, t, ip); }
  }

  lemma RestartKeepsAddress(d: Daemon, name: string, start: Start, id: nat, t: string, f: string, ip: nat)
    requires Good(d) && id < d.nextId
    ensures KeptAddress(d, RestartOf(d, name, start).0, id, t, f, ip)
  {
    hide Running, ConfigOk, Holds, StartOne, Runs, FitsBeside, Lower, EqualFold, Dropped, KeptAddress, Continues,
         FromDisk;
    var k := LiveIndex(d.live, name);
    if k < |d.live| {
      var s, conf := StopAt(d, k), d.live[k].conf;
      StopAtKeepsAddress(d, k, id, t, f, ip);
      StopAtIsRunning(d, k);
      StopAtIsFromDisk(d, k);
      ValidWhenRunning(d);
      StopAtNames(d, k);
      AtIsFromDisk(d, k);
      FitsFromDisk(s, conf);
      StartOneKeepsAddress(s, conf, start, id, t, f, ip);
      StartOneContinues(s, conf, start);
      KeptThrough(d, s, StartOne(s, conf, start).0, id, t, f, ip);
    } else {
      SameKeepsAddress(d, id, t, f, ip);
    }
  }

  lemma SameKeepsAddress(d: Daemon, id: nat, t: string, f: string, ip: nat)
    ensures KeptAddress(d, d, id, t, f, ip)
  {
  }

  lemma AtIsFromDisk(d: Daemon, k: nat)
    requires FromDisk(d) && k < |d.live|
    ensures d.live[k].conf in d.disk
  {
  }

  lemma RetryKeepsAddress(d: Daemon, name: string, start: Start, id: nat, t: string, f: string, ip: nat)
    requires Good(d)
    ensures KeptAddress(d, RetryOf(d, name, start).0, id, t, f, ip)
  {
    hide Running, ConfigOk, StartOne, FitsBeside, EqualFold, KeptAddress, FromDisk;
    var i := IndexByName(d.disk, name);
    SameKeepsAddress(d, id, t, f, ip);
    if i < |d.disk| && d.disk[i].Enabled() && LiveIndex(d.live, name) == |d.live| {
      forall j | 0 <= j < |d.live| ensures !EqualFold(d.live[j].conf.name, d.disk[i].name) {
        FoldsThrough(d.disk[i].name, name, d.live[j].conf.name);
      }
      FitsFromDisk(d, d.disk[i]);
      StartOneKeepsAddress(d, d.disk[i], start, id, t, f, ip);
    }
  }

  lemma StopNamedKeepsAddress(d: Daemon, name: string, id: nat, t: string, f: string, ip: nat)
    requires Running(d)
    ensures KeptAddress(d, StopNamed(d, name), id, t, f, ip)
  {
    hide Running, KeptAddress, StopAt, EqualFold;
    var k := LiveIndex(d.live, name);
    if k < |d.live| { StopAtKeepsAddress(d, k, id, t, f, ip); } else { SameKeepsAddress(d, id, t, f, ip); }
  }

  lemma AfterStopKeepsAddress(d: Daemon, q: Request, env: Env, id: nat, t: string, f: string, ip: nat)
    requires Running(d)
    ensures KeptAddress(d, AfterStop(d, q, env), id, t, f, ip)
  {
    hide Tracked, Valid, Serve, Holds, StopNamed, Lower;
    var next := Written(d, q, env);
    OtherDisk(d, next.disk);
    if StopsOne(d, q) {
      StopNamedKeepsAddress(next, d.disk[IndexByName(d.disk, q.tailnet)].name, id, t, f, ip);
    }
  }

  lemma HandleKeepsAddress(d: Daemon, q: Request, env: Env, starts: nat -> Start, reached: bool,
                           id: nat, t: string, f: string, ip: nat)
    requires Good(d) && id < d.nextId
    ensures KeptAddress(d, ServeOf(d, q, env, starts, reached), id, t, f, ip)
  {
    hide Good, Running, ConfigOk, SyncOf, Serve, ServeOf, AfterStop, KeptAddress;
    GoodParts(d);
    HandleIsThreeSteps(d, q, env, starts, reached);
    SameKeepsAddress(d, id, t, f, ip);
    var s := AfterStop(d, q, env);
    AfterStopIsSound(d, q, env);
    AfterStopTracks(d, q, env);
    AfterStopKeepsAddress(d, q, env, id, t, f, ip);
    AfterStopContinues(d, q, env);
    SyncKeepsAddress(s, starts, id, t, f, ip);
    SyncContinues(s, starts);
    KeptThrough(d, s, SyncOf(s, starts).0, id, t, f, ip);
  }

  lemma AppendKeepsAddress(d: Daemon, conf: TailnetConf, starts: nat -> Start, id: nat, t: string, f: string, ip: nat)
    requires Good(d) && Unraced(d, LifecycleSpec.Append(conf, starts))
    ensures KeptAddress(d, AppendOf(d, conf, starts), id, t, f, ip)
  {
    hide Tracked, Valid, ConfigOk, SyncOf, Fresh, FromDisk, Beside, Holds;
    AppendIsGoodIff(d, conf, starts);
    SameKeepsAddress(d, id, t, f, ip);
    if !ConfigWrite.Has(d.disk, conf.name) {
      var next := d.(disk := d.disk + [Fresh(conf)]);
      AppendKeepsConfigOkIff(d.disk, Fresh(conf));
      OtherDisk(d, next.disk);
      SyncKeepsAddress(next, starts, id, t, f, ip);
    }
  }

  lemma StepKeepsAddress(d: Daemon, op: LifecycleSpec.Op, id: nat, t: string, f: string, ip: nat)
    requires Good(d) && Unraced(d, op) && id < d.nextId
    ensures KeptAddress(d, Step(d, op), id, t, f, ip)
  {
    hide Good, Running, ConfigOk, SyncOf, Serve, ServeOf, RestartOf, RetryOf, Holds, Apply, Valid;
    GoodParts(d);
    match op {
      case Reload(starts) => SyncKeepsAddress(d, starts, id, t, f, ip);
      case Handle(q, env, starts, reached) => HandleKeepsAddress(d, q, env, starts, reached, id, t, f, ip);
      case Append(conf, starts) => AppendKeepsAddress(d, conf, starts, id, t, f, ip);
      case Restart(name, start) => RestartKeepsAddress(d, name, start, id, t, f, ip);
      case Retry(name, start) => RetryKeepsAddress(d, name, start, id, t, f, ip);
      case Touch(op) =>
        ValidWhenRunning(d);
        if !op.AddOp? && !op.RemoveOp? && Holds(d.reg, f, t, ip) { TouchHolds(d.reg, op, f, t, ip); }
      case Boot(starts) =>
        var booted := d.(live := [], reg := EMPTY);
        NothingRuns(d);
        ValidWhenRunning(booted);
        SyncContinues(booted, starts);
        assert !Runs(Step(d, op), id, t) by {
          if Runs(Step(d, op), id, t) { StillRuns(booted, Step(d, op), id, t); }
        }
    }
  }

  lemma StillRuns(d: Daemon, r: Daemon, id: nat, t: string)
    requires Continues(d, r) && Runs(r, id, t) && id < d.nextId
    ensures Runs(d, id, t)
  {
    hide Lower;
    var j :| 0 <= j < |r.live| && r.live[j].id == id && Lower(r.live[j].conf.name) == t;
  }

  // Over any run, in which anything may happen to the other tailnets: as long as one instance keeps running,
  // every name that held an address of it keeps that address, and the address still looks up to the name.
  lemma {:induction false} InstanceKeepsAddresses(d: Daemon, run: seq<LifecycleSpec.Op>, id: nat, t: string, f: string)
    requires Good(d) && UnracedRun(d, run) && Runs(d, id, t) && id < d.nextId && HeldBy(d.reg, f, t)
    requires Runs(Steps(d, run), id, t)
    ensures var reg, ip := Steps(d, run).reg, d.reg.byName[f];
      && HeldBy(reg, f, t) && reg.byName[f] == ip
      && ip in reg.byIP && reg.byIP[ip] == f
      && d.nextId <= Steps(d, run).nextId
  {
    hide Good, Step, Runs, Continues, Owns, Unraced;
    var ip := d.reg.byName[f];
    if run != [] {
      var before, op := Steps(d, run[..|run| - 1]), run[|run| - 1];
      GoodParts(d);
      RunGrows(d, run[..|run| - 1]);
      StepsAreGood(d, run[..|run| - 1]);
      GoodParts(before);
      StepContinues(before, op);
      StillRuns(before, Step(before, op), id, t);
      InstanceKeepsAddresses(d, run[..|run| - 1], id, t, f);
      StepKeepsAddress(before, op, id, t, f, ip);
      NextIdGrows(before, Step(before, op));
    }
    StepsAreGood(d, run);
    HeldIsStored(Steps(d, run), f, t);
  }

  lemma NextIdGrows(d: Daemon, r: Daemon)
    requires Continues(d, r)
    ensures d.nextId <= r.nextId
  {
  }

  lemma {:induction false} RunGrows(d: Daemon, run: seq<LifecycleSpec.Op>)
    requires Agrees(d)
    ensures d.nextId <= Steps(d, run).nextId
  {
    hide Tracked, FromDisk, Step, Continues;
    if run != [] {
      RunGrows(d, run[..|run| - 1]);
      StepsAgree(d, run[..|run| - 1]);
      StepContinues(Steps(d, run[..|run| - 1]), run[|run| - 1]);
      NextIdGrows(Steps(d, run[..|run| - 1]), Steps(d, run));
    }
  }

  lemma HeldIsStored(d: Daemon, f: string, t: string)
    requires Good(d) && HeldBy(d.reg, f, t)
    ensures d.reg.byName[f] in d.reg.byIP && d.reg.byIP[d.reg.byName[f]] == f
  {
    hide ConfigOk, FromDisk, Mirrors, EntriesOk, HasOwner, Owns;
  }
}
