/** While the file is sound (each name once, ranges disjoint) the registry's addresses are sound too. */
module LifecycleRanges {
  import opened Text
  import opened Cidr
  import opened Config
  import opened ConfigWrite
  import opened Writes
  import opened RegistrySpec
  import opened Requests
  import opened Provision
  import opened LifecycleSpec
  import opened LifecycleLaws
  import opened LifecycleAgreement

  // ---- registry steps ----

  lemma DroppedIsValid(reg: State, tailnet: string)
    requires Valid(reg)
    ensures Valid(Dropped(reg, tailnet))
  {
    hide Valid, RemoveOf;
    RemoveKeepsValid(reg, tailnet);
  }

  lemma ResolversDoNotMatter(reg: State, resolvers: set<string>)
    requires Valid(reg)
    ensures Valid(reg.(resolvers := resolvers))
  {
    hide EntriesOk, Inverse, HasOwner;
  }

  lemma RegisteredIsValid(reg: State, conf: TailnetConf)
    requires Valid(reg)
    ensures Valid(Registered(reg, conf))
  {
    hide Valid, DomainOf, SuffixOf;
    var suffixed := SuffixOf(reg, conf.name, Normal(conf.suffix));
    ApplyKeepsValid(reg, SuffixOp(conf.name, Normal(conf.suffix)));
    assert Apply(reg, SuffixOp(conf.name, Normal(conf.suffix))) == suffixed;
    ApplyKeepsValid(suffixed, DomainOp(conf.name, conf.DomainName()));
    var named := DomainOf(suffixed, conf.name, conf.DomainName());
    assert Apply(suffixed, DomainOp(conf.name, conf.DomainName())) == named;
    ResolversDoNotMatter(named, named.resolvers + {Lower(conf.name)});
  }

  lemma SwappedIsValid(reg: State, was: TailnetConf, tc: TailnetConf)
    requires Valid(reg)
    ensures Valid(Swapped(reg, was, tc))
  {
    hide Valid, DomainOf;
    ApplyKeepsValid(reg, DomainOp(tc.name, tc.DomainName()));
    assert Apply(reg, DomainOp(tc.name, tc.DomainName())) == DomainOf(reg, tc.name, tc.DomainName());
  }

  lemma StartOneIsValid(d: Daemon, tc: TailnetConf, start: Start)
    requires Valid(d.reg) && FitsBeside(d.reg, tc)
    ensures Valid(StartOne(d, tc, start).0.reg)
  {
    hide Valid, FitsBeside, AddOf, Dropped, Registered;
    if AddOf(d.reg, tc).Some? {
      var reg := AddOf(d.reg, tc).value;
      AddKeepsValid(d.reg, tc);
      if start.Started? {
        RegisteredIsValid(reg, tc);
      } else {
        DroppedIsValid(reg, tc.name);
      }
    }
  }

  // A configured tailnet that is not running fits beside those that are.
  lemma FitsFromDisk(d: Daemon, tc: TailnetConf)
    requires Good(d) && tc in d.disk
    requires forall i :: 0 <= i < |d.live| ==> !EqualFold(d.live[i].conf.name, tc.name)
    ensures FitsBeside(d.reg, tc)
  {
    hide Valid, Lower, ParseCIDR, EqualFold, Size, Apart, RangesDisjoint, UniqueNames;
    if ParseCIDR(tc.cidr).Some? {
      ParsedIsWf(tc.cidr);
      forall i | 0 <= i < |d.reg.entries| && d.reg.entries[i].ipnet.ones <= 32
        ensures Apart(d.reg.entries[i].ipnet, ParseCIDR(tc.cidr).value)
      {
        NameAt(d, i);
        var conf := d.live[i].conf;
        ParsedIsWf(conf.cidr);
        BesideOnDisk(d.disk, conf, tc);
        ApartMeansDisjoint(d.reg.entries[i].ipnet, ParseCIDR(tc.cidr).value);
      }
    }
  }

  lemma BesideOnDisk(disk: seq<TailnetConf>, a: TailnetConf, b: TailnetConf)
    requires RangesDisjoint(disk) && a in disk && b in disk && !EqualFold(a.name, b.name)
    ensures Beside(a, b)
  {
    hide Beside;
    var i :| 0 <= i < |disk| && disk[i] == a;
    var j :| 0 <= j < |disk| && disk[j] == b;
    BesideIsSymmetric(a, b);
  }

  // ---- a sync ----

  lemma {:induction false} StopPassIsValid(d: Daemon, k: nat)
    requires Valid(d.reg) && k <= |d.live|
    ensures Valid(StopPass(d, k).reg)
    decreases |d.live| - k
  {
    hide Valid, Keeps, Dropped, Swapped;
    if k < |d.live| {
      if Keeps(d.live[k], d.disk) {
        KeepsShape(d.live[k], d.disk);
        var tc := WantOf(d.disk, d.live[k].conf.name).value;
        SwappedIsValid(d.reg, d.live[k].conf, tc);
        StopPassIsValid(SwapAt(d, k, tc), k + 1);
      } else {
        DroppedIsValid(d.reg, d.live[k].conf.name);
        StopPassIsValid(StopAt(d, k), k);
      }
    }
  }

  lemma {:induction false} StartPassIsGood(d: Daemon, n: nat, starts: nat -> Start)
    requires Good(d) && n <= |d.disk|
    ensures Good(StartPass(d, n, LiveNames(d.live), starts).0)
  {
    hide Tracked, FromDisk, Valid, RangesDisjoint, UniqueNames, LiveNames, StartOne, Passed, Lower;
    if n > 0 {
      StartPassIsGood(d, n - 1, starts);
      StartPassRuns(d, n - 1, starts);
      StartPassMatches(d, n, LiveNames(d.live), starts);
      var (r, failed) := StartPass(d, n - 1, LiveNames(d.live), starts);
      var tc := d.disk[n - 1];
      if tc.Enabled() && Lower(tc.name) !in LiveNames(d.live) {
        NotYetLive(d, n - 1, starts, r, failed);
        SameDisk(d, n - 1, starts, r, failed);
        FitsFromDisk(r, tc);
        StartOneIsValid(r, tc, starts(n - 1));
      }
    }
  }

  lemma SyncIsGood(d: Daemon, starts: nat -> Start)
    requires Running(d) && ConfigOk(d.disk)
    ensures Good(SyncOf(d, starts).0) && Good(StopPass(d, 0))
  {
    hide Tracked, FromDisk, Valid, ConfigOk, StopPass, StartPass, LiveNames;
    StopPassMatches(d);
    StopPassIsValid(d, 0);
    StartPassIsGood(StopPass(d, 0), |d.disk|, starts);
  }

  // ---- every operation ----

  lemma StopAtIsRunning(d: Daemon, k: nat)
    requires Running(d) && k < |d.live|
    ensures Running(StopAt(d, k))
  {
    hide Tracked, Valid, Dropped;
    StopAtTracks(d, k);
    DroppedIsValid(d.reg, d.live[k].conf.name);
  }

  // With names unique ignoring case the agreement leaves no key behind.
  lemma AgreesIsFromDisk(d: Daemon)
    requires Agrees(d) && UniqueNames(d.disk)
    ensures FromDisk(d)
  {
    hide Tracked, UniqueNames, WriteLaws.Namesakes, Keyless;
    forall i | 0 <= i < |d.live| ensures d.live[i].conf in d.disk {
      var conf := d.live[i].conf;
      assert OnFile(conf, d.disk);
      var x :| x in d.disk && Keyless(x) == Keyless(conf);
      KeylessUpTo(x, conf);
      var m :| 0 <= m < |d.disk| && d.disk[m] == x;
      FoldedUniqueIsUnique(d.disk);
      SoleNamed(d.disk, m);
    }
  }

  lemma GoodAgrees(d: Daemon)
    requires Good(d)
    ensures Agrees(d) && UniqueNames(d.disk)
  {
    hide Tracked, Valid, UniqueNames, RangesDisjoint, FromDisk;
    MatchesAgrees(d);
  }

  lemma StartOneIsGood(d: Daemon, tc: TailnetConf, start: Start)
    requires Good(d) && tc in d.disk && tc.Enabled()
    requires forall j :: 0 <= j < |d.live| ==> !EqualFold(d.live[j].conf.name, tc.name)
    ensures Good(StartOne(d, tc, start).0)
  {
    hide Tracked, FromDisk, Valid, UniqueNames, RangesDisjoint, StartOne, EqualFold, Agrees;
    FitsFromDisk(d, tc);
    GoodAgrees(d);
    RecordOnFile(tc, d.disk);
    StartOneAgrees(d, tc, start);
    StartOneTracks(d, tc, start);
    StartOneIsValid(d, tc, start);
    AgreesIsFromDisk(StartOne(d, tc, start).0);
  }

  lemma RestartIsGood(d: Daemon, name: string, start: Start)
    requires Good(d)
    ensures Good(RestartOf(d, name, start).0)
  {
    hide Tracked, Valid, ConfigOk, StartOne, EqualFold, Dropped;
    var k := LiveIndex(d.live, name);
    if k < |d.live| {
      StopAtIsRunning(d, k);
      StopAtIsFromDisk(d, k);
      StopAtNames(d, k);
      StartOneIsGood(StopAt(d, k), d.live[k].conf, start);
    }
  }

  lemma RetryIsGood(d: Daemon, name: string, start: Start)
    requires Good(d)
    ensures Good(RetryOf(d, name, start).0)
  {
    hide Tracked, Valid, ConfigOk, StartOne, EqualFold, FromDisk;
    var i := IndexByName(d.disk, name);
    if i < |d.disk| && d.disk[i].Enabled() && LiveIndex(d.live, name) == |d.live| {
      forall j | 0 <= j < |d.live| ensures !EqualFold(d.live[j].conf.name, d.disk[i].name) {
        FoldsThrough(d.disk[i].name, name, d.live[j].conf.name);
      }
      StartOneIsGood(d, d.disk[i], start);
    }
  }

  lemma StopNamedIsRunning(d: Daemon, name: string)
    requires Running(d)
    ensures Running(StopNamed(d, name)) && StopNamed(d, name).disk == d.disk
  {
    hide Running, StopAt;
    var k := LiveIndex(d.live, name);
    if k < |d.live| {
      StopAtIsRunning(d, k);
      StopAtKeepsDisk(d, k);
    }
  }

  lemma StopAtKeepsDisk(d: Daemon, k: nat)
    requires k < |d.live|
    ensures StopAt(d, k).disk == d.disk
  {
  }

  // ---- a request, when names are unique ----

  // A write is exact then, so a request is at most one write, one stop and one sync.
  ghost function Written(d: Daemon, q: Request, env: Env): Daemon {
    d.(disk := Serve(d.disk, q, env))
  }

  ghost predicate StopsOne(d: Daemon, q: Request) {
    (q.Reset? || q.Remove?) && IndexByName(d.disk, q.tailnet) < |d.disk|
    && d.disk[IndexByName(d.disk, q.tailnet)].locked == []
  }

  ghost function AfterStop(d: Daemon, q: Request, env: Env): Daemon {
    if StopsOne(d, q) then StopNamed(Written(d, q, env), d.disk[IndexByName(d.disk, q.tailnet)].name)
    else Written(d, q, env)
  }

  lemma PutIsExact(d: Daemon, next: seq<TailnetConf>)
    requires UniqueNames(d.disk) && Put(d, next).Some?
    ensures Put(d, next).value == next
  {
    hide Write, UniqueNames;
    FoldedUniqueIsUnique(d.disk);
    WriteLaws.UniqueWriteIsExact(d.disk, next);
  }

  lemma SyncToExact(d: Daemon, next: seq<TailnetConf>, starts: nat -> Start)
    requires Tracked(d)
    ensures SyncTo(d, next, starts, next) == SyncOf(d.(disk := next), starts).0
  {
    hide Tracked, SyncOf, Matches;
    OtherDisk(d, next);
    SyncMatches(d.(disk := next), starts);
  }

  lemma StopNamedAnyDisk(d: Daemon, name: string, disk: seq<TailnetConf>)
    ensures StopNamed(d, name).(disk := disk) == StopNamed(d.(disk := disk), name)
    ensures StopNamed(d, name).disk == d.disk
  {
    hide Dropped, EqualFold;
  }

  lemma StopNamedTracks(d: Daemon, name: string)
    requires Tracked(d)
    ensures Tracked(StopNamed(d, name))
  {
    hide Tracked, StopAt, EqualFold;
    var k := LiveIndex(d.live, name);
    if k < |d.live| { StopAtTracks(d, k); }
  }

  // Under unique names the first write of a removal goes through, and so does the second.
  lemma SwitchOffIs(d: Daemon, i: nat)
    requires UniqueNames(d.disk) && i < |d.disk| && d.disk[i].locked == []
    ensures var hand := d.disk[i := Revoked(d.disk[i])];
      && SwitchOff(d, i) == Some(StopNamed(d.(disk := hand), d.disk[i].name))
      && Write(hand, hand, RemoveNamed(hand, d.disk[i].name)) == Some(RemoveNamed(hand, d.disk[i].name))
  {
    hide Write, UniqueNames, Revoked, StopNamed, RemoveNamed, ConfigWrite.NamesUnique;
    var hand := d.disk[i := Revoked(d.disk[i])];
    FoldedUniqueIsUnique(d.disk);
    RevokeIsWritten(d.disk, i);
    SecondWrite(d.disk, i, hand);
    RevokedName(d.disk[i]);
    EditedNames(d.disk, i, Revoked(d.disk[i]));
    Writes.SameNamesUnique(d.disk, hand);
    WriteLaws.UniqueWriteIsExact(hand, RemoveNamed(hand, d.disk[i].name));
  }

  lemma HandleIsThreeSteps(d: Daemon, q: Request, env: Env, starts: nat -> Start, reached: bool)
    requires Tracked(d) && UniqueNames(d.disk)
    ensures var r := ServeOf(d, q, env, starts, reached);
      || r == d
      || r == AfterStop(d, q, env)
      || r == SyncOf(AfterStop(d, q, env), starts).0
  {
    hide Tracked, UniqueNames, SyncOf, SyncTo, StopNamed, SwitchOff, Write, Put, EditOf, Revoked,
         Ranges.CheckCIDR, RemoveNamed;
    match q {
      case Update(_, _, _) =>
        var next := Serve(d.disk, q, env);
        if Put(d, next).Some? {
          PutIsExact(d, next);
          SyncToExact(d, next, starts);
        }
      case Add(_) =>
      case Reset(name) => if StopsOne(d, q) { StopIsThreeSteps(d, q, starts); } else { NoSwitchOff(d, name); }
      case Remove(name, _) => if StopsOne(d, q) { StopIsThreeSteps(d, q, starts); } else { NoSwitchOff(d, name); }
    }
  }

  lemma NoSwitchOff(d: Daemon, name: string)
    requires var i := IndexByName(d.disk, name); i == |d.disk| || d.disk[i].locked != []
    ensures var i := IndexByName(d.disk, name); i == |d.disk| || SwitchOff(d, i).None?
  {
    hide Write, StopNamed, Revoked;
  }

  lemma StopIsThreeSteps(d: Daemon, q: Request, starts: nat -> Start)
    requires Tracked(d) && UniqueNames(d.disk) && StopsOne(d, q)
    ensures var i := IndexByName(d.disk, q.tailnet);
      var hand := d.disk[i := Revoked(d.disk[i])];
      var off, next := StopNamed(d.(disk := hand), d.disk[i].name), RemoveNamed(hand, d.disk[i].name);
      && SwitchOff(d, i) == Some(off) && off.disk == hand
      && SyncTo(off, hand, starts, hand) == SyncOf(off, starts).0
      && Write(hand, hand, next) == Some(next)
      && SyncTo(off, next, starts, next) == SyncOf(StopNamed(d.(disk := next), d.disk[i].name), starts).0
  {
    hide Tracked, UniqueNames, SyncOf, SyncTo, StopNamed, SwitchOff, Write, Revoked, RemoveNamed;
    var i := IndexByName(d.disk, q.tailnet);
    var hand := d.disk[i := Revoked(d.disk[i])];
    var name := d.disk[i].name;
    var off, next := StopNamed(d.(disk := hand), name), RemoveNamed(hand, name);
    SwitchOffIs(d, i);
    StopNamedAnyDisk(d.(disk := hand), name, next);
    OtherDisk(d, hand);
    StopNamedTracks(d.(disk := hand), name);
    SyncToExact(off, hand, starts);
    SyncToExact(off, next, starts);
    assert off.(disk := hand) == off;
  }

  lemma AfterStopIsSound(d: Daemon, q: Request, env: Env)
    requires Good(d)
    ensures Running(AfterStop(d, q, env)) && ConfigOk(AfterStop(d, q, env).disk)
  {
    hide Tracked, Valid, ConfigOk, FromDisk, Serve, StopNamed;
    ServeKeepsConfigOk(d.disk, q, env);
    OtherDisk(d, Serve(d.disk, q, env));
    if StopsOne(d, q) {
      StopNamedIsRunning(Written(d, q, env), d.disk[IndexByName(d.disk, q.tailnet)].name);
    }
  }

  lemma HandleIsGood(d: Daemon, q: Request, env: Env, starts: nat -> Start, reached: bool)
    requires Good(d)
    ensures Good(ServeOf(d, q, env, starts, reached))
  {
    hide Tracked, Valid, UniqueNames, RangesDisjoint, SyncOf, FromDisk, AfterStop, ServeOf, Agrees;
    GoodAgrees(d);
    HandleIsThreeSteps(d, q, env, starts, reached);
    AfterStopIsSound(d, q, env);
    SyncIsGood(AfterStop(d, q, env), starts);
    HandleAgrees(d, q, env, starts, reached);
    AgreesIsFromDisk(ServeOf(d, q, env, starts, reached));
  }

  // The entry of an add is free when it is appended: its name new, its range beside every other.
  ghost predicate Free(disk: seq<TailnetConf>, conf: TailnetConf) {
    IndexByName(disk, conf.name) == |disk| && forall i :: 0 <= i < |disk| ==> Beside(disk[i], conf)
  }

  // An append leaves a sound daemon sound exactly when the entry is still free at that moment, or has the
  // exact name of another: the patcher cannot write a second entry of one name, so nothing happens then.
  lemma AppendIsGoodIff(d: Daemon, conf: TailnetConf, starts: nat -> Start)
    requires Good(d)
    ensures Good(AppendOf(d, conf, starts)) <==> Free(d.disk, Fresh(conf)) || Has(d.disk, conf.name)
    ensures Has(d.disk, conf.name) ==> AppendOf(d, conf, starts) == d
    ensures !Has(d.disk, conf.name) ==>
              AppendOf(d, conf, starts) == SyncOf(d.(disk := d.disk + [Fresh(conf)]), starts).0
  {
    hide Tracked, Valid, UniqueNames, RangesDisjoint, SyncOf, SyncTo, FromDisk, Beside, Agrees, Write, Has;
    var next := d.disk + [Fresh(conf)];
    GoodAgrees(d);
    OtherDisk(d, next);
    AppendKeepsConfigOkIff(d.disk, Fresh(conf));
    SyncMatches(d.(disk := next), starts);
    FoldedUniqueIsUnique(d.disk);
    AppendIsWritten(d.disk, Fresh(conf));
    SyncToExact(d, next, starts);
    if Free(d.disk, Fresh(conf)) { SyncIsGood(d.(disk := next), starts); }
  }

  lemma TouchIsGood(d: Daemon, op: RegistrySpec.Op)
    requires Good(d) && !op.AddOp? && !op.RemoveOp?
    ensures Good(d.(reg := Apply(d.reg, op)))
  {
    hide ConfigOk, Valid, Tracked, Apply;
    TouchKeepsTailnets(d.reg, op);
    SameTailnetsTrack(d, Apply(d.reg, op));
    ApplyKeepsValid(d.reg, op);
  }

  // Any append in this step finds its entry still free, or its exact name taken.
  ghost predicate Unraced(d: Daemon, op: LifecycleSpec.Op) {
    op.Append? ==> Free(d.disk, Fresh(op.conf)) || Has(d.disk, op.conf.name)
  }

  // Whatever happens next but a raced append, file, running set, registry and guard are sound again.
  lemma StepIsGood(d: Daemon, op: LifecycleSpec.Op)
    requires Good(d) && Unraced(d, op)
    ensures Good(Step(d, op))
  {
    hide Running, ConfigOk, FromDisk, SyncOf, ServeOf, RestartOf, RetryOf, AppendOf, Apply, Free;
    match op {
      case Reload(starts) => SyncIsGood(d, starts);
      case Handle(q, env, starts, reached) => HandleIsGood(d, q, env, starts, reached);
      case Append(conf, starts) => AppendIsGoodIff(d, conf, starts);
      case Restart(name, start) => RestartIsGood(d, name, start);
      case Retry(name, start) => RetryIsGood(d, name, start);
      case Touch(op) => if !op.AddOp? && !op.RemoveOp? { TouchIsGood(d, op); }
      case Boot(starts) =>
        NothingRuns(d);
        SyncIsGood(d.(live := [], reg := EMPTY), starts);
    }
  }

  ghost predicate UnracedRun(d: Daemon, run: seq<LifecycleSpec.Op>) {
    run == [] ||
    (var init, last := run[..|run| - 1], run[|run| - 1]; UnracedRun(d, init) && Unraced(Steps(d, init), last))
  }

  lemma {:induction false} StepsAreGood(d: Daemon, run: seq<LifecycleSpec.Op>)
    requires Good(d) && UnracedRun(d, run)
    ensures Good(Steps(d, run))
  {
    hide Good, Step, Unraced;
    if run != [] {
      StepsAreGood(d, run[..|run| - 1]);
      StepIsGood(Steps(d, run[..|run| - 1]), run[|run| - 1]);
    }
  }

  // From a fresh daemon over any sound file.
  lemma EveryReachableDaemonIsGood(file: seq<TailnetConf>, run: seq<LifecycleSpec.Op>)
    requires ConfigOk(file) && UnracedRun(Daemon([], EMPTY, file, 0), run)
    ensures Good(Steps(Daemon([], EMPTY, file, 0), run))
  {
    hide ConfigOk, Steps, UnracedRun;
    StepsAreGood(Daemon([], EMPTY, file, 0), run);
  }

  // What is added to the agreement: the guard holds exactly the ranges of the live tailnets, and every
  // address is stored once, for one name, inside the range of one of them.
  lemma SoundMeans(d: Daemon)
    requires Good(d)
    ensures |d.reg.cidrs| == |d.live|
    ensures forall i :: 0 <= i < |d.live| ==> ParseCIDR(d.live[i].conf.cidr) == Some(d.reg.cidrs[i])
    ensures Inverse(d.reg.byName, d.reg.byIP)
    ensures forall ip :: ip in d.reg.byIP ==>
              exists i :: 0 <= i < |d.live| && d.reg.cidrs[i].ones <= 32 && Contains(d.reg.cidrs[i], ip)
  {
    hide Inverse, ParseCIDR, ConfigOk, Contains;
    forall ip | ip in d.reg.byIP
      ensures exists i :: 0 <= i < |d.live| && d.reg.cidrs[i].ones <= 32 && Contains(d.reg.cidrs[i], ip)
    {
      assert HasOwner(d.reg.entries, ip);
      var i :| 0 <= i < |d.reg.entries| && d.reg.entries[i].ipnet.ones <= 32 && Owns(d.reg.entries[i], ip);
      ContainsIsInterval(d.reg.entries[i].ipnet, ip);
      assert d.reg.cidrs[i] == d.reg.entries[i].ipnet;
    }
  }
}
