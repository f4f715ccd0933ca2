/** After every operation the running set, the registry and the file agree, whatever the file says. */
module LifecycleAgreement {
  import opened Text
  import opened Cidr
  import opened Config
  import opened ConfigWrite
  import opened WriteLaws
  import opened Writes
  import opened RegistrySpec
  import opened Requests
  import opened LifecycleSpec
  import opened LifecycleLaws

  // ---- every operation keeps the agreement ----

  lemma StopAtIsFromDisk(d: Daemon, k: nat)
    requires FromDisk(d) && k < |d.live|
    ensures FromDisk(StopAt(d, k))
  {
    var d' := StopAt(d, k);
    assert forall j :: 0 <= j < |d'.live| ==> d'.live[j] == d.live[if j < k then j else j + 1];
  }

  lemma StopAtNames(d: Daemon, k: nat)
    requires Tracked(d) && k < |d.live|
    ensures var r := StopAt(d, k);
      forall j :: 0 <= j < |r.live| ==> !EqualFold(r.live[j].conf.name, d.live[k].conf.name)
  {
    hide Tracked, Dropped, EqualFold;
    var r := StopAt(d, k);
    forall j | 0 <= j < |r.live| ensures !EqualFold(r.live[j].conf.name, d.live[k].conf.name) {
      if j < k {
        LiveNamesDiffer(d, j, k);
      } else {
        LiveNamesDiffer(d, k, j + 1);
        FoldsBack(d.live[k].conf.name, r.live[j].conf.name);
      }
    }
  }

  lemma RecordOnFile(tc: TailnetConf, disk: seq<TailnetConf>)
    requires tc in disk
    ensures OnFile(tc, disk)
  {
  }

  lemma MatchesAgrees(d: Daemon)
    requires Matches(d)
    ensures Agrees(d)
  {
    hide Tracked, OnFile;
    forall i | 0 <= i < |d.live| ensures OnFile(d.live[i].conf, d.disk) { RecordOnFile(d.live[i].conf, d.disk); }
  }

  lemma StopAtAgrees(d: Daemon, k: nat)
    requires Agrees(d) && k < |d.live|
    ensures Agrees(StopAt(d, k))
  {
    hide Tracked, OnFile, Dropped;
    StopAtTracks(d, k);
    var d' := StopAt(d, k);
    assert forall j :: 0 <= j < |d'.live| ==> d'.live[j] == d.live[if j < k then j else j + 1];
  }

  lemma StartOneAgrees(d: Daemon, tc: TailnetConf, start: Start)
    requires Agrees(d) && OnFile(tc, d.disk) && tc.Enabled()
    ensures Agrees(StartOne(d, tc, start).0)
  {
    hide Tracked, StartOne, OnFile;
    StartOneTracks(d, tc, start);
  }

  lemma RestartAgrees(d: Daemon, name: string, start: Start)
    requires Agrees(d)
    ensures Agrees(RestartOf(d, name, start).0)
  {
    hide Tracked, StartOne, EqualFold, Dropped, OnFile;
    var k := LiveIndex(d.live, name);
    if k < |d.live| {
      StopAtAgrees(d, k);
      StartOneAgrees(StopAt(d, k), d.live[k].conf, start);
    }
  }

  lemma RetryAgrees(d: Daemon, name: string, start: Start)
    requires Agrees(d)
    ensures Agrees(RetryOf(d, name, start).0)
  {
    hide Agrees, StartOne, EqualFold, OnFile;
    var i := IndexByName(d.disk, name);
    if i < |d.disk| && d.disk[i].Enabled() {
      RecordOnFile(d.disk[i], d.disk);
      StartOneAgrees(d, d.disk[i], start);
    }
  }

  lemma OtherDisk(d: Daemon, disk: seq<TailnetConf>)
    requires Tracked(d)
    ensures Tracked(d.(disk := disk))
  {
    hide Sane, Mirrors;
  }

  // ---- what a write leaves of the records ----

  // A record that was to be written is on file: but for its key, and key and all if its name is there once.
  lemma WrittenOnFile(file: seq<TailnetConf>, prev: seq<TailnetConf>, next: seq<TailnetConf>, tc: TailnetConf)
    requires Write(file, prev, next).Some? && tc in next
    requires |Namesakes(next, tc.name)| == 1 ==>
               |Namesakes(file, tc.name)| <= 1 && Namesakes(prev, tc.name) == Namesakes(file, tc.name)
    ensures OnFile(tc, Write(file, prev, next).value)
  {
    hide Namesakes, Write, Keyless, NameSeq;
    var out := Write(file, prev, next).value;
    var k :| 0 <= k < |next| && next[k] == tc;
    WrittenAlike(file, prev, next);
    SameButKeysNames(out, next);
    SameNamedSameEntries(out, next, tc.name);
    assert out[k] in out && Keyless(out[k]) == Keyless(tc);
    if |Namesakes(out, tc.name)| == 1 { LoneEntryIsExact(file, prev, next, k); }
  }

  // The file a change starts from had the name at most once, if the change leaves it once.
  lemma OnceBefore(file: seq<TailnetConf>, next: seq<TailnetConf>, x: string)
    requires Write(file, file, next).Some? && |Namesakes(next, x)| == 1
    ensures |Namesakes(file, x)| <= 1
  {
    hide Write, Namesakes;
    NoneNamed(file, x);
    NoneNamed(next, x);
    if Has(file, x) { NamesakesStand(file, next, x); }
  }

  lemma SyncToAgrees(d: Daemon, next: seq<TailnetConf>, starts: nat -> Start, file: seq<TailnetConf>)
    requires Tracked(d) && forall tc :: tc in next ==> OnFile(tc, file)
    ensures Agrees(SyncTo(d, next, starts, file))
  {
    hide Tracked, SyncOf, OnFile;
    OtherDisk(d, next);
    SyncMatches(d.(disk := next), starts);
    OtherDisk(SyncOf(d.(disk := next), starts).0, file);
  }

  lemma PutAgrees(d: Daemon, next: seq<TailnetConf>, starts: nat -> Start)
    requires Tracked(d) && Put(d, next).Some?
    ensures Agrees(SyncTo(d, next, starts, Put(d, next).value))
  {
    hide Tracked, SyncTo, OnFile, Write, Namesakes, Agrees;
    forall tc | tc in next ensures OnFile(tc, Put(d, next).value) {
      if |Namesakes(next, tc.name)| == 1 { OnceBefore(d.disk, next, tc.name); }
      WrittenOnFile(d.disk, d.disk, next, tc);
    }
    SyncToAgrees(d, next, starts, Put(d, next).value);
  }

  // Switching an entry off leaves the records of all other names on file.
  lemma OthersOnFile(disk: seq<TailnetConf>, i: nat, tc: TailnetConf)
    requires i < |disk| && OnFile(tc, disk) && tc.name != disk[i].name
    requires Write(disk, disk, disk[i := Revoked(disk[i])]).Some?
    ensures OnFile(tc, Write(disk, disk, disk[i := Revoked(disk[i])]).value)
  {
    hide Namesakes, Write, Keyless, NameSeq, Revoked;
    var hand := disk[i := Revoked(disk[i])];
    var out := Write(disk, disk, hand).value;
    RevokedName(disk[i]);
    ReplacedNames(disk, i, Revoked(disk[i]), tc.name);
    var x :| x in disk && Keyless(x) == Keyless(tc);
    KeylessName(x, tc);
    var k :| 0 <= k < |disk| && disk[k] == x;
    WrittenAlike(disk, disk, hand);
    assert hand[k] == x && out[k] in out && Keyless(out[k]) == Keyless(tc);
    SameButKeysNames(out, hand);
    SameNamedSameEntries(out, hand, tc.name);
    if |Namesakes(out, tc.name)| == 1 {
      var m :| 0 <= m < |disk| && disk[m] == tc;
      assert hand[m] == tc;
      WrittenOnFile(disk, disk, hand, tc);
    }
  }

  lemma KeylessName(a: TailnetConf, b: TailnetConf)
    requires Keyless(a) == Keyless(b)
    ensures a.name == b.name && a.Enabled() == b.Enabled() && a.cidr == b.cidr
  {
    assert a == b.(authKey := a.authKey);
  }

  lemma SwitchOffAgrees(d: Daemon, i: nat)
    requires Agrees(d) && i < |d.disk| && SwitchOff(d, i).Some?
    ensures Agrees(SwitchOff(d, i).value)
    ensures SwitchOff(d, i).value.disk == Put(d, d.disk[i := Revoked(d.disk[i])]).value
  {
    hide Tracked, EqualFold, Dropped, OnFile, Write, Revoked;
    var name, file := d.disk[i].name, Put(d, d.disk[i := Revoked(d.disk[i])]).value;
    var off := d.(disk := file);
    OtherDisk(d, file);
    FoldsToItself(name);
    var k := LiveIndex(d.live, name);
    if k < |d.live| {
      StopAtTracks(off, k);
      StopAtNames(off, k);
    }
    var r := SwitchOff(d, i).value;
    forall j | 0 <= j < |r.live| ensures OnFile(r.live[j].conf, file) && r.live[j].conf.Enabled() {
      if k < |d.live| {
        assert r.live[j] == d.live[if j < k then j else j + 1];
        FoldsThrough(d.live[k].conf.name, name, r.live[j].conf.name);
      }
      OthersOnFile(d.disk, i, r.live[j].conf);
    }
  }

  lemma ResetAgrees(d: Daemon, name: string, starts: nat -> Start, reached: bool)
    requires Agrees(d)
    ensures Agrees(ResetTailnetOf(d, name, starts, reached))
  {
    hide Tracked, SwitchOff, SyncTo, Agrees, Revoked, Write, Namesakes, OnFile;
    var i := IndexByName(d.disk, name);
    if i < |d.disk| && SwitchOff(d, i).Some? {
      var off, hand := SwitchOff(d, i).value, d.disk[i := Revoked(d.disk[i])];
      SwitchOffAgrees(d, i);
      AgreesTracks(off);
      assert Put(d, hand).Some? by { SwitchOffWrites(d, i); }
      forall tc | tc in hand ensures OnFile(tc, off.disk) {
        if |Namesakes(hand, tc.name)| == 1 { OnceBefore(d.disk, hand, tc.name); }
        WrittenOnFile(d.disk, d.disk, hand, tc);
      }
      SyncToAgrees(off, hand, starts, off.disk);
    }
  }

  lemma AgreesTracks(d: Daemon)
    requires Agrees(d)
    ensures Tracked(d)
  {
  }

  lemma SwitchOffWrites(d: Daemon, i: nat)
    requires i < |d.disk| && SwitchOff(d, i).Some?
    ensures Put(d, d.disk[i := Revoked(d.disk[i])]).Some? && d.disk[i].locked == []
  {
    hide StopNamed, Revoked, Write;
  }

  lemma RemoveAgrees(d: Daemon, name: string, starts: nat -> Start, finished: bool)
    requires Agrees(d)
    ensures Agrees(RemoveTailnetOf(d, name, starts, finished))
  {
    hide Tracked, SwitchOff, SyncTo, Agrees, Revoked, Write, Namesakes, OnFile, RemoveNamed;
    var i := IndexByName(d.disk, name);
    if i < |d.disk| && SwitchOff(d, i).Some? {
      var off, hand := SwitchOff(d, i).value, d.disk[i := Revoked(d.disk[i])];
      var next := RemoveNamed(hand, d.disk[i].name);
      SwitchOffAgrees(d, i);
      AgreesTracks(off);
      SwitchOffWrites(d, i);
      if Write(off.disk, hand, next).Some? {
        forall tc | tc in next ensures OnFile(tc, Write(off.disk, hand, next).value) {
          LeftOnFile(d.disk, i, tc);
        }
        SyncToAgrees(off, next, starts, Write(off.disk, hand, next).value);
      }
    }
  }

  lemma LeftOnFile(disk: seq<TailnetConf>, i: nat, tc: TailnetConf)
    requires i < |disk| && Write(disk, disk, disk[i := Revoked(disk[i])]).Some?
    requires var hand := disk[i := Revoked(disk[i])];
      && Write(Write(disk, disk, hand).value, hand, RemoveNamed(hand, disk[i].name)).Some?
      && tc in RemoveNamed(hand, disk[i].name)
    ensures var hand := disk[i := Revoked(disk[i])];
      OnFile(tc, Write(Write(disk, disk, hand).value, hand, RemoveNamed(hand, disk[i].name)).value)
  {
    hide Revoked, Write, Namesakes, OnFile, RemoveNamed;
    var hand := disk[i := Revoked(disk[i])];
    var off, next := Write(disk, disk, hand).value, RemoveNamed(hand, disk[i].name);
    RemoveNamedMembers(hand, disk[i].name);
    OthersNamed(hand, disk[i].name, tc.name);
    if |Namesakes(next, tc.name)| == 1 {
      OnceBefore(disk, hand, tc.name);
      NoneNamed(hand, tc.name);
      LoneNameIsExact(disk, disk, hand, tc.name);
    }
    WrittenOnFile(off, hand, next, tc);
  }

  lemma HandleAgrees(d: Daemon, q: Request, env: Env, starts: nat -> Start, reached: bool)
    requires Agrees(d)
    ensures Agrees(ServeOf(d, q, env, starts, reached))
  {
    hide Agrees, SyncTo, ResetTailnetOf, RemoveTailnetOf, Put, Serve;
    AgreesTracks(d);
    match q {
      case Update(_, _, _) =>
        var next := Serve(d.disk, q, env);
        if Put(d, next).Some? { PutAgrees(d, next, starts); }
      case Add(_) =>
      case Reset(name) => ResetAgrees(d, name, starts, reached);
      case Remove(name, finished) => RemoveAgrees(d, name, starts, finished);
    }
  }

  lemma AppendAgrees(d: Daemon, conf: TailnetConf, starts: nat -> Start)
    requires Agrees(d)
    ensures Agrees(AppendOf(d, conf, starts))
  {
    hide Agrees, SyncTo, Put;
    AgreesTracks(d);
    var next := d.disk + [Fresh(conf)];
    if Put(d, next).Some? { PutAgrees(d, next, starts); }
  }

  lemma NothingRuns(d: Daemon)
    ensures Running(d.(live := [], reg := EMPTY))
  {
  }

  // Whatever happens next, with any file, the running set, the registry and the file agree again.
  lemma StepAgrees(d: Daemon, op: LifecycleSpec.Op)
    requires Agrees(d)
    ensures Agrees(Step(d, op))
  {
    hide Tracked, SyncOf, ServeOf, RestartOf, RetryOf, AppendOf, Apply, OnFile;
    match op {
      case Reload(starts) =>
        SyncMatches(d, starts);
        MatchesAgrees(SyncOf(d, starts).0);
      case Handle(q, env, starts, reached) => HandleAgrees(d, q, env, starts, reached);
      case Append(conf, starts) => AppendAgrees(d, conf, starts);
      case Restart(name, start) => RestartAgrees(d, name, start);
      case Retry(name, start) => RetryAgrees(d, name, start);
      case Touch(op) =>
        if !op.AddOp? && !op.RemoveOp? {
          TouchKeepsTailnets(d.reg, op);
          SameTailnetsTrack(d, Apply(d.reg, op));
        }
      case Boot(starts) =>
        NothingRuns(d);
        SyncMatches(d.(live := [], reg := EMPTY), starts);
        MatchesAgrees(SyncOf(d.(live := [], reg := EMPTY), starts).0);
    }
  }

  lemma {:induction false} StepsAgree(d: Daemon, run: seq<LifecycleSpec.Op>)
    requires Agrees(d)
    ensures Agrees(Steps(d, run))
  {
    hide Agrees, Step;
    if run != [] {
      StepsAgree(d, run[..|run| - 1]);
      StepAgrees(Steps(d, run[..|run| - 1]), run[|run| - 1]);
    }
  }

  // From a fresh daemon over any file, sound or not, racing adds included.
  lemma EveryReachableDaemonAgrees(file: seq<TailnetConf>, run: seq<LifecycleSpec.Op>)
    ensures Agrees(Steps(Daemon([], EMPTY, file, 0), run))
  {
    hide Steps;
    StepsAgree(Daemon([], EMPTY, file, 0), run);
  }

  // What the agreement means: live names differ ignoring case, the registry holds exactly the names and
  // ranges of the live tailnets, in order, and each live tailnet runs a record the file has, switched on; its
  // auth key may differ, but only while the file has that exact name twice.
  lemma AgreementMeans(d: Daemon, i: nat)
    requires Agrees(d) && i < |d.live|
    ensures |d.reg.entries| == |d.live|
    ensures d.reg.entries[i].name == Lower(d.live[i].conf.name)
    ensures ParseCIDR(d.live[i].conf.cidr) == Some(d.reg.entries[i].ipnet)
    ensures forall j :: 0 <= j < |d.live| && j != i ==> !EqualFold(d.live[j].conf.name, d.live[i].conf.name)
    ensures d.live[i].conf.Enabled()
    ensures exists k :: 0 <= k < |d.disk| && d.disk[k].name == d.live[i].conf.name
                        && d.disk[k].(authKey := d.live[i].conf.authKey) == d.live[i].conf
    ensures d.live[i].conf in d.disk
         || exists j, k :: 0 <= j < k < |d.disk| && d.disk[j].name == d.disk[k].name == d.live[i].conf.name
    ensures UniqueNames(d.disk) ==>
              IndexByName(d.disk, d.live[i].conf.name) < |d.disk|
              && d.disk[IndexByName(d.disk, d.live[i].conf.name)] == d.live[i].conf
  {
    hide Lower, ParseCIDR, UniqueNames, Namesakes, Keyless;
    NameAt(d, i);
    forall j | 0 <= j < |d.live| && j != i ensures !EqualFold(d.live[j].conf.name, d.live[i].conf.name) {
      if j < i { LiveNamesDiffer(d, j, i); } else { LiveNamesDiffer(d, i, j); }
    }
    var conf := d.live[i].conf;
    assert OnFile(conf, d.disk);
    var x :| x in d.disk && Keyless(x) == Keyless(conf);
    KeylessUpTo(x, conf);
    var m :| 0 <= m < |d.disk| && d.disk[m] == x;
    if conf !in d.disk { TwiceOrOnce(d.disk, m); }
    if UniqueNames(d.disk) {
      FoldedUniqueIsUnique(d.disk);
      SoleNamed(d.disk, m);
      FoldsToItself(conf.name);
      SoleEntry(d.disk, d.disk[IndexByName(d.disk, conf.name)], conf);
    }
  }

  lemma KeylessUpTo(x: TailnetConf, tc: TailnetConf)
    requires Keyless(x) == Keyless(tc)
    ensures x.name == tc.name && x.(authKey := tc.authKey) == tc
  {
    assert Keyless(x).(authKey := tc.authKey) == Keyless(tc).(authKey := tc.authKey);
    KeylessName(x, tc);
  }

  lemma TwiceOrOnce(disk: seq<TailnetConf>, m: nat)
    requires m < |disk|
    ensures |Namesakes(disk, disk[m].name)| == 1
         || exists j, k :: 0 <= j < k < |disk| && disk[j].name == disk[k].name == disk[m].name
  {
    hide Namesakes;
    var x := disk[m].name;
    AroundPlace(disk, m, disk[m], x);
    NoneNamed(disk[..m], x);
    NoneNamed(disk[m + 1..], x);
    if Has(disk[..m], x) {
      var j :| 0 <= j < m && disk[..m][j].name == x;
      assert disk[j].name == x;
    }
    if Has(disk[m + 1..], x) {
      var k :| 0 <= k < |disk[m + 1..]| && disk[m + 1..][k].name == x;
      assert disk[m + 1 + k].name == x;
    }
  }

  // ---- where the auth key is left behind ----

  function Started(i: nat): Start {
    Start.Started
  }

  function SetKey(a: TailnetConf, key: string): Edit {
    Plain(a.domain, a.hostname, a.cidr, a.tun, key, a.reportPosture, a.nativeDNS, a.domainHosts)
  }

  // Two entries of one name, the second switched off and holding another key: giving the first that key
  // starts it under the key, but writes nothing, and no entry of the file is what runs.
  lemma FileMayLag(a: TailnetConf, key: string, env: Env)
    requires a.Enabled() && a.authKey != key && ParseCIDR(a.cidr).Some?
    ensures var b := a.(enabledFlag := Some(false), authKey := key);
      var d := Step(Daemon([], EMPTY, [a, b], 0), Handle(Update(a.name, SetKey(a, key), None), env, Started, true));
      && d.disk == [a, b] && |d.live| == 1 && d.live[0].conf == a.(authKey := key)
      && d.live[0].conf !in d.disk && Agrees(d)
  {
    hide ParseCIDR, SyncOf, Agrees, Write, Serve;
    var b, c := a.(enabledFlag := Some(false), authKey := key), a.(authKey := key);
    var d := Daemon([], EMPTY, [a, b], 0);
    KeyedRecord(a, b, key, env);
    assert Write([a, b], [a, b], [c, b]) == Some([a, b]) by {
      TwinWrite(a, b, c);
      assert Rewritten(a, b, c) == a;
    }
    StartsFirst(c, b);
    MatchesNothing(d);
    StepAgrees(d, Handle(Update(a.name, SetKey(a, key), None), env, Started, true));
  }

  lemma KeyedRecord(a: TailnetConf, b: TailnetConf, key: string, env: Env)
    ensures Serve([a, b], Update(a.name, SetKey(a, key), None), env) == [a.(authKey := key), b]
  {
    FoldsToItself(a.name);
    assert [a, b][0 := a.(authKey := key)] == [a.(authKey := key), b];
  }

  lemma MatchesNothing(d: Daemon)
    requires d.live == [] && d.reg == EMPTY
    ensures Agrees(d)
  {
  }

  lemma StartsFirst(c: TailnetConf, b: TailnetConf)
    requires c.Enabled() && !b.Enabled() && ParseCIDR(c.cidr).Some?
    ensures SyncOf(Daemon([], EMPTY, [c, b], 0), Started).0.live == [Node(0, c)]
  {
    hide ParseCIDR, Registered, Dropped, Tracked, StartOne;
    var d := Daemon([], EMPTY, [c, b], 0);
    assert d.live[..0] == [];
    assert StopPass(d, 0) == d;
    NothingRuns(d);
    StartFailsFor(d, c, Start.Started);
    StartOneTracks(d, c, Start.Started);
    assert StartPass(d, 0, {}, Started) == (d, []);
    assert LiveNames(d.live) == {};
    assert StartPass(d, 1, {}, Started).0 == StartOne(d, c, Start.Started).0;
    assert StartPass(d, 2, {}, Started).0 == StartPass(d, 1, {}, Started).0;
  }
}
