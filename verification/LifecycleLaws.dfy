/** What the reconciler guarantees: the running set, the registry and the file agree after every operation. */
module LifecycleLaws {
  import opened Text
  import opened Cidr
  import opened Config
  import opened RegistrySpec
  import opened Requests
  import opened LifecycleSpec

  // ---- registry steps ----

  // Same tailnets and ranges, in the same order.
  ghost predicate SameTailnets(a: seq<Matching.Entry>, b: seq<Matching.Entry>) {
    |a| == |b| && forall i :: 0 <= i < |a| ==> a[i].name == b[i].name && a[i].ipnet == b[i].ipnet
  }

  lemma TouchKeepsTailnets(reg: State, op: RegistrySpec.Op)
    requires !op.AddOp? && !op.RemoveOp?
    ensures SameTailnets(Apply(reg, op).entries, reg.entries)
  {
    hide Take;
    if op.SeedOp? { SeedKeepsTailnets(reg, op.tailnet, op.fqdns); }
  }

  lemma {:induction false} SeedKeepsTailnets(reg: State, t: string, fs: seq<string>)
    ensures SameTailnets(SeedOf(reg, t, fs).entries, reg.entries)
  {
    hide Take;
    if fs != [] { SeedKeepsTailnets(reg, t, fs[..|fs| - 1]); }
  }

  lemma RegisteredKeepsTailnets(reg: State, conf: TailnetConf)
    ensures SameTailnets(Registered(reg, conf).entries, reg.entries)
  {
    hide DomainOf, SuffixOf;
    var suffixed := SuffixOf(reg, conf.name, Normal(conf.suffix));
    TouchKeepsTailnets(reg, SuffixOp(conf.name, Normal(conf.suffix)));
    TouchKeepsTailnets(suffixed, DomainOp(conf.name, conf.DomainName()));
    assert Apply(reg, SuffixOp(conf.name, Normal(conf.suffix))) == suffixed;
    assert Apply(suffixed, DomainOp(conf.name, conf.DomainName()))
        == DomainOf(suffixed, conf.name, conf.DomainName());
  }

  // Dropping the k-th tailnet drops its entry and no other.
  lemma DroppedEntries(reg: State, tailnet: string, k: nat)
    requires Sane(reg) && k < |reg.entries| && reg.entries[k].name == Lower(tailnet)
    requires forall i, j :: 0 <= i < j < |reg.entries| ==> reg.entries[i].name != reg.entries[j].name
    ensures Dropped(reg, tailnet).entries == reg.entries[..k] + reg.entries[k + 1..]
    ensures Sane(Dropped(reg, tailnet))
  {
    hide Lower;
    WithoutAt(reg.entries, Lower(tailnet), k);
    var es := reg.entries[..k] + reg.entries[k + 1..];
    assert forall j :: 0 <= j < |es| ==> es[j] == reg.entries[if j < k then j else j + 1];
  }

  // ---- stops and starts ----

  lemma NameAt(d: Daemon, k: nat)
    requires Tracked(d) && k < |d.live|
    ensures k < |d.reg.entries| && d.reg.entries[k].name == Lower(d.live[k].conf.name)
    ensures ParseCIDR(d.live[k].conf.cidr) == Some(d.reg.entries[k].ipnet)
  {
    hide Lower, ParseCIDR;
  }

  lemma StopAtTracks(d: Daemon, k: nat)
    requires Tracked(d) && k < |d.live|
    ensures Tracked(StopAt(d, k))
  {
    hide Dropped, Mirrors, Sane;
    NameAt(d, k);
    DroppedEntries(d.reg, d.live[k].conf.name, k);
    var d' := StopAt(d, k);
    assert forall j :: 0 <= j < |d'.live| ==> d'.live[j] == d.live[if j < k then j else j + 1];
    assert forall j :: 0 <= j < |d'.live| ==> d'.reg.entries[j] == d.reg.entries[if j < k then j else j + 1];
  }

  // Two running tailnets never share a name.
  lemma LiveNamesDiffer(d: Daemon, i: nat, j: nat)
    requires Tracked(d) && i < j < |d.live|
    ensures !EqualFold(d.live[i].conf.name, d.live[j].conf.name)
  {
    hide Lower, ParseCIDR;
    NameAt(d, i);
    NameAt(d, j);
  }

  lemma SaneByTailnets(a: State, b: State)
    requires Sane(b) && SameTailnets(a.entries, b.entries)
    ensures Sane(a)
  {
    forall e | e in a.entries ensures e.ipnet.ones <= 32 {
      var i :| 0 <= i < |a.entries| && a.entries[i] == e;
      assert b.entries[i] in b.entries;
    }
  }

  lemma SameTailnetsTrack(d: Daemon, reg: State)
    requires Tracked(d) && SameTailnets(reg.entries, d.reg.entries)
    ensures Tracked(d.(reg := reg))
  {
    hide Sane, Lower, ParseCIDR;
    SaneByTailnets(reg, d.reg);
  }

  lemma SwappedKeepsTailnets(reg: State, was: TailnetConf, tc: TailnetConf)
    ensures SameTailnets(Swapped(reg, was, tc).entries, reg.entries)
  {
    hide DomainOf;
    TouchKeepsTailnets(reg, DomainOp(tc.name, tc.DomainName()));
    assert Apply(reg, DomainOp(tc.name, tc.DomainName())) == DomainOf(reg, tc.name, tc.DomainName());
  }

  lemma SwapAtTracks(d: Daemon, k: nat, tc: TailnetConf)
    requires Tracked(d) && k < |d.live|
    requires EqualFold(d.live[k].conf.name, tc.name) && d.live[k].conf.cidr == tc.cidr
    ensures Tracked(SwapAt(d, k, tc))
  {
    hide Sane, Swapped, ParseCIDR;
    NameAt(d, k);
    SwappedKeepsTailnets(d.reg, d.live[k].conf, tc);
    SameTailnetsTrack(d, Swapped(d.reg, d.live[k].conf, tc));
  }

  // An add appends one entry, under a new name.
  lemma AddAppends(reg: State, tc: TailnetConf)
    requires Sane(reg) && AddOf(reg, tc).Some?
    ensures var reg' := AddOf(reg, tc).value;
      && Sane(reg') && |reg'.entries| == |reg.entries| + 1 && reg'.entries[..|reg.entries|] == reg.entries
      && reg'.entries[|reg.entries|].name == Lower(tc.name)
      && ParseCIDR(tc.cidr) == Some(reg'.entries[|reg.entries|].ipnet)
      && forall j :: 0 <= j < |reg.entries| ==> reg.entries[j].name != Lower(tc.name)
  {
    hide Lower, ParseCIDR, NewAllocator, Size;
    ParsedIsWf(tc.cidr);
  }

  lemma StartOneTracks(d: Daemon, tc: TailnetConf, start: Start)
    requires Tracked(d)
    ensures var (r, ok) := StartOne(d, tc, start);
      && Tracked(r) && r.disk == d.disk
      && r.live == (if ok then d.live + [Node(d.nextId, tc)] else d.live)
      && r.nextId == (if ok then d.nextId + 1 else d.nextId)
  {
    hide Sane, AddOf, Dropped, Registered, ParseCIDR, Lower;
    if AddOf(d.reg, tc).Some? {
      var reg := AddOf(d.reg, tc).value;
      AddAppends(d.reg, tc);
      var n := |d.live|;
      assert forall i :: 0 <= i < n ==> reg.entries[i] == d.reg.entries[i];
      if start.Started? {
        RegisteredKeepsTailnets(reg, tc);
        SaneByTailnets(Registered(reg, tc), reg);
        AppendedTracks(d, tc, Registered(reg, tc), reg);
      } else {
        DroppedEntries(reg, tc.name, n);
        assert reg.entries[..n] + reg.entries[n + 1..] == d.reg.entries;
      }
    }
  }

  lemma AppendedTracks(d: Daemon, tc: TailnetConf, reg: State, added: State)
    requires Tracked(d) && Sane(reg) && SameTailnets(reg.entries, added.entries)
    requires |added.entries| == |d.live| + 1 && added.entries[..|d.live|] == d.reg.entries
    requires added.entries[|d.live|].name == Lower(tc.name)
    requires ParseCIDR(tc.cidr) == Some(added.entries[|d.live|].ipnet)
    requires forall j :: 0 <= j < |d.live| ==> d.reg.entries[j].name != Lower(tc.name)
    ensures Tracked(d.(live := d.live + [Node(d.nextId, tc)], reg := reg, nextId := d.nextId + 1))
  {
    hide Sane, Lower, ParseCIDR;
    assert forall i :: 0 <= i < |d.live| ==> added.entries[i] == d.reg.entries[i];
  }

  // ---- the stop pass ----

  lemma {:induction false} WantIsOnDisk(disk: seq<TailnetConf>, name: string)
    ensures WantOf(disk, name).Some?
      ==> WantOf(disk, name).value in disk && EqualFold(WantOf(disk, name).value.name, name)
    ensures WantOf(disk, name).None? ==> forall tc :: tc in disk ==> !EqualFold(tc.name, name)
  {
    if disk != [] {
      WantIsOnDisk(disk[..|disk| - 1], name);
      assert disk == disk[..|disk| - 1] + [disk[|disk| - 1]];
    }
  }

  lemma SoleEntry(disk: seq<TailnetConf>, a: TailnetConf, b: TailnetConf)
    requires UniqueNames(disk) && a in disk && b in disk && EqualFold(a.name, b.name)
    ensures a == b
  {
    var i :| 0 <= i < |disk| && disk[i] == a;
    var j :| 0 <= j < |disk| && disk[j] == b;
  }

  lemma WantIs(disk: seq<TailnetConf>, tc: TailnetConf, name: string)
    requires UniqueNames(disk) && tc in disk && EqualFold(tc.name, name)
    ensures WantOf(disk, name) == Some(tc)
  {
    hide UniqueNames;
    WantIsOnDisk(disk, name);
    SoleEntry(disk, tc, WantOf(disk, name).value);
  }

  // The instance under its new settings.
  function Renewed(node: Node, disk: seq<TailnetConf>): Node {
    var want := WantOf(disk, node.conf.name);
    if want.Some? then node.(conf := want.value) else node
  }

  function Kept(nodes: seq<Node>, disk: seq<TailnetConf>): seq<Node> {
    if nodes == [] then []
    else if Keeps(nodes[0], disk) then [Renewed(nodes[0], disk)] + Kept(nodes[1..], disk)
    else Kept(nodes[1..], disk)
  }

  lemma KeepsShape(node: Node, disk: seq<TailnetConf>)
    requires Keeps(node, disk)
    ensures var want := WantOf(disk, node.conf.name);
      want.Some? && want.value in disk && want.value.Enabled() && EqualFold(node.conf.name, want.value.name)
      && want.value.cidr == node.conf.cidr
  {
    WantIsOnDisk(disk, node.conf.name);
  }

  // The pass leaves exactly the kept nodes, in order, with their new settings.
  lemma {:induction false} StopPassTracks(d: Daemon, k: nat)
    requires Tracked(d) && k <= |d.live|
    ensures var r := StopPass(d, k);
      Tracked(r) && r.disk == d.disk && r.nextId == d.nextId && r.live == d.live[..k] + Kept(d.live[k..], d.disk)
    decreases |d.live| - k
  {
    hide Tracked, Dropped, Swapped, Keeps;
    if k < |d.live| {
      var node := d.live[k];
      assert d.live[k..][1..] == d.live[k + 1..];
      if Keeps(node, d.disk) {
        KeepsShape(node, d.disk);
        var tc := WantOf(d.disk, node.conf.name).value;
        SwapAtTracks(d, k, tc);
        var s := SwapAt(d, k, tc);
        StopPassTracks(s, k + 1);
        assert s.live[k + 1..] == d.live[k + 1..];
        assert s.live[..k + 1] == d.live[..k] + [Node(node.id, tc)];
        assert d.live[..k] + [Node(node.id, tc)] + Kept(d.live[k + 1..], d.disk)
            == d.live[..k] + ([Node(node.id, tc)] + Kept(d.live[k + 1..], d.disk));
      } else {
        StopAtTracks(d, k);
        var s := StopAt(d, k);
        StopPassTracks(s, k);
        assert s.live[k..] == d.live[k + 1..];
        assert s.live[..k] == d.live[..k];
      }
    }
  }

  lemma {:induction false} KeptMembers(nodes: seq<Node>, disk: seq<TailnetConf>)
    ensures forall n :: n in Kept(nodes, disk) ==> n.conf in disk && n.conf.Enabled()
    ensures forall n :: n in Kept(nodes, disk) <==>
              exists was :: was in nodes && Keeps(was, disk) && n == Renewed(was, disk)
  {
    hide Keeps;
    if nodes != [] {
      KeptMembers(nodes[1..], disk);
      assert nodes == [nodes[0]] + nodes[1..];
      if Keeps(nodes[0], disk) { KeepsShape(nodes[0], disk); }
      assert nodes[0] in nodes;
    }
  }

  lemma StopPassMatches(d: Daemon)
    requires Tracked(d)
    ensures Matches(StopPass(d, 0)) && StopPass(d, 0).live == Kept(d.live, d.disk)
    ensures StopPass(d, 0).disk == d.disk && StopPass(d, 0).nextId == d.nextId
  {
    hide Tracked, StopPass, Keeps;
    StopPassTracks(d, 0);
    KeptMembers(d.live, d.disk);
    assert d.live[0..] == d.live && d.live[..0] == [];
    var r := StopPass(d, 0);
    forall i | 0 <= i < |r.live| ensures r.live[i].conf in r.disk && r.live[i].conf.Enabled() {
      assert r.live[i] in r.live;
    }
  }

  // ---- the start pass ----

  ghost predicate IsLive(d: Daemon, tc: TailnetConf) {
    exists j :: 0 <= j < |d.live| && d.live[j].conf == tc
  }

  // After the first n entries: the nodes that ran are still there; every new one runs one of those entries;
  // each of those entries that is on and was not running is live or reported, and not both.
  ghost predicate Passed(d: Daemon, n: nat, starts: nat -> Start, r: Daemon, failed: seq<string>)
    requires n <= |d.disk|
  {
    && r.disk == d.disk && d.nextId <= r.nextId
    && d.live <= r.live
    && (forall j :: |d.live| <= j < |r.live| ==> r.live[j].conf in d.disk[..n] && r.live[j].id >= d.nextId)
    && (forall i :: 0 <= i < n ==> (IsLive(r, d.disk[i]) <==> d.disk[i].Enabled() && d.disk[i].name !in failed))
    && (forall f :: f in failed ==> exists i :: 0 <= i < n && d.disk[i].name == f && d.disk[i].Enabled())
    && (forall i :: 0 <= i < n && d.disk[i].name in failed ==> !starts(i).Started? || ParseCIDR(d.disk[i].cidr).None?)
  }

  lemma NamesAreLive(d: Daemon, name: string)
    ensures Lower(name) in LiveNames(d.live) <==> exists j :: 0 <= j < |d.live| && EqualFold(d.live[j].conf.name, name)
  {
    hide Lower;
    if j :| 0 <= j < |d.live| && EqualFold(d.live[j].conf.name, name) {
      assert Lower(d.live[j].conf.name) in LiveNames(d.live);
    }
  }

  // An entry is live exactly when a live tailnet has its name.
  lemma LiveByName(d: Daemon, tc: TailnetConf)
    requires FromDisk(d) && UniqueNames(d.disk) && tc in d.disk
    ensures IsLive(d, tc) <==> Lower(tc.name) in LiveNames(d.live)
    ensures IsLive(d, tc) ==> tc.Enabled()
  {
    hide UniqueNames, LiveNames;
    NamesAreLive(d, tc.name);
    if j :| 0 <= j < |d.live| && EqualFold(d.live[j].conf.name, tc.name) {
      SoleEntry(d.disk, d.live[j].conf, tc);
      assert d.live[j].conf == tc;
    }
    if IsLive(d, tc) {
      var j :| 0 <= j < |d.live| && d.live[j].conf == tc;
      assert EqualFold(d.live[j].conf.name, tc.name);
    }
  }

  lemma StartFailsFor(d: Daemon, tc: TailnetConf, start: Start)
    requires Tracked(d) && forall j :: 0 <= j < |d.live| ==> !EqualFold(d.live[j].conf.name, tc.name)
    ensures StartOne(d, tc, start).1 <==> start.Started? && ParseCIDR(tc.cidr).Some?
  {
    hide ParseCIDR, Lower, Dropped, Registered;
    forall j | 0 <= j < |d.reg.entries| ensures d.reg.entries[j].name != Lower(tc.name) { NameAt(d, j); }
  }

  lemma NotYetLive(d: Daemon, n: nat, starts: nat -> Start, r: Daemon, failed: seq<string>)
    requires UniqueNames(d.disk) && n < |d.disk| && Passed(d, n, starts, r, failed)
    requires Lower(d.disk[n].name) !in LiveNames(d.live)
    ensures forall j :: 0 <= j < |r.live| ==> !EqualFold(r.live[j].conf.name, d.disk[n].name)
  {
    hide LiveNames, Lower, IsLive;
    NamesAreLive(d, d.disk[n].name);
    forall j | 0 <= j < |r.live| ensures !EqualFold(r.live[j].conf.name, d.disk[n].name) {
      if j < |d.live| {
        assert r.live[j] == d.live[j];
      } else {
        var i :| 0 <= i < n && d.disk[..n][i] == r.live[j].conf;
        assert !EqualFold(d.disk[i].name, d.disk[n].name);
      }
    }
  }

  lemma NotReportedYet(d: Daemon, n: nat, starts: nat -> Start, r: Daemon, failed: seq<string>)
    requires UniqueNames(d.disk) && n < |d.disk| && Passed(d, n, starts, r, failed)
    ensures d.disk[n].name !in failed
    ensures forall i :: 0 <= i < n ==> d.disk[i].name != d.disk[n].name && d.disk[i] != d.disk[n]
  {
    hide IsLive;
    forall i | 0 <= i < n ensures d.disk[i].name != d.disk[n].name {
      assert !EqualFold(d.disk[i].name, d.disk[n].name);
    }
  }

  lemma PassedBySkip(d: Daemon, n: nat, starts: nat -> Start, r: Daemon, failed: seq<string>)
    requires n < |d.disk| && Passed(d, n, starts, r, failed) && d.disk[n].name !in failed
    requires IsLive(r, d.disk[n]) <==> d.disk[n].Enabled()
    ensures Passed(d, n + 1, starts, r, failed)
  {
    hide IsLive;
    assert forall x :: x in d.disk[..n] ==> x in d.disk[..n + 1];
  }

  lemma LiveAfterAppend(r: Daemon, r': Daemon, node: Node, x: TailnetConf)
    requires r'.live == r.live + [node]
    ensures IsLive(r', x) <==> IsLive(r, x) || x == node.conf
  {
    if j :| 0 <= j < |r.live| && r.live[j].conf == x { assert r'.live[j].conf == x; }
    if j :| 0 <= j < |r'.live| && r'.live[j].conf == x { assert j < |r.live| ==> r.live[j].conf == x; }
    assert r'.live[|r.live|] == node;
  }

  lemma PassedBySuccess(d: Daemon, n: nat, starts: nat -> Start, r: Daemon, failed: seq<string>, r': Daemon)
    requires n < |d.disk| && Passed(d, n, starts, r, failed) && d.disk[n].name !in failed && d.disk[n].Enabled()
    requires forall i :: 0 <= i < n ==> d.disk[i] != d.disk[n]
    requires r'.disk == r.disk && r'.live == r.live + [Node(r.nextId, d.disk[n])] && r'.nextId == r.nextId + 1
    ensures Passed(d, n + 1, starts, r', failed)
  {
    hide ParseCIDR, IsLive;
    assert d.disk[..n + 1] == d.disk[..n] + [d.disk[n]];
    forall i | 0 <= i <= n ensures IsLive(r', d.disk[i]) <==> IsLive(r, d.disk[i]) || i == n {
      LiveAfterAppend(r, r', Node(r.nextId, d.disk[n]), d.disk[i]);
    }
  }

  lemma PassedByFailure(d: Daemon, n: nat, starts: nat -> Start, r: Daemon, failed: seq<string>, r': Daemon)
    requires n < |d.disk| && Passed(d, n, starts, r, failed) && d.disk[n].Enabled() && !IsLive(r, d.disk[n])
    requires forall i :: 0 <= i < n ==> d.disk[i].name != d.disk[n].name
    requires r'.disk == r.disk && r'.live == r.live && r'.nextId == r.nextId
    requires !starts(n).Started? || ParseCIDR(d.disk[n].cidr).None?
    ensures Passed(d, n + 1, starts, r', failed + [d.disk[n].name])
  {
    hide ParseCIDR, IsLive;
    assert d.disk[..n + 1] == d.disk[..n] + [d.disk[n]];
    forall i | 0 <= i <= n ensures IsLive(r', d.disk[i]) <==> IsLive(r, d.disk[i]) { SameLive(r, r', d.disk[i]); }
    assert d.disk[n].name in failed + [d.disk[n].name];
  }

  lemma SameLive(r: Daemon, r': Daemon, x: TailnetConf)
    requires r'.live == r.live
    ensures IsLive(r', x) <==> IsLive(r, x)
  {
  }

  // The start pass starts entries of the file only, whatever names they have.
  lemma {:induction false} StartPassMatches(d: Daemon, n: nat, names: set<string>, starts: nat -> Start)
    requires Matches(d) && n <= |d.disk|
    ensures Matches(StartPass(d, n, names, starts).0) && StartPass(d, n, names, starts).0.disk == d.disk
  {
    hide Tracked, StartOne;
    if n > 0 {
      StartPassMatches(d, n - 1, names, starts);
      var r := StartPass(d, n - 1, names, starts).0;
      StartOneTracks(r, d.disk[n - 1], starts(n - 1));
    }
  }

  lemma {:induction false} StartPassRuns(d: Daemon, n: nat, starts: nat -> Start)
    requires Matches(d) && UniqueNames(d.disk) && n <= |d.disk|
    ensures var (r, failed) := StartPass(d, n, LiveNames(d.live), starts);
      Matches(r) && Passed(d, n, starts, r, failed)
  {
    hide Matches, UniqueNames, IsLive, LiveNames, StartOne, Passed;
    StartPassMatches(d, n, LiveNames(d.live), starts);
    if n == 0 {
      assert Passed(d, 0, starts, d, []) by { NothingPassed(d, starts); }
    } else {
      StartPassRuns(d, n - 1, starts);
      var (r, failed) := StartPass(d, n - 1, LiveNames(d.live), starts);
      StartPassStep(d, n - 1, starts, r, failed);
    }
  }

  lemma NothingPassed(d: Daemon, starts: nat -> Start)
    ensures Passed(d, 0, starts, d, [])
  {
  }

  lemma StartPassStep(d: Daemon, n: nat, starts: nat -> Start, r: Daemon, failed: seq<string>)
    requires Matches(d) && UniqueNames(d.disk) && n < |d.disk| && Matches(r) && Passed(d, n, starts, r, failed)
    ensures var tc := d.disk[n];
      if !tc.Enabled() || Lower(tc.name) in LiveNames(d.live) then Passed(d, n + 1, starts, r, failed)
      else
        var (r', ok) := StartOne(r, tc, starts(n));
        Passed(d, n + 1, starts, r', if ok then failed else failed + [tc.name])
  {
    hide Tracked, UniqueNames, LiveNames, StartOne, Lower, EqualFold, Passed;
    var tc := d.disk[n];
    NotReportedYet(d, n, starts, r, failed);
    SameDisk(d, n, starts, r, failed);
    if !tc.Enabled() || Lower(tc.name) in LiveNames(d.live) {
      LiveByName(r, tc);
      LiveByName(d, tc);
      PassedBySkip(d, n, starts, r, failed);
    } else {
      NotYetLive(d, n, starts, r, failed);
      StartOneTracks(r, tc, starts(n));
      StartFailsFor(r, tc, starts(n));
      var (r', ok) := StartOne(r, tc, starts(n));
      FoldsToItself(tc.name);
      if ok { PassedBySuccess(d, n, starts, r, failed, r'); } else { PassedByFailure(d, n, starts, r, failed, r'); }
    }
  }

  lemma SameDisk(d: Daemon, n: nat, starts: nat -> Start, r: Daemon, failed: seq<string>)
    requires n <= |d.disk| && Passed(d, n, starts, r, failed)
    ensures r.disk == d.disk
    ensures forall tc :: IsLive(d, tc) ==> IsLive(r, tc)
  {
    forall tc | IsLive(d, tc) ensures IsLive(r, tc) {
      var j :| 0 <= j < |d.live| && d.live[j].conf == tc;
      assert r.live[j] == d.live[j];
    }
  }

  // ---- convergence ----

  // A sync restores the agreement with any file at all.
  lemma SyncMatches(d: Daemon, starts: nat -> Start)
    requires Tracked(d)
    ensures Matches(SyncOf(d, starts).0) && SyncOf(d, starts).0.disk == d.disk
  {
    hide Matches, Tracked, StopPass, StartPass, LiveNames;
    StopPassMatches(d);
    var s := StopPass(d, 0);
    StartPassMatches(s, |s.disk|, LiveNames(s.live), starts);
  }

  // A sync makes the running set the enabled entries, each with exactly its configured settings, minus those
  // it reports; and it reports only entries whose start failed or whose range does not parse.
  lemma SyncConverges(d: Daemon, starts: nat -> Start)
    requires Tracked(d) && UniqueNames(d.disk)
    ensures var (r, failed) := SyncOf(d, starts);
      && Matches(r) && r.disk == d.disk
      && (forall tc :: tc in d.disk ==> (IsLive(r, tc) <==> tc.Enabled() && tc.name !in failed))
      && (forall f :: f in failed ==> exists tc :: tc in d.disk && tc.name == f && tc.Enabled())
      && (forall i :: 0 <= i < |d.disk| && d.disk[i].name in failed
            ==> !starts(i).Started? || ParseCIDR(d.disk[i].cidr).None?)
  {
    hide Tracked, UniqueNames, IsLive, StopPass, StartPass, LiveNames, Matches, ParseCIDR;
    var s := StopPass(d, 0);
    StopPassMatches(d);
    StartPassRuns(s, |s.disk|, starts);
    var (r, failed) := SyncOf(d, starts);
    assert Passed(s, |s.disk|, starts, r, failed);
    forall tc | tc in d.disk ensures IsLive(r, tc) <==> tc.Enabled() && tc.name !in failed {
      var i :| 0 <= i < |s.disk| && s.disk[i] == tc;
    }
    forall f | f in failed ensures exists tc :: tc in d.disk && tc.name == f && tc.Enabled() {
      var i :| 0 <= i < |s.disk| && s.disk[i].name == f && s.disk[i].Enabled();
      assert s.disk[i] in d.disk;
    }
  }

  // A running instance survives a sync exactly when its entry is still there, on, and of the same shape; it
  // then runs under its new settings.
  lemma SyncKeepsInstances(d: Daemon, starts: nat -> Start, node: Node)
    requires Tracked(d) && UniqueNames(d.disk) && node in d.live
    ensures var (r, _) := SyncOf(d, starts);
      && ((exists n :: n in r.live && n.id == node.id) <==> Keeps(node, d.disk))
      && (Keeps(node, d.disk) ==> Renewed(node, d.disk) in r.live)
  {
    hide Tracked, UniqueNames, IsLive, StopPass, StartPass, LiveNames, Keeps, Passed, Kept, Matches;
    var s := StopPass(d, 0);
    StopPassMatches(d);
    StartPassRuns(s, |s.disk|, starts);
    var (r, failed) := SyncOf(d, starts);
    KeptById(d, node);
    KeptMembers(d.live, d.disk);
    forall n ensures n in s.live ==> n in r.live {
      if n in s.live { StartsKeepOld(s, |s.disk|, starts, r, failed, n); }
    }
    forall n ensures n in r.live && n.id == node.id ==> n in s.live {
      if n in r.live { StartsKeepOld(s, |s.disk|, starts, r, failed, n); }
    }
  }

  // The start pass keeps the old nodes, and new ones have new ids.
  lemma StartsKeepOld(d: Daemon, n: nat, starts: nat -> Start, r: Daemon, failed: seq<string>, node: Node)
    requires n <= |d.disk| && Passed(d, n, starts, r, failed)
    ensures node in d.live ==> node in r.live
    ensures node in r.live && node.id < d.nextId ==> node in d.live
  {
    hide IsLive;
    if node in d.live { InPrefix(d.live, r.live, node); }
    if node in r.live && node.id < d.nextId {
      var j :| 0 <= j < |r.live| && r.live[j] == node;
      assert j < |d.live| && d.live[j] == node;
    }
  }

  lemma KeptById(d: Daemon, node: Node)
    requires Tracked(d) && node in d.live
    ensures (exists n :: n in Kept(d.live, d.disk) && n.id == node.id) <==> Keeps(node, d.disk)
    ensures node.id < d.nextId
  {
    hide Keeps, Sane, Mirrors, Kept;
    KeptMembers(d.live, d.disk);
    var i :| 0 <= i < |d.live| && d.live[i] == node;
    if n :| n in Kept(d.live, d.disk) && n.id == node.id {
      var was :| was in d.live && Keeps(was, d.disk) && n == Renewed(was, d.disk);
      var k :| 0 <= k < |d.live| && d.live[k] == was;
      assert k == i;
    }
    if Keeps(node, d.disk) { assert Renewed(node, d.disk) in Kept(d.live, d.disk); }
  }

  lemma InPrefix<T>(a: seq<T>, b: seq<T>, x: T)
    requires a <= b && x in a
    ensures x in b
  {
  }

  // A second sync after an error-free one changes nothing: no stop, no start, no new instance.
  lemma SecondSyncIsIdle(d: Daemon, starts: nat -> Start, again: nat -> Start)
    requires Tracked(d) && UniqueNames(d.disk) && SyncOf(d, starts).1 == []
    ensures SyncOf(SyncOf(d, starts).0, again) == (SyncOf(d, starts).0, [])
  {
    hide Tracked, UniqueNames, IsLive, SyncOf, FromDisk;
    SyncConverges(d, starts);
    SettledSync(SyncOf(d, starts).0, again);
  }

  lemma SettledSync(d: Daemon, starts: nat -> Start)
    requires FromDisk(d) && UniqueNames(d.disk) && forall tc :: tc in d.disk && tc.Enabled() ==> IsLive(d, tc)
    ensures SyncOf(d, starts) == (d, [])
  {
    hide UniqueNames, StopPass, StartPass, LiveNames, Keeps, FromDisk;
    SettledStopPass(d, 0);
    SettledStartPass(d, |d.disk|, starts);
  }

  lemma {:induction false} SettledStopPass(d: Daemon, k: nat)
    requires FromDisk(d) && UniqueNames(d.disk) && k <= |d.live|
    ensures StopPass(d, k) == d
    decreases |d.live| - k
  {
    hide UniqueNames, Lower;
    if k < |d.live| {
      var conf := d.live[k].conf;
      FoldsToItself(conf.name);
      WantIs(d.disk, conf, conf.name);
      assert SwapAt(d, k, conf) == d;
      SettledStopPass(d, k + 1);
    }
  }

  lemma {:induction false} SettledStartPass(d: Daemon, n: nat, starts: nat -> Start)
    requires FromDisk(d) && UniqueNames(d.disk) && n <= |d.disk|
    requires forall tc :: tc in d.disk && tc.Enabled() ==> IsLive(d, tc)
    ensures StartPass(d, n, LiveNames(d.live), starts) == (d, [])
  {
    hide UniqueNames, IsLive, LiveNames, FromDisk, StartOne;
    if n > 0 {
      SettledStartPass(d, n - 1, starts);
      assert d.disk[n - 1] in d.disk;
      LiveByName(d, d.disk[n - 1]);
    }
  }
}
