/** The daemon object: the running set beside the shared registry, updated in place. */
module Lifecycle {
  import opened Text
  import opened Cidr
  import opened Config
  import opened RegistrySpec
  import opened LifecycleSpec
  import opened LifecycleLaws
  import opened LifecycleAgreement
  import Registry

  // The map by lower-case name holds what each name is wanted as.
  ghost predicate Indexes(want: map<string, TailnetConf>, file: seq<TailnetConf>) {
    forall name :: WantOf(file, name) == if Lower(name) in want then Some(want[Lower(name)]) else None
  }

  class Supervisor {
    var tailnets: seq<Node>
    const reg: Registry.Registry
    var file: seq<TailnetConf>
    var nextId: nat

    ghost function View(): Daemon
      reads this, reg
    {
      Daemon(tailnets, reg.View(), file, nextId)
    }

    constructor (shared: Registry.Registry, config: seq<TailnetConf>)
      requires shared.View() == EMPTY
      ensures reg == shared && View() == Daemon([], EMPTY, config, 0) && Tracked(View())
    {
      tailnets, reg, file, nextId := [], shared, config, 0;
    }

    // stopTailnet: the node leaves the list, then the registry. k says where it stands.
    method StopTailnet(tn: Node, ghost k: nat)
      requires Tracked(View()) && k < |tailnets| && tailnets[k] == tn
      modifies this`tailnets, reg
      ensures View() == StopAt(old(View()), k)
    {
      hide Sane, Mirrors, RemoveOf;
      ghost var before := View();
      IdIsOnce(before, k);
      var kept: seq<Node> := [];
      for i := 0 to |tailnets|
        invariant tailnets == old(tailnets) && reg.View() == old(reg.View())
        invariant kept == if i <= k then tailnets[..i] else tailnets[..k] + tailnets[k + 1..i]
      {
        if tailnets[i] != tn {
          kept := kept + [tailnets[i]];
        }
      }
      assert kept == tailnets[..k] + tailnets[k + 1..];
      tailnets := kept;
      SaneWhenRunning(before);
      reg.Remove(tn.conf.name);
    }

    // startOne.
    method StartOne(tc: TailnetConf, start: Start) returns (ok: bool)
      requires Tracked(View())
      modifies this`tailnets, this`nextId, reg
      ensures (View(), ok) == LifecycleSpec.StartOne(old(View()), tc, start)
    {
      hide Tracked, RemoveOf, AddOf, SuffixOf, DomainOf;
      ghost var before := reg.View();
      AddIsSane(View(), tc);
      var added := reg.Add(tc);
      if !added {
        return false;
      }
      if !start.Started? {
        reg.Remove(tc.name);
        return false;
      }
      var suffix := Normal(tc.suffix);
      if suffix != "" {
        reg.RegisterSuffix(tc.name, suffix);
      } else {
        NoSuffix(reg.View(), tc.name);
      }
      reg.RegisterDomain(tc.name, tc.DomainName());
      reg.RegisterResolver(tc.name);
      tailnets := tailnets + [Node(nextId, tc)];
      nextId := nextId + 1;
      ok := true;
    }

    method IndexWanted() returns (want: map<string, TailnetConf>)
      ensures Indexes(want, file)
    {
      hide Lower;
      want := map[];
      for i := 0 to |file|
        invariant forall name :: WantOf(file[..i], name)
                    == if Lower(name) in want then Some(want[Lower(name)]) else None
      {
        assert file[..i + 1][..i] == file[..i];
        want := want[Lower(file[i].name) := file[i]];
      }
      assert file[..|file|] == file;
    }

    // One node of the stop pass: stopped, or switched over to its new settings.
    method KeepOrStop(tn: Node, want: map<string, TailnetConf>, ghost k: nat)
      requires Tracked(View()) && k < |tailnets| && tailnets[k] == tn
      requires Indexes(want, file)
      modifies this`tailnets, reg
      ensures View()
        == if Keeps(tn, file) then SwapAt(old(View()), k, WantOf(file, tn.conf.name).value) else StopAt(old(View()), k)
      ensures Tracked(View())
    {
      hide Tracked, Lower, Dropped, DomainOf, SameShape;
      ghost var before := View();
      assert WantOf(file, tn.conf.name)
        == if Lower(tn.conf.name) in want then Some(want[Lower(tn.conf.name)]) else None;
      if Lower(tn.conf.name) !in want || !want[Lower(tn.conf.name)].Enabled()
        || !SameShape(tn.conf, want[Lower(tn.conf.name)]) {
        StopAtTracks(before, k);
        StopTailnet(tn, k);
      } else {
        var tc := want[Lower(tn.conf.name)];
        KeepsShape(tn, file);
        SwapAtTracks(before, k, tc);
        // the node changes in place, where the snapshot found it
        var at := Find(tn, k);
        if tn.conf.domain != tc.domain {
          reg.RegisterDomain(tc.name, tc.DomainName());
        }
        tailnets := tailnets[at := tn.(conf := tc)];
      }
    }

    // The first half of syncTailnets: over a snapshot of the running set, of which the part from k on is
    // still to be looked at.
    method RunStopPass(want: map<string, TailnetConf>)
      requires Tracked(View())
      requires Indexes(want, file)
      modifies this`tailnets, reg
      ensures View() == StopPass(old(View()), 0) && Tracked(View())
    {
      hide Tracked, Keeps, WantOf, Indexes, SwapAt, StopAt, StopPass;
      var snapshot := tailnets;
      ghost var k: nat := 0;
      for n := 0 to |snapshot|
        invariant k <= |tailnets| && tailnets[k..] == snapshot[n..]
        invariant Tracked(View()) && StopPass(View(), k) == StopPass(old(View()), 0)
        invariant file == old(file)
      {
        var tn := snapshot[n];
        assert tailnets[k] == tailnets[k..][0] == tn;
        ghost var before := View();
        KeepOrStop(tn, want, k);
        NextInLine(before, k);
        if Keeps(tn, before.disk) { k := k + 1; }
        assert snapshot[n..][1..] == snapshot[n + 1..];
      }
      assert |tailnets[k..]| == 0;
      PassEnds(View());
    }

    method Find(tn: Node, ghost k: nat) returns (i: nat)
      requires Tracked(View()) && k < |tailnets| && tailnets[k] == tn
      ensures i == k
    {
      hide Sane, Mirrors;
      IdIsOnce(View(), k);
      i := 0;
      while tailnets[i] != tn
        invariant i <= k
        decreases k - i
      {
        i := i + 1;
      }
    }

    // syncTailnets: makes the running set match the file. The result lists the entries that did not start.
    method SyncTailnets(starts: nat -> Start) returns (failed: seq<string>)
      requires Tracked(View())
      modifies this`tailnets, this`nextId, reg
      ensures (View(), failed) == SyncOf(old(View()), starts)
      ensures Matches(View()) && Agrees(View())
    {
      hide Tracked, StopPass, LifecycleSpec.StartOne, StartPass, Agrees, Matches, WantOf, Lower;
      var want := IndexWanted();
      StopPassMatches(View());
      RunStopPass(want);
      ghost var stopped := View();
      var names: set<string> := {};
      for i := 0 to |tailnets|
        invariant View() == stopped
        invariant names == LiveNames(tailnets[..i])
      {
        NamesStep(tailnets, i);
        names := names + {Lower(tailnets[i].conf.name)};
      }
      assert tailnets[..|tailnets|] == tailnets;
      failed := RunStartPass(names, starts);
      MatchesAgrees(View());
    }

    method RunStartPass(names: set<string>, starts: nat -> Start) returns (failed: seq<string>)
      requires Matches(View()) && names == LiveNames(tailnets)
      modifies this`tailnets, this`nextId, reg
      ensures (View(), failed) == StartPass(old(View()), |file|, names, starts)
      ensures Matches(View())
    {
      hide Tracked, LifecycleSpec.StartOne, LiveNames, Lower, Passed, FromDisk;
      failed := [];
      for i := 0 to |file|
        invariant file == old(file)
        invariant (View(), failed) == StartPass(old(View()), i, names, starts)
        invariant Matches(View())
      {
        var tc := file[i];
        StartPassMatches(old(View()), i + 1, names, starts);
        if tc.Enabled() && Lower(tc.name) !in names {
          var ok := StartOne(tc, starts(i));
          if !ok {
            failed := failed + [tc.name];
          }
        }
      }
    }

    method TailnetByName(name: string) returns (i: nat)
      ensures i == LiveIndex(tailnets, name)
    {
      hide EqualFold;
      i := 0;
      while i < |tailnets| && !EqualFold(tailnets[i].conf.name, name)
        invariant i <= |tailnets| && forall j :: 0 <= j < i ==> !EqualFold(tailnets[j].conf.name, name)
      {
        i := i + 1;
      }
    }

    // retryTailnet: done says there is nothing left to retry.
    method RetryTailnet(name: string, start: Start) returns (done: bool)
      requires Agrees(View())
      modifies this`tailnets, this`nextId, reg
      ensures (View(), done) == RetryOf(old(View()), name, start)
      ensures Agrees(View())
    {
      hide Tracked, LifecycleSpec.StartOne, EqualFold, FromDisk;
      RetryAgrees(View(), name, start);
      var i := IndexByName(file, name);
      var running := TailnetByName(name);
      if i == |file| || !file[i].Enabled() || running < |tailnets| {
        return true;
      }
      done := StartOne(file[i], start);
    }

    // restartTailnet: stop and start in place, under the settings in force.
    method RestartTailnet(name: string, start: Start) returns (ok: bool)
      requires Agrees(View())
      modifies this`tailnets, this`nextId, reg
      ensures (View(), ok) == RestartOf(old(View()), name, start)
      ensures Agrees(View())
    {
      hide Tracked, LifecycleSpec.StartOne, EqualFold, FromDisk, StopAt;
      RestartAgrees(View(), name, start);
      var k := TailnetByName(name);
      if k == |tailnets| {
        return false;
      }
      var tn := tailnets[k];
      StopAtTracks(View(), k);
      StopTailnet(tn, k);
      ok := StartOne(tn.conf, start);
    }
  }

  // What is left of the snapshot after one node.
  lemma NextInLine(d: Daemon, k: nat)
    requires k < |d.live|
    ensures Keeps(d.live[k], d.disk) ==>
              var r := SwapAt(d, k, WantOf(d.disk, d.live[k].conf.name).value);
              k < |r.live| && r.live[k + 1..] == d.live[k..][1..] && r.disk == d.disk
                && StopPass(r, k + 1) == StopPass(d, k)
    ensures !Keeps(d.live[k], d.disk) ==>
              var r := StopAt(d, k);
              k <= |r.live| && r.live[k..] == d.live[k..][1..] && r.disk == d.disk && StopPass(r, k) == StopPass(d, k)
  {
    hide Dropped, Swapped, WantOf;
  }

  lemma PassEnds(d: Daemon)
    ensures StopPass(d, |d.live|) == d
  {
  }

  lemma IdIsOnce(d: Daemon, k: nat)
    requires Tracked(d) && k < |d.live|
    ensures forall i :: 0 <= i < |d.live| && d.live[i] == d.live[k] ==> i == k
  {
    hide Sane, Mirrors;
  }

  lemma SaneWhenRunning(d: Daemon)
    requires Tracked(d)
    ensures Sane(d.reg)
  {
    hide Mirrors;
  }

  lemma AddIsSane(d: Daemon, tc: TailnetConf)
    requires Tracked(d)
    ensures AddOf(d.reg, tc).Some? ==> Sane(AddOf(d.reg, tc).value)
  {
    hide Tracked, ParseCIDR, IndexOf;
    SaneWhenRunning(d);
    ParsedIsWf(tc.cidr);
  }

  lemma NoSuffix(reg: State, name: string)
    ensures SuffixOf(reg, name, "") == reg
  {
  }

  lemma NamesStep(live: seq<Node>, i: nat)
    requires i < |live|
    ensures LiveNames(live[..i + 1]) == LiveNames(live[..i]) + {Lower(live[i].conf.name)}
  {
    hide Lower;
    var before, after := live[..i], live[..i + 1];
    assert after == before + [live[i]];
    assert forall j :: 0 <= j < i ==> after[j] == before[j];
    assert after[i] == live[i];
    forall x ensures x in LiveNames(after) <==> x in LiveNames(before) + {Lower(live[i].conf.name)} {
      if x in LiveNames(after) {
        var j :| 0 <= j < |after| && Lower(after[j].conf.name) == x;
        if j < i { assert Lower(before[j].conf.name) in LiveNames(before); }
      }
      if x in LiveNames(before) {
        var j :| 0 <= j < |before| && Lower(before[j].conf.name) == x;
        assert Lower(after[j].conf.name) in LiveNames(after);
      }
      assert Lower(after[i].conf.name) in LiveNames(after);
    }
  }
}
