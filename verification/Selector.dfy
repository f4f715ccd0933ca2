/** Resolving selections step by step, writing pins in place. */
module Selector {
  import opened Text
  import opened Config
  import opened Selection
  import SelectionLaws

  // The set filed under a name, empty when there is none.
  function TagsIn(out: map<string, set<string>>, name: string): set<string> {
    if name in out then out[name] else {}
  }

  function NamesAt(byVIP: map<string, seq<string>>, addr: string): seq<string> {
    if addr in byVIP then byVIP[addr] else []
  }

  ghost predicate DistinctNames(services: seq<Service>) {
    forall i, j :: 0 <= i < j < |services| ==> services[i].name != services[j].name
  }

  method FileUnderAddrs(byVIP: map<string, seq<string>>, addrs: seq<string>, name: string)
    returns (r: map<string, seq<string>>)
    ensures forall a, n :: n in NamesAt(r, a) <==> n in NamesAt(byVIP, a) || (n == name && a in addrs)
  {
    r := byVIP;
    for i := 0 to |addrs|
      invariant forall a, n :: n in NamesAt(r, a) <==> n in NamesAt(byVIP, a) || (n == name && a in addrs[..i])
    {
      r := r[addrs[i] := NamesAt(r, addrs[i]) + [name]];
      assert addrs[..i + 1] == addrs[..i] + [addrs[i]];
    }
    assert addrs[..|addrs|] == addrs;
  }

  ghost predicate ListsAddr(services: seq<Service>, name: string, addr: string) {
    exists i :: 0 <= i < |services| && services[i].name == name && addr in services[i].addrs
  }

  // Which services answer at each address.
  method IndexByVIP(services: seq<Service>) returns (byVIP: map<string, seq<string>>)
    ensures forall a, n :: n in NamesAt(byVIP, a) <==> ListsAddr(services, n, a)
  {
    byVIP := map[];
    for i := 0 to |services|
      invariant forall a, n :: n in NamesAt(byVIP, a) <==> ListsAddr(services[..i], n, a)
    {
      byVIP := FileUnderAddrs(byVIP, services[i].addrs, services[i].name);
      forall a, n ensures n in NamesAt(byVIP, a) <==> ListsAddr(services[..i + 1], n, a) {
        ListsAddrStep(services, i, n, a);
      }
    }
    assert services[..|services|] == services;
  }

  lemma ListsAddrStep(services: seq<Service>, i: nat, n: string, a: string)
    requires i < |services|
    ensures ListsAddr(services[..i + 1], n, a)
        <==> ListsAddr(services[..i], n, a) || (services[i].name == n && a in services[i].addrs)
  {
    var before, after := services[..i], services[..i + 1];
    assert forall j :: 0 <= j < i ==> after[j] == before[j];
    assert after[i] == services[i];
    if ListsAddr(after, n, a) && !(services[i].name == n && a in services[i].addrs) {
      var j :| 0 <= j < |after| && after[j].name == n && a in after[j].addrs;
      assert before[j] == after[j];
    }
    if ListsAddr(before, n, a) {
      var j :| 0 <= j < |before| && before[j].name == n && a in before[j].addrs;
      assert after[j].name == n && a in after[j].addrs;
    }
  }

  method TagAll(out: map<string, set<string>>, names: seq<string>, tags: set<string>) returns (r: map<string,
                set<string>>)
    ensures forall n :: TagsIn(r, n) == TagsIn(out, n) + if n in names then tags else {}
  {
    r := out;
    for i := 0 to |names|
      invariant forall n :: TagsIn(r, n) == TagsIn(out, n) + if n in names[..i] then tags else {}
    {
      r := r[names[i] := TagsIn(r, names[i]) + tags];
      assert names[..i + 1] == names[..i] + [names[i]];
    }
    assert names[..|names|] == names;
  }

  predicate Reaches(allowed: seq<Prefix>, sd: Service) {
    exists i :: 0 <= i < |allowed| && allowed[i].single && allowed[i].addr in sd.addrs
  }

  lemma ReachesStep(allowed: seq<Prefix>, j: nat, sd: Service)
    requires j < |allowed|
    ensures Reaches(allowed[..j + 1], sd)
      <==> Reaches(allowed[..j], sd) || (allowed[j].single && allowed[j].addr in sd.addrs)
  {
    var before, after := allowed[..j], allowed[..j + 1];
    assert after == before + [allowed[j]];
    assert after[j] == allowed[j];
    if Reaches(before, sd) {
      var i :| 0 <= i < |before| && before[i].single && before[i].addr in sd.addrs;
      assert after[i].single;
    }
    if Reaches(after, sd) {
      var i :| 0 <= i < |after| && after[i].single && after[i].addr in sd.addrs;
      assert i < j ==> before[i].single && before[i].addr in sd.addrs;
    }
  }

  // A name at that address is the service itself when names are distinct.
  lemma OnlyItself(services: seq<Service>, sd: Service, addr: string)
    requires DistinctNames(services) && sd in services
    ensures ListsAddr(services, sd.name, addr) <==> addr in sd.addrs
  {
    var k :| 0 <= k < |services| && services[k] == sd;
    if addr in sd.addrs { assert services[k].name == sd.name; }
  }

  // What one host adds to each service.
  method TagByRoutes(out: map<string, set<string>>, services: seq<Service>, byVIP: map<string, seq<string>>, p: Peer)
    returns (r: map<string, set<string>>)
    requires DistinctNames(services)
    requires forall a, n :: n in NamesAt(byVIP, a) <==> ListsAddr(services, n, a)
    ensures forall sd :: sd in services
              ==> TagsIn(r, sd.name) == TagsIn(out, sd.name) + if Reaches(p.allowed, sd) then p.tags else {}
  {
    hide Reaches, ListsAddr, DistinctNames, TagsIn;
    r := out;
    assert forall sd :: !Reaches(p.allowed[..0], sd) by { NothingReached(); }
    for j := 0 to |p.allowed|
      invariant forall sd :: sd in services ==>
                  TagsIn(r, sd.name) == TagsIn(out, sd.name) + if Reaches(p.allowed[..j], sd) then p.tags else {}
    {
      if p.allowed[j].single {
        r := TagAll(r, NamesAt(byVIP, p.allowed[j].addr), p.tags);
      }
      forall sd | sd in services
        ensures TagsIn(r, sd.name) == TagsIn(out, sd.name) + if Reaches(p.allowed[..j + 1], sd) then p.tags else {}
      {
        ReachesStep(p.allowed, j, sd);
        OnlyItself(services, sd, p.allowed[j].addr);
      }
    }
    assert p.allowed[..|p.allowed|] == p.allowed;
  }

  lemma NothingReached()
    ensures forall sd :: !Reaches([], sd)
  {
  }

  lemma HostTagsStep(peers: seq<Peer>, i: nat, sd: Service)
    requires i < |peers|
    ensures HostTags(peers[..i + 1], sd) == HostTags(peers[..i], sd) + if Hosts(peers[i], sd) then peers[i].tags else {}
  {
    hide Hosts;
    var before, after := peers[..i], peers[..i + 1];
    assert after == before + [peers[i]];
    forall t
      ensures t in HostTags(after, sd) <==> t in HostTags(before, sd) || (Hosts(peers[i], sd) && t in peers[i].tags)
    {
      if t in HostTags(after, sd) {
        var k :| 0 <= k < |after| && Hosts(after[k], sd) && t in after[k].tags;
        assert k < i ==> before[k] == after[k];
      }
      if t in HostTags(before, sd) {
        var k :| 0 <= k < |before| && Hosts(before[k], sd) && t in before[k].tags;
        assert after[k] == before[k];
      }
      if Hosts(peers[i], sd) && t in peers[i].tags { assert after[i] == peers[i]; }
    }
  }

  // serviceHostTags: every service gets exactly the tags of the peers hosting it.
  method ServiceHostTags(peers: seq<Peer>, services: seq<Service>) returns (out: map<string, set<string>>)
    requires DistinctNames(services)
    ensures forall sd :: sd in services ==> TagsIn(out, sd.name) == HostTags(peers, sd)
  {
    hide Hosts, ListsAddr, IsMullvad, HostTags;
    out := map[];
    if services == [] { return; }
    var byVIP := IndexByVIP(services);
    forall sd | sd in services ensures TagsIn(out, sd.name) == HostTags(peers[..0], sd) { NoHosts(sd); }
    for i := 0 to |peers|
      invariant forall sd :: sd in services ==> TagsIn(out, sd.name) == HostTags(peers[..i], sd)
    {
      var p := peers[i];
      if !IsMullvad(p.dnsName) {
        out := TagByRoutes(out, services, byVIP, p);
      }
      forall sd | sd in services ensures TagsIn(out, sd.name) == HostTags(peers[..i + 1], sd) {
        HostTagsStep(peers, i, sd);
        HostsIsReaches(p, sd);
      }
    }
    assert peers[..|peers|] == peers;
  }

  lemma NoHosts(sd: Service)
    ensures HostTags([], sd) == {}
  {
  }

  lemma HostsIsReaches(p: Peer, sd: Service)
    ensures Hosts(p, sd) <==> !IsMullvad(p.dnsName) && Reaches(p.allowed, sd)
  {
    hide IsMullvad;
  }

  // The first peer under each short name, and the names in status order.
  method IndexPeers(peers: seq<Peer>, suffix: string) returns (byShort: map<string, Peer>, order: seq<string>)
    ensures order == Order(peers, suffix)
    ensures forall s :: PeerFor(peers, suffix, s) == if s in byShort then Some(byShort[s]) else None
  {
    hide PeerShort, IsMullvad;
    byShort, order := map[], [];
    for i := 0 to |peers|
      invariant order == Order(peers[..i], suffix)
      invariant forall s :: PeerFor(peers[..i], suffix, s) == if s in byShort then Some(byShort[s]) else None
      invariant forall s :: s in order <==> s in byShort
    {
      assert peers[..i + 1][..i] == peers[..i];
      var p := peers[i];
      if !IsMullvad(p.dnsName) {
        var s := PeerShort(p.dnsName, suffix);
        if s != "" && s !in byShort {
          order := order + [s];
          byShort := byShort[s := p];
        }
      }
    }
    assert peers[..|peers|] == peers;
  }

  lemma {:induction false} AddNone(w: seq<string>, xs: seq<string>, p: string -> bool)
    requires forall x :: !p(x)
    ensures AddMatching(w, xs, p) == w
  {
    if xs != [] { AddNone(w, xs[..|xs| - 1], p); }
  }

  method AddLocked(w: seq<string>, locked: seq<string>) returns (want: seq<string>)
    ensures want == AddMatching(w, locked, AnyName())
  {
    want := w;
    for i := 0 to |locked|
      invariant want == AddMatching(w, locked[..i], AnyName())
    {
      assert locked[..i + 1][..i] == locked[..i];
      if locked[i] !in want { want := want + [locked[i]]; }
    }
    assert locked[..|locked|] == locked;
  }

  method AddRuledPeers(w: seq<string>, rules: seq<string>, live: Live, byShort: map<string, Peer>,
                       order: seq<string>, lib: Lib)
    returns (want: seq<string>)
    requires forall s :: PeerFor(live.peers, live.suffix, s) == if s in byShort then Some(byShort[s]) else None
    requires forall s :: s in order ==> s in byShort
    ensures want == AddMatching(w, order, RuledPeer(rules, live, lib))
  {
    hide PeerFor, AutoPeerRule;
    want := w;
    for i := 0 to |order|
      invariant want == AddMatching(w, order[..i], RuledPeer(rules, live, lib))
    {
      assert PeerFor(live.peers, live.suffix, order[i]) == Some(byShort[order[i]]);
      RuledPeerApplies(rules, live, order[i], lib);
      assert order[..i + 1][..i] == order[..i];
      assert order[i] in order;
      if order[i] !in want && AutoPeerRule(rules, order[i], byShort[order[i]].tags, lib) != "" {
        want := want + [order[i]];
      }
    }
    assert order[..|order|] == order;
  }

  lemma RuledPeerApplies(rules: seq<string>, live: Live, s: string, lib: Lib)
    ensures RuledPeer(rules, live, lib)(s) == PeerRuled(rules, live, s, lib)
  {
  }

  lemma RuledServiceApplies(rules: seq<string>, live: Live, s: string, lib: Lib)
    ensures RuledService(rules, live, lib)(s) == SvcRuled(rules, live, s, lib)
  {
  }

  method AddRuledServices(w: seq<string>, rules: seq<string>, live: Live, hostTags: map<string, set<string>>, lib: Lib)
    returns (want: seq<string>)
    requires forall sd :: sd in live.services ==> TagsIn(hostTags, sd.name) == HostTags(live.peers, sd)
    ensures want == AddMatching(w, SortStrings(Names(live.services)), RuledService(rules, live, lib))
  {
    hide HostTags, AutoSvcRule, TagsIn, ServiceFor, SortStrings;
    var names := SortStrings(Names(live.services));
    want := w;
    for i := 0 to |names|
      invariant want == AddMatching(w, names[..i], RuledService(rules, live, lib))
    {
      assert names[..i + 1][..i] == names[..i];
      assert names[i] in names;
      SelectionLaws.ServiceForMembers(live.services, names[i]);
      SelectionLaws.SortKeeps(Names(live.services), names[i]);
      RuledServiceApplies(rules, live, names[i], lib);
      var sd := ServiceFor(live.services, names[i]).value;
      if names[i] !in want && AutoSvcRule(rules, names[i], sd.ports, TagsIn(hostTags, names[i]), lib) != "" {
        want := want + [names[i]];
      }
    }
    assert names[..|names|] == names;
  }

  class PinStore {
    var pins: map<string, Pin>

    constructor (stored: map<string, Pin>)
      ensures pins == stored
    {
      pins := stored;
    }

    // resolveSelections.
    method ResolveSelections(conf: TailnetConf, status: Option<Live>, lib: Lib)
      returns (resolved: seq<Selected>, problems: seq<Problem>, changed: bool)
      requires status.Some? ==> DistinctNames(status.value.services)
      modifies this
      ensures Report(resolved, problems, pins, changed) == ResolveOf(conf, status, old(pins), lib)
    {
      hide Order, PeerFor, AddMatching, SortStrings, HostTags, ResolveAll, RuledPeer, RuledService, DistinctNames;
      if status.None? {
        return [], [NoStatus], false;
      }
      var live := status.value;
      var byShort, order := IndexPeers(live.peers, live.suffix);
      var want := if conf.allowAll then SortStrings(order) else conf.resources;
      want := AddLocked(want, conf.locked);
      if |conf.autoSelect| > 0 {
        forall s | s in order ensures s in byShort { SelectionLaws.OrderMembers(live.peers, live.suffix, s); }
        want := AddRuledPeers(want, conf.autoSelect, live, byShort, order, lib);
      } else {
        NoRules(want, order, conf.autoSelect, live, lib);
      }
      var hostTags := ServiceHostTags(live.peers, live.services);
      want := AddRuledServices(want, conf.autoSelect, live, hostTags, lib);
      resolved, problems, changed := ResolveWanted(want, live, byShort);
    }

    method ResolveWanted(want: seq<string>, live: Live, byShort: map<string, Peer>)
      returns (resolved: seq<Selected>, problems: seq<Problem>, changed: bool)
      requires forall s :: PeerFor(live.peers, live.suffix, s) == if s in byShort then Some(byShort[s]) else None
      modifies this
      ensures Report(resolved, problems, pins, changed) == ResolveAll(want, live, old(pins))
    {
      hide PeerFor, ServiceFor, IsServiceResource, ResolveOne, PinAfter;
      resolved, problems, changed := [], [], false;
      for i := 0 to |want|
        invariant Report(resolved, problems, pins, changed) == ResolveAll(want[..i], live, old(pins))
      {
        assert want[..i + 1][..i] == want[..i];
        ghost var before := pins;
        var outcome, wrote := Resolve(want[i], live, byShort);
        SelectionLaws.RefusedKeepsPins(want[i], live, before);
        match outcome {
          case Resolved(sel) => resolved := resolved + [sel];
          case Refused(problem) => problems := problems + [problem];
        }
        changed := changed || wrote;
      }
      assert want[..|want|] == want;
    }

    // One pass of the loop: an outcome for the name, and its pin added or refreshed.
    method Resolve(short: string, live: Live, byShort: map<string, Peer>) returns (outcome: Outcome, wrote: bool)
      requires forall s :: PeerFor(live.peers, live.suffix, s) == if s in byShort then Some(byShort[s]) else None
      modifies this
      ensures outcome == ResolveOne(short, live, old(pins))
      ensures pins == PinAfter(short, live, old(pins))
      ensures wrote <==> pins != old(pins)
    {
      hide PeerFor, ServiceFor, IsServiceResource;
      wrote := false;
      if IsServiceResource(short) {
        var sd := ServiceFor(live.services, short);
        if sd.None? { return Refused(NotAService(short)), false; }
        return Resolved(Selected(short, ServiceFQDN(sd.value.details, live.suffix), "", FirstAddr(sd.value.addrs))),
          false;
      }
      if short !in byShort {
        return Refused(NotAPeer(short)), false;
      }
      var p := byShort[short];
      var pin := PinOf(p);
      if short in pins {
        if pins[short].target != pin.target {
          return Refused(IdentityChanged(short, pins[short].target, pin.target)), false;
        }
        if pins[short].fqdn != pin.fqdn || pins[short].addr != pin.addr {
          pins := pins[short := pin];
          wrote := true;
        }
      } else {
        pins := pins[short := pin];
        wrote := true;
      }
      assert pins == old(pins)[short := pin];
      outcome := Resolved(Selected(short, pin.fqdn, pin.target, pin.addr));
    }
  }

  lemma NoRules(want: seq<string>, order: seq<string>, rules: seq<string>, live: Live, lib: Lib)
    requires rules == []
    ensures AddMatching(want, order, RuledPeer(rules, live, lib)) == want
  {
    hide PeerFor;
    AddNone(want, order, RuledPeer(rules, live, lib));
  }
}
