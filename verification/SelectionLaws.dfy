/** What selection guarantees: which names are wanted, that pins never move, and that map order is irrelevant. */
module SelectionLaws {
  import opened Text
  import opened Config
  import opened Selection

  // ---- wanted names ----

  lemma {:induction false} PeerRuleIff(rules: seq<string>, short: string, tags: set<string>, lib: Lib)
    ensures AutoPeerRule(rules, short, tags, lib) != ""
      <==> exists i :: 0 <= i < |rules| && PeerRuleHit(rules[i], short, tags, lib)
  {
    hide PeerRuleHit;
    if rules != [] {
      assert PeerRuleHit(rules[0], short, tags, lib) ==> rules[0] != "" by { NoEmptyRule(short, "", [], tags, lib); }
      PeerRuleIff(rules[1..], short, tags, lib);
      assert forall i :: 0 <= i < |rules| - 1 ==> rules[1..][i] == rules[i + 1];
    }
  }

  lemma {:induction false} SvcRuleIff(rules: seq<string>, name: string, ports: seq<PortRange>, tags: set<string>,
                                      lib: Lib)
    ensures AutoSvcRule(rules, name, ports, tags, lib) != ""
      <==> exists i :: 0 <= i < |rules| && SvcRuleHit(rules[i], name, ports, tags, lib)
  {
    hide SvcRuleHit;
    if rules != [] {
      assert SvcRuleHit(rules[0], name, ports, tags, lib) ==> rules[0] != "" by {
        NoEmptyRule("", name, ports, tags, lib);
      }
      SvcRuleIff(rules[1..], name, ports, tags, lib);
      assert forall i :: 0 <= i < |rules| - 1 ==> rules[1..][i] == rules[i + 1];
    }
  }

  lemma NoEmptyRule(short: string, name: string, ports: seq<PortRange>, tags: set<string>, lib: Lib)
    ensures !PeerRuleHit("", short, tags, lib) && !SvcRuleHit("", name, ports, tags, lib)
  {
  }

  lemma {:induction false} AddMatchingMembers(w: seq<string>, xs: seq<string>, p: string -> bool)
    ensures forall x :: x in AddMatching(w, xs, p) <==> x in w || (x in xs && p(x))
  {
    if xs != [] {
      var n := |xs| - 1;
      AddMatchingMembers(w, xs[..n], p);
      assert xs == xs[..n] + [xs[n]];
    }
  }

  lemma {:induction false} OrderMembers(peers: seq<Peer>, suffix: string, s: string)
    ensures s in Order(peers, suffix) <==> PeerFor(peers, suffix, s).Some?
  {
    hide Selectable, PeerShort;
    if peers != [] {
      OrderMembers(peers[..|peers| - 1], suffix, s);
    }
  }

  lemma {:induction false} ServiceForMembers(services: seq<Service>, name: string)
    ensures ServiceFor(services, name).Some? <==> name in Names(services)
    ensures ServiceFor(services, name).Some?
      ==> ServiceFor(services, name).value in services && ServiceFor(services, name).value.name == name
  {
    if services != [] {
      ServiceForMembers(services[1..], name);
      assert forall i :: 0 <= i < |services| - 1 ==> services[1..][i] == services[i + 1];
      assert forall i :: 0 <= i < |services| - 1 ==> Names(services[1..])[i] == Names(services)[i + 1];
      if name in Names(services) && services[0].name != name {
        var i :| 0 <= i < |services| && Names(services)[i] == name;
        assert Names(services[1..])[i - 1] == name;
      }
      assert services[0].name == name ==> Names(services)[0] == name;
    }
  }

  // Why a name is wanted: listed, or any live peer under allow_all; locked; or selected by a rule.
  ghost predicate Wanted(conf: TailnetConf, live: Live, s: string, lib: Lib) {
    || (if conf.allowAll then PeerFor(live.peers, live.suffix, s).Some? else s in conf.resources)
    || s in conf.locked
    || PeerRuled(conf.autoSelect, live, s, lib)
    || SvcRuled(conf.autoSelect, live, s, lib)
  }

  // The resolver wants exactly those names; in particular every lock and every rule match.
  lemma WantIsWanted(conf: TailnetConf, live: Live, s: string, lib: Lib)
    ensures s in Want(conf, live, lib) <==> Wanted(conf, live, s, lib)
  {
    hide PeerRuled, SvcRuled, Order, PeerFor, ServiceFor, Names, SortStrings;
    var order := Order(live.peers, live.suffix);
    var base := if conf.allowAll then SortStrings(order) else conf.resources;
    var locked := AddMatching(base, conf.locked, AnyName());
    var peers := AddMatching(locked, order, RuledPeer(conf.autoSelect, live, lib));
    AddMatchingMembers(base, conf.locked, AnyName());
    AddMatchingMembers(locked, order, RuledPeer(conf.autoSelect, live, lib));
    AddMatchingMembers(peers, SortStrings(Names(live.services)), RuledService(conf.autoSelect, live, lib));
    SortKeeps(order, s);
    SortKeeps(Names(live.services), s);
    OrderMembers(live.peers, live.suffix, s);
    ServiceForMembers(live.services, s);
    RuledIsLive(conf.autoSelect, live, s, lib);
  }

  lemma SortKeeps(xs: seq<string>, s: string)
    ensures s in SortStrings(xs) <==> s in xs
  {
  }

  lemma RuledIsLive(rules: seq<string>, live: Live, s: string, lib: Lib)
    ensures PeerRuled(rules, live, s, lib) ==> PeerFor(live.peers, live.suffix, s).Some?
    ensures SvcRuled(rules, live, s, lib) ==> ServiceFor(live.services, s).Some?
  {
  }

  // ---- one resolution ----

  function Oks(want: seq<string>, live: Live, pins: map<string, Pin>): seq<Selected> {
    if want == [] then []
    else
      var o := ResolveOne(want[|want| - 1], live, pins);
      Oks(want[..|want| - 1], live, pins) + if o.Resolved? then [o.sel] else []
  }

  function Bads(want: seq<string>, live: Live, pins: map<string, Pin>): seq<Problem> {
    if want == [] then []
    else
      var o := ResolveOne(want[|want| - 1], live, pins);
      Bads(want[..|want| - 1], live, pins) + if o.Refused? then [o.problem] else []
  }

  // Resolving the name would write its pin.
  predicate Drifts(short: string, live: Live, pins: map<string, Pin>) {
    Pins(short, live, pins) &&
    (short !in pins || pins[short] != PinOf(PeerFor(live.peers, live.suffix, short).value))
  }

  // The pin of a name after resolving: the resolved peer's own record, or as it was.
  predicate PinFollows(want: seq<string>, live: Live, pins: map<string, Pin>, pins': map<string, Pin>, s: string) {
    if s in want && Pins(s, live, pins) then s in pins' && pins'[s] == PinOf(PeerFor(live.peers, live.suffix, s).value)
    else (s in pins' <==> s in pins) && (s in pins ==> pins'[s] == pins[s])
  }

  lemma PinAfterKeepsOutcomes(short: string, live: Live, pins: map<string, Pin>, s: string)
    ensures ResolveOne(s, live, PinAfter(short, live, pins)) == ResolveOne(s, live, pins)
    ensures Pins(s, live, PinAfter(short, live, pins)) <==> Pins(s, live, pins)
  {
    hide PeerFor, ServiceFor, IsServiceResource;
  }

  // The names are resolved independently: against the pins as they were, and in order.
  lemma {:induction false} ResolveAllOutcomes(want: seq<string>, live: Live, pins: map<string, Pin>, s: string)
    ensures ResolveOne(s, live, ResolveAll(want, live, pins).pins) == ResolveOne(s, live, pins)
    ensures Pins(s, live, ResolveAll(want, live, pins).pins) <==> Pins(s, live, pins)
  {
    hide PeerFor, ServiceFor, ResolveOne, IsServiceResource, PinAfter, Pins;
    if want != [] {
      var n := |want| - 1;
      ResolveAllOutcomes(want[..n], live, pins, s);
      ResolveAllOutcomes(want[..n], live, pins, want[n]);
      PinAfterKeepsOutcomes(want[n], live, ResolveAll(want[..n], live, pins).pins, s);
      RefusedKeepsPins(want[n], live, ResolveAll(want[..n], live, pins).pins);
    }
  }

  lemma RefusedKeepsPins(short: string, live: Live, pins: map<string, Pin>)
    ensures ResolveOne(short, live, pins).Refused? ==> PinAfter(short, live, pins) == pins && !Pins(short, live, pins)
  {
    hide PeerFor, ServiceFor, ResolveOne, IsServiceResource;
  }

  lemma {:induction false} ResolveAllLists(want: seq<string>, live: Live, pins: map<string, Pin>)
    ensures ResolveAll(want, live, pins).resolved == Oks(want, live, pins)
    ensures ResolveAll(want, live, pins).problems == Bads(want, live, pins)
  {
    hide PeerFor, ServiceFor, ResolveOne, IsServiceResource, PinAfter, Pins;
    if want != [] {
      var n := |want| - 1;
      ResolveAllLists(want[..n], live, pins);
      ResolveAllOutcomes(want[..n], live, pins, want[n]);
    }
  }

  lemma {:induction false} ResolveAllPins(want: seq<string>, live: Live, pins: map<string, Pin>, s: string)
    ensures PinFollows(want, live, pins, ResolveAll(want, live, pins).pins, s)
  {
    hide PeerFor, ServiceFor, ResolveOne, IsServiceResource, Pins;
    if want != [] {
      var n := |want| - 1;
      ResolveAllPins(want[..n], live, pins, s);
      ResolveAllOutcomes(want[..n], live, pins, want[n]);
      RefusedKeepsPins(want[n], live, ResolveAll(want[..n], live, pins).pins);
      assert want == want[..n] + [want[n]];
    }
  }

  lemma {:induction false} ResolveAllChanged(want: seq<string>, live: Live, pins: map<string, Pin>)
    ensures ResolveAll(want, live, pins).changed <==> exists s :: s in want && Drifts(s, live, pins)
  {
    hide PeerFor, ServiceFor, ResolveOne, IsServiceResource, Pins;
    if want != [] {
      var n := |want| - 1;
      var short, r := want[n], ResolveAll(want[..n], live, pins);
      ResolveAllChanged(want[..n], live, pins);
      ResolveAllOutcomes(want[..n], live, pins, short);
      ResolveAllPins(want[..n], live, pins, short);
      RefusedKeepsPins(short, live, r.pins);
      assert want == want[..n] + [short];
      assert short in want;
      DriftIsAWrite(short, live, r.pins);
    }
  }

  lemma DriftIsAWrite(short: string, live: Live, pins: map<string, Pin>)
    ensures Drifts(short, live, pins) <==> PinAfter(short, live, pins) != pins
  {
    hide PeerFor, ServiceFor, IsServiceResource;
    if Drifts(short, live, pins) {
      assert short in PinAfter(short, live, pins);
    }
  }

  // Every wanted name is accounted for once.
  lemma {:induction false} EveryNameIsAccounted(want: seq<string>, live: Live, pins: map<string, Pin>)
    ensures |Oks(want, live, pins)| + |Bads(want, live, pins)| == |want|
    ensures forall sel :: sel in Oks(want, live, pins)
              <==> exists s :: s in want && ResolveOne(s, live, pins) == Resolved(sel)
    ensures forall p :: p in Bads(want, live, pins)
              <==> exists s :: s in want && ResolveOne(s, live, pins) == Refused(p)
  {
    hide ResolveOne;
    if want != [] {
      var n := |want| - 1;
      EveryNameIsAccounted(want[..n], live, pins);
      assert want == want[..n] + [want[n]];
      var o := ResolveOne(want[n], live, pins);
      assert want[n] in want;
      forall sel
        ensures sel in Oks(want, live, pins) <==> exists s :: s in want && ResolveOne(s, live, pins) == Resolved(sel)
      {
        if s :| s in want && ResolveOne(s, live, pins) == Resolved(sel) {
          assert s == want[n] || s in want[..n];
        }
      }
      forall p
        ensures p in Bads(want, live, pins) <==> exists s :: s in want && ResolveOne(s, live, pins) == Refused(p)
      {
        if s :| s in want && ResolveOne(s, live, pins) == Refused(p) {
          assert s == want[n] || s in want[..n];
        }
      }
    }
  }

  // Every resolved peer is the node its pin names, is live under its short name, and is no Mullvad exit.
  lemma ResolvedPeersArePinned(conf: TailnetConf, live: Live, pins: map<string, Pin>, lib: Lib, sel: Selected)
    requires sel in ResolveOf(conf, Some(live), pins, lib).resolved && !IsServiceResource(sel.short)
    ensures var pins' := ResolveOf(conf, Some(live), pins, lib).pins;
      sel.short in pins' && pins'[sel.short] == Pin(sel.fqdn, sel.target, sel.addr)
    ensures exists p :: p in live.peers && !IsMullvad(p.dnsName) && p.id == sel.target && Normal(p.dnsName) == sel.fqdn
                        && PeerShort(p.dnsName, live.suffix) == sel.short
  {
    hide Want, PeerFor, ServiceFor, ResolveOne, ResolveAll, Pins, IsServiceResource, IsMullvad, PeerShort;
    var want := Want(conf, live, lib);
    ResolveAllLists(want, live, pins);
    EveryNameIsAccounted(want, live, pins);
    var s :| s in want && ResolveOne(s, live, pins) == Resolved(sel);
    ResolvedIsPeer(s, live, pins, sel);
    ResolveAllPins(want, live, pins, s);
    PeerForIsLive(live.peers, live.suffix, s);
  }

  lemma ResolvedIsPeer(s: string, live: Live, pins: map<string, Pin>, sel: Selected)
    requires ResolveOne(s, live, pins) == Resolved(sel) && !IsServiceResource(sel.short)
    ensures s == sel.short && Pins(s, live, pins) && PeerFor(live.peers, live.suffix, s).Some?
    ensures var p := PeerFor(live.peers, live.suffix, s).value;
      PinOf(p) == Pin(sel.fqdn, sel.target, sel.addr) && p.id == sel.target && Normal(p.dnsName) == sel.fqdn
  {
    hide PeerFor, ServiceFor, IsServiceResource;
  }

  lemma {:induction false} PeerForIsLive(peers: seq<Peer>, suffix: string, s: string)
    ensures var p := PeerFor(peers, suffix, s);
      p.Some? ==> p.value in peers && Selectable(p.value, suffix) && PeerShort(p.value.dnsName, suffix) == s
  {
    hide Selectable, PeerShort;
    if peers != [] {
      PeerForIsLive(peers[..|peers| - 1], suffix, s);
      assert peers == peers[..|peers| - 1] + [peers[|peers| - 1]];
    }
  }

  // Resolving again with the same inputs gives the same answer and writes no pin.
  lemma ResolvingAgainChangesNothing(conf: TailnetConf, status: Option<Live>, pins: map<string, Pin>, lib: Lib)
    ensures var r := ResolveOf(conf, status, pins, lib);
      ResolveOf(conf, status, r.pins, lib) == r.(changed := false)
  {
    hide Want, ResolveOne, PeerFor, IsServiceResource;
    if status.Some? {
      ResolveAllAgain(Want(conf, status.value, lib), status.value, pins);
    }
  }

  lemma ResolveAllAgain(want: seq<string>, live: Live, pins: map<string, Pin>)
    ensures var r := ResolveAll(want, live, pins);
      ResolveAll(want, live, r.pins) == r.(changed := false)
  {
    hide ResolveOne, PeerFor, ResolveAll, IsServiceResource;
    var r := ResolveAll(want, live, pins);
    var again := ResolveAll(want, live, r.pins);
    forall s ensures ResolveOne(s, live, r.pins) == ResolveOne(s, live, pins) {
      ResolveAllOutcomes(want, live, pins, s);
    }
    ResolveAllLists(want, live, pins);
    ResolveAllLists(want, live, r.pins);
    SameOutcomesSameLists(want, live, pins, r.pins);
    forall s ensures PinFollows(want, live, pins, r.pins, s) && PinFollows(want, live, r.pins, again.pins, s) {
      ResolveAllPins(want, live, pins, s);
      ResolveAllPins(want, live, r.pins, s);
    }
    SamePins(want, live, pins, r.pins, again.pins);
    ResolveAllChanged(want, live, r.pins);
  }

  lemma SamePins(want: seq<string>, live: Live, pins: map<string, Pin>, pins': map<string, Pin>,
                 pins'': map<string, Pin>)
    requires forall s :: ResolveOne(s, live, pins') == ResolveOne(s, live, pins)
    requires forall s :: PinFollows(want, live, pins, pins', s) && PinFollows(want, live, pins', pins'', s)
    ensures pins'' == pins'
    ensures forall s :: s in want ==> !Drifts(s, live, pins')
  {
    hide ResolveOne, PeerFor, IsServiceResource;
    forall s
      ensures (s in pins'' <==> s in pins') && (s in pins' ==> pins''[s] == pins'[s])
        && (s in want ==> !Drifts(s, live, pins'))
    {
      assert PinFollows(want, live, pins, pins', s) && PinFollows(want, live, pins', pins'', s);
      assert ResolveOne(s, live, pins') == ResolveOne(s, live, pins);
    }
  }

  lemma {:induction false} SameOutcomesSameLists(want: seq<string>, live: Live, pins: map<string, Pin>,
                                                 pins': map<string, Pin>)
    requires forall s :: ResolveOne(s, live, pins') == ResolveOne(s, live, pins)
    ensures Oks(want, live, pins') == Oks(want, live, pins) && Bads(want, live, pins') == Bads(want, live, pins)
  {
    hide ResolveOne;
    if want != [] {
      SameOutcomesSameLists(want[..|want| - 1], live, pins, pins');
    }
  }

  // ---- pins over runs ----

  datatype Request = Request(conf: TailnetConf, status: Option<Live>)

  ghost function PinsAfterRun(pins: map<string, Pin>, run: seq<Request>, lib: Lib): map<string, Pin> {
    if run == [] then pins
    else
      var q := run[|run| - 1];
      ResolveOf(q.conf, q.status, PinsAfterRun(pins, run[..|run| - 1], lib), lib).pins
  }

  ghost predicate PinsHold(pins: map<string, Pin>, pins': map<string, Pin>) {
    forall s :: s in pins ==> s in pins' && pins'[s].target == pins[s].target
  }

  lemma ResolveKeepsTargets(conf: TailnetConf, status: Option<Live>, pins: map<string, Pin>, lib: Lib)
    ensures PinsHold(pins, ResolveOf(conf, status, pins, lib).pins)
  {
    hide Want, PeerFor, ServiceFor, IsServiceResource;
    if status.Some? {
      var live, want := status.value, Want(conf, status.value, lib);
      forall s | s in pins
        ensures s in ResolveAll(want, live, pins).pins && ResolveAll(want, live, pins).pins[s].target == pins[s].target
      {
        ResolveAllPins(want, live, pins, s);
        assert Pins(s, live, pins) ==> PeerFor(live.peers, live.suffix, s).value.id == pins[s].target;
      }
    }
  }

  // Over any run, whatever the statuses, no pin is dropped and none is moved to another node.
  lemma {:induction false} PinsNeverMove(pins: map<string, Pin>, run: seq<Request>, lib: Lib)
    ensures PinsHold(pins, PinsAfterRun(pins, run, lib))
  {
    hide ResolveOf;
    if run != [] {
      var q, before := run[|run| - 1], PinsAfterRun(pins, run[..|run| - 1], lib);
      PinsNeverMove(pins, run[..|run| - 1], lib);
      ResolveKeepsTargets(q.conf, q.status, before, lib);
    }
  }

  // ---- map order ----

  ghost predicate UniqueShorts(peers: seq<Peer>, suffix: string) {
    forall p, q ::
      (p in peers && q in peers && Selectable(p, suffix) && Selectable(q, suffix)
       && PeerShort(p.dnsName, suffix) == PeerShort(q.dnsName, suffix)) ==> p == q
  }

  ghost predicate UniqueServices(services: seq<Service>) {
    forall a, b :: a in services && b in services && a.name == b.name ==> a == b
  }

  // The same peers and services, met in another order.
  ghost predicate Reordered(a: Live, b: Live) {
    && a.suffix == b.suffix
    && (forall p :: p in a.peers <==> p in b.peers)
    && (forall sd :: sd in a.services <==> sd in b.services)
  }

  lemma {:induction false} PeerForFinds(peers: seq<Peer>, suffix: string, p: Peer)
    requires p in peers && Selectable(p, suffix)
    ensures PeerFor(peers, suffix, PeerShort(p.dnsName, suffix)).Some?
  {
    hide Selectable, PeerShort;
    var n := |peers| - 1;
    if p != peers[n] {
      assert p in peers[..n];
      PeerForFinds(peers[..n], suffix, p);
    }
  }

  lemma PeerForReordered(a: Live, b: Live, s: string)
    requires Reordered(a, b) && UniqueShorts(a.peers, a.suffix)
    ensures PeerFor(a.peers, a.suffix, s) == PeerFor(b.peers, b.suffix, s)
  {
    hide Selectable, PeerShort;
    PeerForIsLive(a.peers, a.suffix, s);
    PeerForIsLive(b.peers, b.suffix, s);
    var p, q := PeerFor(a.peers, a.suffix, s), PeerFor(b.peers, b.suffix, s);
    if p.Some? { PeerForFinds(b.peers, b.suffix, p.value); }
    if q.Some? { PeerForFinds(a.peers, a.suffix, q.value); }
  }

  lemma ServiceForReordered(a: Live, b: Live, name: string)
    requires Reordered(a, b) && UniqueServices(a.services)
    ensures ServiceFor(a.services, name) == ServiceFor(b.services, name)
  {
    ServiceForMembers(a.services, name);
    ServiceForMembers(b.services, name);
    if ServiceFor(a.services, name).Some? { NameOfMember(b.services, ServiceFor(a.services, name).value); }
    if ServiceFor(b.services, name).Some? { NameOfMember(a.services, ServiceFor(b.services, name).value); }
  }

  lemma NameOfMember(services: seq<Service>, sd: Service)
    requires sd in services
    ensures sd.name in Names(services)
  {
    var i :| 0 <= i < |services| && services[i] == sd;
    assert Names(services)[i] == sd.name;
  }

  lemma HostTagsReordered(peers: seq<Peer>, peers': seq<Peer>, sd: Service)
    requires forall p :: p in peers <==> p in peers'
    ensures HostTags(peers, sd) == HostTags(peers', sd)
  {
    HostTagsIncluded(peers, peers', sd);
    HostTagsIncluded(peers', peers, sd);
  }

  lemma HostTagsIncluded(peers: seq<Peer>, peers': seq<Peer>, sd: Service)
    requires forall p :: p in peers ==> p in peers'
    ensures HostTags(peers, sd) <= HostTags(peers', sd)
  {
    hide Hosts;
    forall t | t in HostTags(peers, sd) ensures t in HostTags(peers', sd) {
      var i :| 0 <= i < |peers| && Hosts(peers[i], sd) && t in peers[i].tags;
      assert peers[i] in peers';
      var j :| 0 <= j < |peers'| && peers'[j] == peers[i];
    }
  }

  // With unique short names, the order of the maps does not matter: the same names are wanted, the same
  // entries resolved, the same problems reported and the same pins kept.
  lemma SelectionIgnoresMapOrder(conf: TailnetConf, a: Live, b: Live, pins: map<string, Pin>, lib: Lib)
    requires Reordered(a, b) && UniqueShorts(a.peers, a.suffix) && UniqueServices(a.services)
    ensures var ra, rb := ResolveOf(conf, Some(a), pins, lib), ResolveOf(conf, Some(b), pins, lib);
      && (forall sel :: sel in ra.resolved <==> sel in rb.resolved)
      && (forall p :: p in ra.problems <==> p in rb.problems)
      && ra.pins == rb.pins && ra.changed == rb.changed
    ensures forall s :: s in Want(conf, a, lib) <==> s in Want(conf, b, lib)
  {
    hide Want, ResolveOne, PeerFor, ServiceFor, Reordered, UniqueShorts, UniqueServices, Wanted, ResolveAll;
    forall s ensures s in Want(conf, a, lib) <==> s in Want(conf, b, lib) {
      WantedReordered(conf, a, b, s, lib);
      WantIsWanted(conf, a, s, lib);
      WantIsWanted(conf, b, s, lib);
    }
    SameWantSameLists(Want(conf, a, lib), Want(conf, b, lib), a, b, pins);
    SameWantSamePins(Want(conf, a, lib), Want(conf, b, lib), a, b, pins);
  }

  lemma SameWantSameLists(wa: seq<string>, wb: seq<string>, a: Live, b: Live, pins: map<string, Pin>)
    requires Reordered(a, b) && UniqueShorts(a.peers, a.suffix) && UniqueServices(a.services)
    requires forall s :: s in wa <==> s in wb
    ensures forall sel :: sel in ResolveAll(wa, a, pins).resolved <==> sel in ResolveAll(wb, b, pins).resolved
    ensures forall p :: p in ResolveAll(wa, a, pins).problems <==> p in ResolveAll(wb, b, pins).problems
  {
    hide ResolveOne, Reordered, UniqueShorts, UniqueServices, Oks, Bads, ResolveAll;
    forall s ensures ResolveOne(s, a, pins) == ResolveOne(s, b, pins) { ResolveReordered(a, b, pins, s); }
    ResolveAllLists(wa, a, pins);
    ResolveAllLists(wb, b, pins);
    EveryNameIsAccounted(wa, a, pins);
    EveryNameIsAccounted(wb, b, pins);
  }

  lemma SameWantSamePins(wa: seq<string>, wb: seq<string>, a: Live, b: Live, pins: map<string, Pin>)
    requires Reordered(a, b) && UniqueShorts(a.peers, a.suffix) && UniqueServices(a.services)
    requires forall s :: s in wa <==> s in wb
    ensures ResolveAll(wa, a, pins).pins == ResolveAll(wb, b, pins).pins
    ensures ResolveAll(wa, a, pins).changed == ResolveAll(wb, b, pins).changed
  {
    hide ResolveOne, Reordered, UniqueShorts, UniqueServices, PeerFor, ResolveAll, IsServiceResource;
    var pa, pb := ResolveAll(wa, a, pins).pins, ResolveAll(wb, b, pins).pins;
    forall s ensures (s in pa <==> s in pb) && (s in pa ==> pa[s] == pb[s]) {
      ResolveReordered(a, b, pins, s);
      PeerForReordered(a, b, s);
      ResolveAllPins(wa, a, pins, s);
      ResolveAllPins(wb, b, pins, s);
    }
    forall s ensures Drifts(s, a, pins) <==> Drifts(s, b, pins) {
      ResolveReordered(a, b, pins, s);
      PeerForReordered(a, b, s);
    }
    ResolveAllChanged(wa, a, pins);
    ResolveAllChanged(wb, b, pins);
  }

  lemma ResolveReordered(a: Live, b: Live, pins: map<string, Pin>, s: string)
    requires Reordered(a, b) && UniqueShorts(a.peers, a.suffix) && UniqueServices(a.services)
    ensures ResolveOne(s, a, pins) == ResolveOne(s, b, pins)
  {
    hide PeerFor, ServiceFor, UniqueShorts, UniqueServices;
    PeerForReordered(a, b, s);
    ServiceForReordered(a, b, s);
  }

  lemma WantedReordered(conf: TailnetConf, a: Live, b: Live, s: string, lib: Lib)
    requires Reordered(a, b) && UniqueShorts(a.peers, a.suffix) && UniqueServices(a.services)
    ensures Wanted(conf, a, s, lib) <==> Wanted(conf, b, s, lib)
  {
    hide PeerFor, ServiceFor, UniqueShorts, UniqueServices, HostTags, AutoPeerRule, AutoSvcRule;
    PeerForReordered(a, b, s);
    ServiceForReordered(a, b, s);
    if ServiceFor(a.services, s).Some? {
      HostTagsReordered(a.peers, b.peers, ServiceFor(a.services, s).value);
    }
  }
}
