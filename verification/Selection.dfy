/** Expanding a tailnet's selections against its live peers and services. */
module Selection {
  import opened Text
  import opened Config

  datatype Prefix = Prefix(addr: string, single: bool)

  // A peer as the live status shows it. id is the stable node identity.
  datatype Peer = Peer(id: string, dnsName: string, addrs: seq<string>, tags: set<string>, allowed: seq<Prefix>)

  datatype PortRange = PortRange(proto: nat, first: nat, last: nat)

  datatype Service = Service(name: string, details: string, addrs: seq<string>, ports: seq<PortRange>)

  // The libraries the rules lean on: does the glob match the name, and the one range a port rule names.
  datatype Lib = Lib(glob: (string, string) -> bool, port: string -> Option<PortRange>)

  // Everything live that one resolution looks at. Both lists are map iterations: their order is arbitrary.
  datatype Live = Live(suffix: string, peers: seq<Peer>, services: seq<Service>)

  datatype Pin = Pin(fqdn: string, target: string, addr: string)

  datatype Selected = Selected(short: string, fqdn: string, target: string, addr: string)

  datatype Problem =
    | NoStatus
    | NotAService(short: string)
    | NotAPeer(short: string)
    | IdentityChanged(short: string, pinned: string, found: string)

  // ---- peers and services ----

  predicate IsMullvad(dnsName: string) {
    HasSuffix(Normal(dnsName), ".mullvad.ts.net")
  }

  // The short name under the tailnet's suffix, or "" for a peer outside it.
  function PeerShort(dnsName: string, suffix: string): string {
    if dnsName == "" then ""
    else
      var name := Normal(dnsName);
      if suffix == "" then name
      else if !HasSuffix(name, "." + suffix) then ""
      else TrimSuffix(name, "." + suffix)
  }

  predicate Selectable(p: Peer, suffix: string) {
    !IsMullvad(p.dnsName) && PeerShort(p.dnsName, suffix) != ""
  }

  // The short names in status order, each once.
  function Order(peers: seq<Peer>, suffix: string): seq<string> {
    if peers == [] then []
    else
      var init, p := Order(peers[..|peers| - 1], suffix), peers[|peers| - 1];
      var s := PeerShort(p.dnsName, suffix);
      if Selectable(p, suffix) && s !in init then init + [s] else init
  }

  // The first peer with that short name.
  function PeerFor(peers: seq<Peer>, suffix: string, short: string): Option<Peer> {
    if peers == [] then None
    else
      var p := PeerFor(peers[..|peers| - 1], suffix, short);
      var last := peers[|peers| - 1];
      if p.Some? then p
      else if Selectable(last, suffix) && PeerShort(last.dnsName, suffix) == short then Some(last)
      else None
  }

  predicate IsServiceResource(name: string) {
    HasPrefix(name, "svc:")
  }

  function ServiceLabel(name: string): string {
    TrimPrefix(Lower(name), "svc:")
  }

  function ServiceFQDN(name: string, suffix: string): string {
    if suffix == "" then ServiceLabel(name) else ServiceLabel(name) + "." + suffix
  }

  function ServiceFor(services: seq<Service>, name: string): Option<Service> {
    if services == [] then None
    else if services[0].name == name then Some(services[0])
    else ServiceFor(services[1..], name)
  }

  function Names(services: seq<Service>): seq<string> {
    seq(|services|, i requires 0 <= i < |services| => services[i].name)
  }

  // The peer hosts the service: one of its single-address routes is one of the service's addresses.
  predicate Hosts(p: Peer, sd: Service) {
    !IsMullvad(p.dnsName) && exists i :: 0 <= i < |p.allowed| && p.allowed[i].single && p.allowed[i].addr in sd.addrs
  }

  // The tags of the peers hosting a service.
  function HostTags(peers: seq<Peer>, sd: Service): set<string> {
    set i, t | 0 <= i < |peers| && Hosts(peers[i], sd) && t in peers[i].tags :: t
  }

  // ---- rules ----

  predicate TagRuleMatches(rule: string, tags: set<string>, lib: Lib) {
    exists t :: t in tags && lib.glob(rule, t)
  }

  predicate SvcRuleMatches(rule: string, name: string, lib: Lib) {
    HasPrefix(rule, "svc:") && IsServiceResource(name) && lib.glob(TrimPrefix(rule, "svc:"), ServiceLabel(name))
  }

  predicate Covers(want: PortRange, have: PortRange) {
    (want.proto == 0 || have.proto == 0 || have.proto == want.proto) && have.first <= want.first
      && want.last <= have.last
  }

  // A port rule matches when one advertised range covers it whole.
  predicate PortRuleMatches(rule: string, ports: seq<PortRange>, lib: Lib) {
    lib.port(rule).Some? && exists i :: 0 <= i < |ports| && Covers(lib.port(rule).value, ports[i])
  }

  predicate PeerRuleHit(rule: string, short: string, tags: set<string>, lib: Lib) {
    if HasPrefix(rule, "tag:") then TagRuleMatches(rule, tags, lib)
    else HasPrefix(rule, "host:") && lib.glob(TrimPrefix(rule, "host:"), short)
  }

  predicate SvcRuleHit(rule: string, name: string, ports: seq<PortRange>, tags: set<string>, lib: Lib) {
    if HasPrefix(rule, "svc:") then SvcRuleMatches(rule, name, lib)
    else if HasPrefix(rule, "tcp:") || HasPrefix(rule, "udp:") then PortRuleMatches(rule, ports, lib)
    else HasPrefix(rule, "tag:") && TagRuleMatches(rule, tags, lib)
  }

  // autoPeerRule: the first rule that selects the peer, or "".
  function AutoPeerRule(rules: seq<string>, short: string, tags: set<string>, lib: Lib): string {
    if rules == [] then ""
    else if PeerRuleHit(rules[0], short, tags, lib) then rules[0]
    else AutoPeerRule(rules[1..], short, tags, lib)
  }

  // autoSvcRule: the first rule that selects the service, or "".
  function AutoSvcRule(rules: seq<string>, name: string, ports: seq<PortRange>, tags: set<string>, lib: Lib): string {
    if rules == [] then ""
    else if SvcRuleHit(rules[0], name, ports, tags, lib) then rules[0]
    else AutoSvcRule(rules[1..], name, ports, tags, lib)
  }

  predicate PeerRuled(rules: seq<string>, live: Live, short: string, lib: Lib) {
    match PeerFor(live.peers, live.suffix, short)
    case None => false
    case Some(p) => AutoPeerRule(rules, short, p.tags, lib) != ""
  }

  predicate SvcRuled(rules: seq<string>, live: Live, name: string, lib: Lib) {
    match ServiceFor(live.services, name)
    case None => false
    case Some(sd) => AutoSvcRule(rules, name, sd.ports, HostTags(live.peers, sd), lib) != ""
  }

  // ---- what is wanted ----

  // Byte-wise string order.
  predicate StrLe(a: string, b: string) {
    a == "" || (b != "" && (a[0] < b[0] || (a[0] == b[0] && StrLe(a[1..], b[1..]))))
  }

  function InsertSorted(s: string, xs: seq<string>): (r: seq<string>)
    ensures forall x :: x in r <==> x == s || x in xs
    ensures |r| == |xs| + 1
  {
    if xs == [] || StrLe(s, xs[0]) then [s] + xs
    else
      assert forall x :: x in xs <==> x == xs[0] || x in xs[1..];
      [xs[0]] + InsertSorted(s, xs[1..])
  }

  function SortStrings(xs: seq<string>): (r: seq<string>)
    ensures forall x :: x in r <==> x in xs
    ensures |r| == |xs|
  {
    if xs == [] then []
    else
      assert forall x :: x in xs <==> x == xs[0] || x in xs[1..];
      InsertSorted(xs[0], SortStrings(xs[1..]))
  }

  // Appends the members of xs that satisfy p and are not there yet.
  function AddMatching(w: seq<string>, xs: seq<string>, p: string -> bool): seq<string> {
    if xs == [] then w
    else
      var init, x := AddMatching(w, xs[..|xs| - 1], p), xs[|xs| - 1];
      if x !in init && p(x) then init + [x] else init
  }

  function AnyName(): string -> bool {
    x => true
  }

  function RuledPeer(rules: seq<string>, live: Live, lib: Lib): string -> bool {
    x => PeerRuled(rules, live, x, lib)
  }

  function RuledService(rules: seq<string>, live: Live, lib: Lib): string -> bool {
    x => SvcRuled(rules, live, x, lib)
  }

  // The names to resolve: the selection, then every lock, then every peer and service a rule selects.
  function Want(conf: TailnetConf, live: Live, lib: Lib): seq<string> {
    var order := Order(live.peers, live.suffix);
    var base := if conf.allowAll then SortStrings(order) else conf.resources;
    var locked := AddMatching(base, conf.locked, AnyName());
    var peers := AddMatching(locked, order, RuledPeer(conf.autoSelect, live, lib));
    AddMatching(peers, SortStrings(Names(live.services)), RuledService(conf.autoSelect, live, lib))
  }

  // ---- resolving one name ----

  datatype Outcome = Resolved(sel: Selected) | Refused(problem: Problem)

  function FirstAddr(addrs: seq<string>): string {
    if addrs == [] then "" else addrs[0]
  }

  function PinOf(p: Peer): Pin {
    Pin(Normal(p.dnsName), p.id, FirstAddr(p.addrs))
  }

  // A service is its own identity; a peer must still be the node its pin names.
  function ResolveOne(short: string, live: Live, pins: map<string, Pin>): Outcome {
    if IsServiceResource(short) then
      match ServiceFor(live.services, short)
      case None => Refused(NotAService(short))
      case Some(sd) => Resolved(Selected(short, ServiceFQDN(sd.details, live.suffix), "", FirstAddr(sd.addrs)))
    else
      match PeerFor(live.peers, live.suffix, short)
      case None => Refused(NotAPeer(short))
      case Some(p) =>
        if short in pins && pins[short].target != p.id then Refused(IdentityChanged(short, pins[short].target, p.id))
        else Resolved(Selected(short, Normal(p.dnsName), p.id, FirstAddr(p.addrs)))
  }

  // The name holds, or takes, the pin of the peer it resolves to.
  predicate Pins(short: string, live: Live, pins: map<string, Pin>) {
    !IsServiceResource(short) && ResolveOne(short, live, pins).Resolved?
  }

  function PinAfter(short: string, live: Live, pins: map<string, Pin>): map<string, Pin> {
    if Pins(short, live, pins) then pins[short := PinOf(PeerFor(live.peers, live.suffix, short).value)] else pins
  }

  datatype Report = Report(resolved: seq<Selected>, problems: seq<Problem>, pins: map<string, Pin>, changed: bool)

  function ResolveAll(want: seq<string>, live: Live, pins: map<string, Pin>): Report {
    if want == [] then Report([], [], pins, false)
    else
      var r, short := ResolveAll(want[..|want| - 1], live, pins), want[|want| - 1];
      var pins' := PinAfter(short, live, r.pins);
      match ResolveOne(short, live, r.pins)
      case Resolved(sel) => Report(r.resolved + [sel], r.problems, pins', r.changed || pins' != r.pins)
      case Refused(problem) => Report(r.resolved, r.problems + [problem], r.pins, r.changed)
  }

  // resolveSelections; no status is a problem of its own.
  function ResolveOf(conf: TailnetConf, status: Option<Live>, pins: map<string, Pin>, lib: Lib): Report {
    match status
    case None => Report([], [NoStatus], pins, false)
    case Some(live) => ResolveAll(Want(conf, live, lib), live, pins)
  }
}
