/** The synthetic-address registry as a value: every operation of the daemon's shared name index. */
module RegistrySpec {
  import opened Text
  import opened Cidr
  import opened Config
  import opened Matching

  datatype State = State(
    entries: seq<Entry>,
    byName: map<string, nat>,   // canonical name -> synthetic address
    byIP: map<nat, string>,     // synthetic address -> canonical name
    cidrs: seq<Block>,          // every synthetic range, for the loop guard
    resolvers: set<string>)     // tailnets with a peer resolver

  const EMPTY: State := State([], map[], map[], [], {})

  // newAllocator: 32-bit size, so a /0 wraps to 0.
  function NewAllocator(b: Block): Allocator
    requires b.ones <= 32
  {
    Allocator(b.base, 1, Size(b.ones) % ADDRESS_SPACE)
  }

  // allocator.take, in the source's unsigned 32-bit arithmetic.
  function Take(a: Allocator): Option<(nat, Allocator)> {
    if a.next >= (a.size - 1) % ADDRESS_SPACE then None
    else Some(((a.base + a.next) % ADDRESS_SPACE, a.(next := (a.next + 1) % ADDRESS_SPACE)))
  }

  // The first entry with that name, or the number of entries.
  function IndexOf(entries: seq<Entry>, name: string): (i: nat)
    ensures i <= |entries|
    ensures i < |entries| ==> entries[i].name == name
    ensures forall j :: 0 <= j < i ==> entries[j].name != name
  {
    if entries == [] then 0
    else if entries[0].name == name then 0
    else 1 + IndexOf(entries[1..], name)
  }

  function NewEntry(conf: TailnetConf, net: Block): Entry
    requires net.ones <= 32
  {
    Entry(Lower(conf.name), Lower(conf.DomainName()), Normal(conf.suffix), net, NewAllocator(net))
  }

  function AddOf(s: State, conf: TailnetConf): Option<State> {
    match ParseCIDR(conf.cidr)
    case None => None
    case Some(net) =>
      if IndexOf(s.entries, Lower(conf.name)) < |s.entries| then None
      else Some(s.(entries := s.entries + [NewEntry(conf, net)], cidrs := s.cidrs + [net]))
  }

  function Without(entries: seq<Entry>, name: string): seq<Entry> {
    if entries == [] then []
    else
      var init, last := entries[..|entries| - 1], entries[|entries| - 1];
      if last.name == name then Without(init, name) else Without(init, name) + [last]
  }

  // The range of the last entry with that name.
  function GoneNet(entries: seq<Entry>, name: string): Option<Block> {
    if entries == [] then None
    else if entries[|entries| - 1].name == name then Some(entries[|entries| - 1].ipnet)
    else GoneNet(entries[..|entries| - 1], name)
  }

  function DropBlock(cidrs: seq<Block>, b: Block): seq<Block> {
    if cidrs == [] then []
    else
      var init, last := cidrs[..|cidrs| - 1], cidrs[|cidrs| - 1];
      if last == b then DropBlock(init, b) else DropBlock(init, b) + [last]
  }

  function Inside(byIP: map<nat, string>, b: Block): set<nat>
    requires b.ones <= 32
  {
    set ip | ip in byIP && Contains(b, ip)
  }

  function RemoveOf(s: State, tailnet: string): State
    requires forall e :: e in s.entries ==> e.ipnet.ones <= 32
  {
    var name := Lower(tailnet);
    match GoneNet(s.entries, name)
    case None => s
    case Some(gone) =>
      GoneNetIsEntry(s.entries, name);
      var ips := Inside(s.byIP, gone);
      State(Without(s.entries, name),
            s.byName - (set ip | ip in ips :: s.byIP[ip]),
            s.byIP - ips,
            DropBlock(s.cidrs, gone),
            s.resolvers - {name})
  }

  lemma {:induction false} GoneNetIsEntry(entries: seq<Entry>, name: string)
    ensures GoneNet(entries, name).Some?
        ==> exists e :: e in entries && e.name == name && e.ipnet == GoneNet(entries, name).value
    ensures GoneNet(entries, name).None? ==> forall e :: e in entries ==> e.name != name
  {
    if entries != [] {
      var init := entries[..|entries| - 1];
      GoneNetIsEntry(init, name);
      assert entries == init + [entries[|entries| - 1]];
    }
  }

  function SuffixOf(s: State, tailnet: string, suffix: string): State {
    var sfx, i := Normal(suffix), IndexOf(s.entries, Lower(tailnet));
    if sfx == "" || i == |s.entries| then s
    else s.(entries := s.entries[i := s.entries[i].(suffix := sfx)])
  }

  function DomainOf(s: State, tailnet: string, domain: string): State {
    var dom, i := Normal(domain), IndexOf(s.entries, Lower(tailnet));
    if dom == "" || i == |s.entries| then s
    else s.(entries := s.entries[i := s.entries[i].(domain := dom)])
  }

  // allocate: the address already held by the name, else the next one of the named tailnet's range.
  function AllocateOf(s: State, tailnet: string, fqdn: string): (State, Option<nat>) {
    if fqdn in s.byName then (s, Some(s.byName[fqdn]))
    else
      var i := IndexOf(s.entries, tailnet);
      if i == |s.entries| then (s, None)
      else
        match Take(s.entries[i].alloc)
        case None => (s, None)
        case Some((ip, alloc)) =>
          (s.(entries := s.entries[i := s.entries[i].(alloc := alloc)],
              byName := s.byName[fqdn := ip],
              byIP := s.byIP[ip := fqdn]),
           Some(ip))
  }

  function SeedOf(s: State, tailnet: string, fqdns: seq<string>): State {
    if fqdns == [] then s else AllocateOf(SeedOf(s, tailnet, fqdns[..|fqdns| - 1]), tailnet, fqdns[|fqdns| - 1]).0
  }

  // ---- the invariant ----

  ghost predicate Apart(a: Block, b: Block)
    requires a.ones <= 32 && b.ones <= 32
  {
    a.base + Size(a.ones) <= b.base || b.base + Size(b.ones) <= a.base
  }

  ghost predicate EntryOk(e: Entry) {
    && Wf(e.ipnet)
    && e.name == Lower(e.name)
    && e.alloc.base == e.ipnet.base
    && e.alloc.size == Size(e.ipnet.ones) % ADDRESS_SPACE
    && 1 <= e.alloc.next
    && (e.alloc.next == 1 || e.alloc.next < Size(e.ipnet.ones))
  }

  // An address handed out by this entry: past the network address, below the broadcast address, and at
  // an offset already taken.
  ghost predicate Owns(e: Entry, ip: nat)
    requires e.ipnet.ones <= 32
  {
    && e.ipnet.base < ip < e.ipnet.base + Size(e.ipnet.ones) - 1
    && ip < e.ipnet.base + e.alloc.next
  }

  function Nets(entries: seq<Entry>): seq<Block> {
    seq(|entries|, i requires 0 <= i < |entries| => entries[i].ipnet)
  }

  ghost predicate Inverse(byName: map<string, nat>, byIP: map<nat, string>) {
    && (forall f :: f in byName ==> byName[f] in byIP && byIP[byName[f]] == f)
    && (forall ip :: ip in byIP ==> byIP[ip] in byName && byName[byIP[ip]] == ip)
  }

  ghost predicate EntriesOk(entries: seq<Entry>) {
    && (forall i :: 0 <= i < |entries| ==> EntryOk(entries[i]))
    && (forall i, j :: 0 <= i < j < |entries| ==> entries[i].name != entries[j].name)
    && (forall i, j :: 0 <= i < j < |entries| ==> Apart(entries[i].ipnet, entries[j].ipnet))
  }

  ghost predicate HasOwner(entries: seq<Entry>, ip: nat) {
    exists i :: 0 <= i < |entries| && entries[i].ipnet.ones <= 32 && Owns(entries[i], ip)
  }

  ghost predicate Valid(s: State) {
    && EntriesOk(s.entries)
    && s.cidrs == Nets(s.entries)
    && Inverse(s.byName, s.byIP)
    && (forall ip :: ip in s.byIP ==> HasOwner(s.entries, ip))
  }

  lemma OnesBounded(s: State)
    requires EntriesOk(s.entries)
    ensures forall e :: e in s.entries ==> e.ipnet.ones <= 32
    ensures forall i :: 0 <= i < |s.entries| ==> s.entries[i].ipnet.ones <= 32
  {
  }

  lemma ApartMeansDisjoint(a: Block, b: Block)
    requires Wf(a) && Wf(b)
    ensures Apart(a, b) <==> Disjoint(a, b)
  {
    BaseTestsDecideOverlap(a, b);
    ContainsIsInterval(a, b.base);
    ContainsIsInterval(b, a.base);
  }

  // Exactly one entry owns a stored address.
  lemma OwnerIsUnique(s: State, ip: nat, i: nat, j: nat)
    requires Valid(s) && i < |s.entries| && j < |s.entries|
    requires Owns(s.entries[i], ip) && Contains(s.entries[j].ipnet, ip)
    ensures i == j
  {
    ContainsIsInterval(s.entries[j].ipnet, ip);
    assert i < j ==> Apart(s.entries[i].ipnet, s.entries[j].ipnet);
    assert j < i ==> Apart(s.entries[j].ipnet, s.entries[i].ipnet);
  }

  // ---- every operation keeps it ----

  lemma SizeFits(ones: nat)
    requires ones <= 32
    ensures Size(ones) <= ADDRESS_SPACE
    ensures (Size(ones) % ADDRESS_SPACE - 1) % ADDRESS_SPACE == Size(ones) - 1
  {
    Pow2Monotone(32 - ones, 32);
    Pow2Is32();
  }

  lemma SmallMod(x: nat)
    requires x < ADDRESS_SPACE
    ensures x % ADDRESS_SPACE == x
  {
  }

  // take hands out base+next without wrapping, until only the broadcast address is left.
  lemma TakeStaysInRange(e: Entry)
    requires EntryOk(e)
    ensures Take(e.alloc).Some? <==> e.alloc.next < Size(e.ipnet.ones) - 1
    ensures Take(e.alloc).Some? ==>
      var (ip, alloc) := Take(e.alloc).value;
      && ip == e.ipnet.base + e.alloc.next
      && alloc == e.alloc.(next := e.alloc.next + 1)
      && EntryOk(e.(alloc := alloc)) && Owns(e.(alloc := alloc), ip) && !Owns(e, ip)
      && Contains(e.ipnet, ip)
  {
    hide Size, Contains;
    SizeFits(e.ipnet.ones);
    ContainsIsInterval(e.ipnet, e.ipnet.base + e.alloc.next);
    if e.alloc.next < Size(e.ipnet.ones) - 1 {
      SmallMod(e.alloc.base + e.alloc.next);
      SmallMod(e.alloc.next + 1);
    }
  }

  ghost predicate FitsBeside(s: State, conf: TailnetConf) {
    ParseCIDR(conf.cidr).Some? ==>
      forall i :: 0 <= i < |s.entries| && s.entries[i].ipnet.ones <= 32
        ==> ParseCIDR(conf.cidr).value.ones <= 32 && Apart(s.entries[i].ipnet, ParseCIDR(conf.cidr).value)
  }

  lemma NewEntryOk(conf: TailnetConf)
    requires ParseCIDR(conf.cidr).Some?
    ensures ParseCIDR(conf.cidr).value.ones <= 32
    ensures EntryOk(NewEntry(conf, ParseCIDR(conf.cidr).value))
  {
    ParsedIsWf(conf.cidr);
    LowerIdempotent(conf.name);
  }

  lemma AddKeepsValid(s: State, conf: TailnetConf)
    requires Valid(s) && FitsBeside(s, conf) && AddOf(s, conf).Some?
    ensures Valid(AddOf(s, conf).value)
  {
    hide Owns, EntryOk, Apart, Lower, Inverse, Size, NewAllocator, Normal, ParseCIDR;
    NewEntryOk(conf);
    var s' := AddOf(s, conf).value;
    OnesBounded(s);
    assert EntriesOk(s'.entries);
    assert s'.cidrs == Nets(s'.entries);
    forall ip | ip in s'.byIP ensures HasOwner(s'.entries, ip) {
      var i :| 0 <= i < |s.entries| && Owns(s.entries[i], ip);
      assert s'.entries[i] == s.entries[i];
    }
  }

  // Under the invariant a removal drops one entry and one guard range, at the same place.
  lemma {:induction false} WithoutDropsOne(entries: seq<Entry>, name: string)
    requires EntriesOk(entries)
    ensures var i := IndexOf(entries, name);
      if i == |entries| then Without(entries, name) == entries && GoneNet(entries, name).None?
      else
        && Without(entries, name) == entries[..i] + entries[i + 1..]
        && GoneNet(entries, name) == Some(entries[i].ipnet)
        && DropBlock(Nets(entries), entries[i].ipnet) == Nets(Without(entries, name))
  {
    var i := IndexOf(entries, name);
    if i == |entries| {
      WithoutNone(entries, name);
    } else {
      WithoutAt(entries, name, i);
      DropBlockAt(entries, i);
    }
  }

  lemma {:induction false} WithoutNone(entries: seq<Entry>, name: string)
    requires forall j :: 0 <= j < |entries| ==> entries[j].name != name
    ensures Without(entries, name) == entries && GoneNet(entries, name).None?
  {
    if entries != [] {
      var init := entries[..|entries| - 1];
      assert forall j :: 0 <= j < |init| ==> init[j] == entries[j];
      WithoutNone(init, name);
      assert init + [entries[|entries| - 1]] == entries;
    }
  }

  lemma {:induction false} WithoutAt(entries: seq<Entry>, name: string, i: nat)
    requires i < |entries|
    requires forall j :: 0 <= j < |entries| ==> (entries[j].name == name <==> j == i)
    ensures Without(entries, name) == entries[..i] + entries[i + 1..]
    ensures GoneNet(entries, name) == Some(entries[i].ipnet)
  {
    var init := entries[..|entries| - 1];
    if i == |entries| - 1 {
      WithoutNone(init, name);
    } else {
      WithoutAt(init, name, i);
    }
  }

  lemma {:induction false} DropBlockNone(bs: seq<Block>, b: Block)
    requires b !in bs
    ensures DropBlock(bs, b) == bs
  {
    if bs != [] {
      DropBlockNone(bs[..|bs| - 1], b);
    }
  }

  lemma {:induction false} DropBlockOnce(bs: seq<Block>, i: nat)
    requires i < |bs|
    requires forall j :: 0 <= j < |bs| && j != i ==> bs[j] != bs[i]
    ensures DropBlock(bs, bs[i]) == bs[..i] + bs[i + 1..]
  {
    var init := bs[..|bs| - 1];
    if i == |bs| - 1 {
      DropBlockNone(init, bs[i]);
    } else {
      DropBlockOnce(init, i);
    }
  }

  lemma DropBlockAt(entries: seq<Entry>, i: nat)
    requires EntriesOk(entries) && i < |entries|
    ensures DropBlock(Nets(entries), entries[i].ipnet) == Nets(entries[..i] + entries[i + 1..])
  {
    forall j | 0 <= j < |entries| && j != i ensures entries[j].ipnet != entries[i].ipnet {
      if j < i {
        assert Apart(entries[j].ipnet, entries[i].ipnet);
      } else {
        assert Apart(entries[i].ipnet, entries[j].ipnet);
      }
    }
    DropBlockOnce(Nets(entries), i);
  }

  lemma RemoveKeepsValid(s: State, tailnet: string)
    requires Valid(s)
    ensures Sane(s)
    ensures Valid(RemoveOf(s, tailnet))
    ensures forall e :: e in RemoveOf(s, tailnet).entries <==> e in s.entries && e.name != Lower(tailnet)
  {
    hide Owns, Lower, Size, Apart, Contains, Inverse, HasOwner, IndexOf, EntryOk;
    OnesBounded(s);
    var i, s' := IndexOf(s.entries, Lower(tailnet)), RemoveOf(s, tailnet);
    WithoutDropsOne(s.entries, Lower(tailnet));
    if i < |s.entries| {
      DroppingOne(s.entries, i);
      RemoveKeepsInverse(s, s.entries[i].ipnet);
      forall ip | ip in s'.byIP ensures HasOwner(s'.entries, ip) {
        DroppingKeepsOwner(s, i, ip);
      }
    }
  }

  lemma DroppingOne(entries: seq<Entry>, i: nat)
    requires EntriesOk(entries) && i < |entries|
    ensures var es := entries[..i] + entries[i + 1..];
      EntriesOk(es) && forall e :: e in es <==> e in entries && e.name != entries[i].name
  {
    hide EntryOk, Apart;
    var es := entries[..i] + entries[i + 1..];
    assert forall j :: 0 <= j < |es| ==> es[j] == entries[if j < i then j else j + 1];
    forall e | e in entries && e.name != entries[i].name ensures e in es {
      var j :| 0 <= j < |entries| && entries[j] == e;
      assert es[if j < i then j else j - 1] == e;
    }
  }

  // Dropping entry i leaves the owner of an address outside its range in place.
  lemma DroppingKeepsEntry(s: State, i: nat, j: nat, ip: nat)
    requires Valid(s) && i < |s.entries| && j < |s.entries| && s.entries[j].ipnet.ones <= 32
    requires Owns(s.entries[j], ip) && s.entries[i].ipnet.ones <= 32 && !Contains(s.entries[i].ipnet, ip)
    ensures j != i
    ensures var es, k := s.entries[..i] + s.entries[i + 1..], if j < i then j else j - 1;
      k < |es| && es[k] == s.entries[j]
  {
    hide Inverse, Contains, EntriesOk;
    EntryAt(s.entries, i);
    ContainsIsInterval(s.entries[i].ipnet, ip);
  }

  lemma DroppingKeepsOwner(s: State, i: nat, ip: nat)
    requires Valid(s) && i < |s.entries| && ip in s.byIP
    requires s.entries[i].ipnet.ones <= 32 && !Contains(s.entries[i].ipnet, ip)
    ensures HasOwner(s.entries[..i] + s.entries[i + 1..], ip)
  {
    hide Inverse, Contains, EntriesOk, Owns;
    var j :| 0 <= j < |s.entries| && s.entries[j].ipnet.ones <= 32 && Owns(s.entries[j], ip);
    DroppingKeepsEntry(s, i, j, ip);
  }

  lemma EntryAt(entries: seq<Entry>, i: nat)
    requires EntriesOk(entries) && i < |entries|
    ensures EntryOk(entries[i])
  {
  }

  lemma RemoveKeepsInverse(s: State, gone: Block)
    requires Inverse(s.byName, s.byIP) && gone.ones <= 32
    ensures var ips := Inside(s.byIP, gone);
      Inverse(s.byName - (set ip | ip in ips :: s.byIP[ip]), s.byIP - ips)
  {
  }

  // Replacing one entry by another for the same range, with no fewer addresses taken, keeps the entries
  // in order and every owner in place.
  lemma ReplaceEntry(entries: seq<Entry>, i: nat, e: Entry)
    requires EntriesOk(entries) && i < |entries| && EntryOk(e)
    requires e.name == entries[i].name && e.ipnet == entries[i].ipnet && e.alloc.next >= entries[i].alloc.next
    ensures EntriesOk(entries[i := e]) && Nets(entries[i := e]) == Nets(entries)
    ensures forall ip :: HasOwner(entries, ip) ==> HasOwner(entries[i := e], ip)
  {
    hide EntryOk, Apart, Size;
    var es := entries[i := e];
    assert Nets(es) == Nets(entries);
    forall ip | HasOwner(entries, ip) ensures HasOwner(es, ip) {
      var j :| 0 <= j < |entries| && entries[j].ipnet.ones <= 32 && Owns(entries[j], ip);
      assert Owns(es[j], ip);
    }
  }

  lemma RelabelKeepsValid(s: State, i: nat, e: Entry)
    requires Valid(s) && i < |s.entries|
    requires e.name == s.entries[i].name && e.ipnet == s.entries[i].ipnet && e.alloc == s.entries[i].alloc
    ensures Valid(s.(entries := s.entries[i := e]))
  {
    hide HasOwner, Apart, Inverse;
    EntryAt(s.entries, i);
    ReplaceEntry(s.entries, i, e);
  }

  // A freshly minted address belongs to no stored name.
  lemma MintIsFresh(s: State, i: nat)
    requires Valid(s) && i < |s.entries| && Take(s.entries[i].alloc).Some?
    ensures Take(s.entries[i].alloc).value.0 !in s.byIP
  {
    var ip := Take(s.entries[i].alloc).value.0;
    TakeStaysInRange(s.entries[i]);
    if ip in s.byIP {
      var j :| 0 <= j < |s.entries| && Owns(s.entries[j], ip);
      OwnerIsUnique(s, ip, j, i);
    }
  }

  lemma AllocateKeepsValid(s: State, tailnet: string, fqdn: string)
    requires Valid(s)
    ensures Valid(AllocateOf(s, tailnet, fqdn).0)
  {
    hide Take, Apart, Contains, Size, EntryOk, EntriesOk, IndexOf;
    var i := IndexOf(s.entries, tailnet);
    if fqdn !in s.byName && i < |s.entries| && Take(s.entries[i].alloc).Some? {
      var (ip, alloc) := Take(s.entries[i].alloc).value;
      var e := s.entries[i].(alloc := alloc);
      OnesBounded(s);
      EntryAt(s.entries, i);
      TakeStaysInRange(s.entries[i]);
      MintIsFresh(s, i);
      ReplaceEntry(s.entries, i, e);
      assert HasOwner(s.entries[i := e], ip) by { assert Owns(s.entries[i := e][i], ip); }
    }
  }

  lemma {:induction false} SeedKeepsValid(s: State, tailnet: string, fqdns: seq<string>)
    requires Valid(s)
    ensures Valid(SeedOf(s, tailnet, fqdns))
  {
    if fqdns != [] {
      SeedKeepsValid(s, tailnet, fqdns[..|fqdns| - 1]);
      AllocateKeepsValid(SeedOf(s, tailnet, fqdns[..|fqdns| - 1]), tailnet, fqdns[|fqdns| - 1]);
    }
  }

  // A name not yet stored gets an address exactly when its tailnet string equals an entry's name, letter
  // for letter, and that range has an address left.
  lemma FreshNameIsMintedIff(s: State, tailnet: string, fqdn: string)
    requires Valid(s) && fqdn !in s.byName
    ensures AllocateOf(s, tailnet, fqdn).1.Some?
      <==> exists e :: e in s.entries && e.name == tailnet && e.alloc.next < Size(e.ipnet.ones) - 1
    ensures tailnet != Lower(tailnet) ==> AllocateOf(s, tailnet, fqdn).1.None?
  {
    var i := IndexOf(s.entries, tailnet);
    if i < |s.entries| {
      TakeStaysInRange(s.entries[i]);
      forall e | e in s.entries && e.name == tailnet ensures e == s.entries[i] {
        var j :| 0 <= j < |s.entries| && s.entries[j] == e;
      }
    }
  }

  // ---- runs ----

  datatype Op =
    | AddOp(conf: TailnetConf)
    | RemoveOp(tailnet: string)
    | SuffixOp(tailnet: string, suffix: string)
    | DomainOp(tailnet: string, domain: string)
    | AllocateOp(tailnet: string, fqdn: string)
    | SeedOp(tailnet: string, fqdns: seq<string>)

  // The states one operation can be applied in: ranges no wider than 32 bits, which parsing guarantees.
  ghost predicate Sane(s: State) {
    forall e :: e in s.entries ==> e.ipnet.ones <= 32
  }

  ghost function Apply(s: State, op: Op): State {
    match op
    case AddOp(conf) => (match AddOf(s, conf) case Some(s') => s' case None => s)
    case RemoveOp(t) => if Sane(s) then RemoveOf(s, t) else s
    case SuffixOp(t, x) => SuffixOf(s, t, x)
    case DomainOp(t, d) => DomainOf(s, t, d)
    case AllocateOp(t, f) => AllocateOf(s, t, f).0
    case SeedOp(t, fs) => SeedOf(s, t, fs)
  }

  ghost function Run(s: State, ops: seq<Op>): State {
    if ops == [] then s else Apply(Run(s, ops[..|ops| - 1]), ops[|ops| - 1])
  }

  // Along the run, every added range is apart from the ranges registered at that moment.
  ghost predicate RangesStayApart(s: State, ops: seq<Op>) {
    ops == [] ||
    (var init, last := ops[..|ops| - 1], ops[|ops| - 1];
     RangesStayApart(s, init) && (last.AddOp? ==> FitsBeside(Run(s, init), last.conf)))
  }

  lemma ApplyKeepsValid(s: State, op: Op)
    requires Valid(s)
    requires op.AddOp? ==> FitsBeside(s, op.conf)
    ensures Valid(Apply(s, op))
  {
    match op
    case AddOp(conf) => if AddOf(s, conf).Some? { AddKeepsValid(s, conf); }
    case RemoveOp(t) => RemoveKeepsValid(s, t);
    case SuffixOp(t, x) =>
      var i := IndexOf(s.entries, Lower(t));
      if i < |s.entries| && Normal(x) != "" { RelabelKeepsValid(s, i, s.entries[i].(suffix := Normal(x))); }
    case DomainOp(t, d) =>
      var i := IndexOf(s.entries, Lower(t));
      if i < |s.entries| && Normal(d) != "" { RelabelKeepsValid(s, i, s.entries[i].(domain := Normal(d))); }
    case AllocateOp(t, f) => AllocateKeepsValid(s, t, f);
    case SeedOp(t, fs) => SeedKeepsValid(s, t, fs);
  }

  // Over any run with disjoint ranges the two indexes stay mutual inverses and every stored address has
  // exactly one owner.
  lemma {:induction false} RunKeepsValid(s: State, ops: seq<Op>)
    requires Valid(s) && RangesStayApart(s, ops)
    ensures Valid(Run(s, ops))
  {
    if ops != [] {
      RunKeepsValid(s, ops[..|ops| - 1]);
      ApplyKeepsValid(Run(s, ops[..|ops| - 1]), ops[|ops| - 1]);
    }
  }

  // ---- removal without disjoint ranges ----

  // A removal forgets a name exactly when its address lies in the range of the removed tailnet, whoever
  // owns it; a removal of a tailnet that is not there forgets nothing.
  lemma RemoveForgetsIff(s: State, tailnet: string, f: string)
    requires Sane(s) && Inverse(s.byName, s.byIP) && f in s.byName
    ensures var gone := GoneNet(s.entries, Lower(tailnet));
      && (gone.Some? ==> gone.value.ones <= 32)
      && (f !in RemoveOf(s, tailnet).byName <==> gone.Some? && Contains(gone.value, s.byName[f]))
  {
    hide Lower, Contains, Without, DropBlock;
    GoneNetIsEntry(s.entries, Lower(tailnet));
  }

  lemma {:induction false} DropBlockMembers(cidrs: seq<Block>, b: Block)
    ensures forall c :: c in DropBlock(cidrs, b) <==> c in cidrs && c != b
  {
    if cidrs != [] {
      DropBlockMembers(cidrs[..|cidrs| - 1], b);
      assert cidrs == cidrs[..|cidrs| - 1] + [cidrs[|cidrs| - 1]];
    }
  }

  // And it drops a guard range exactly when that is the range of the removed tailnet, though another tailnet
  // may still be guarded by it.
  lemma RemoveDropsGuardIff(s: State, tailnet: string, b: Block)
    requires Sane(s) && b in s.cidrs
    ensures b !in RemoveOf(s, tailnet).cidrs <==> GoneNet(s.entries, Lower(tailnet)) == Some(b)
  {
    hide Lower, Without, DropBlock;
    GoneNetIsEntry(s.entries, Lower(tailnet));
    if GoneNet(s.entries, Lower(tailnet)).Some? { DropBlockMembers(s.cidrs, GoneNet(s.entries, Lower(tailnet)).value); }
  }

  // Without disjoint ranges removal forgets another tailnet's names and guard: two entries, one range.
  lemma SharedRangeLosesNames(e: Entry, f: Entry)
    requires e.name == "a" && f.name == "b" && e.ipnet == f.ipnet == Block(0, 24)
    ensures var s' := RemoveOf(State([e, f], map["x" := 1], map[1 := "x"], [Block(0, 24), Block(0, 24)], {}), "b");
      s'.entries == [e] && s'.cidrs == [] && "x" !in s'.byName
  {
    hide Lower, Contains;
    var b := Block(0, 24);
    assert Lower("b") == "b" by { LowerOfB(); }
    TwoWithout(e, f);
    assert [b, b][..1] == [b] && [b][..0] == [];
    assert DropBlock([b], b) == [] && DropBlock([b, b], b) == DropBlock([b, b][..1], b);
    OneIsInside(map[1 := "x"]);
  }

  lemma TwoWithout(e: Entry, f: Entry)
    requires e.name == "a" && f.name == "b"
    ensures Without([e, f], "b") == [e] && GoneNet([e, f], "b") == Some(f.ipnet)
  {
    assert [e, f][..1] == [e];
    WithoutNone([e], "b");
  }

  lemma OneIsInside(byIP: map<nat, string>)
    requires 1 in byIP
    ensures 1 in Inside(byIP, Block(0, 24))
  {
    SizeOf24();
  }

  lemma LowerOfB()
    ensures Lower("b") == "b"
  {
  }

  lemma SizeOf24()
    ensures Size(24) == 256
  {
    assert Pow2(4) == 16;
    Pow2Add(4, 4);
  }
}
