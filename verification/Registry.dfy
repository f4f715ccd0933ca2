/** The registry as the daemon holds it: one object whose operations update the indexes in place. */
module Registry {
  import opened Text
  import opened Cidr
  import opened Config
  import opened Matching
  import opened RegistrySpec
  import Steering

  // What the DNS responder does with one question.
  datatype Reply = NXDomain | NoAnswer | AnswerA(ip: nat) | Forward

  class Registry {
    var entries: seq<Entry>
    var byName: map<string, nat>
    var byIP: map<nat, string>
    var cidrs: seq<Block>
    var resolvers: set<string>

    ghost function View(): State
      reads this
    {
      State(entries, byName, byIP, cidrs, resolvers)
    }

    constructor ()
      ensures View() == EMPTY && Valid(View())
    {
      entries, byName, byIP, cidrs, resolvers := [], map[], map[], [], {};
    }

    method Add(conf: TailnetConf) returns (ok: bool)
      modifies this
      ensures ok == AddOf(old(View()), conf).Some?
      ensures View() == if ok then AddOf(old(View()), conf).value else old(View())
    {
      var net := ParseCIDR(conf.cidr);
      if net.None? {
        return false;
      }
      var name := Lower(conf.name);
      for i := 0 to |entries|
        invariant forall j :: 0 <= j < i ==> entries[j].name != name
      {
        if entries[i].name == name {
          return false;
        }
      }
      entries := entries + [NewEntry(conf, net.value)];
      cidrs := cidrs + [net.value];
      ok := true;
    }

    method Remove(tailnet: string)
      requires Sane(View())
      modifies this
      ensures View() == RemoveOf(old(View()), tailnet)
    {
      var name := Lower(tailnet);
      var gone: Option<Block> := None;
      var kept: seq<Entry> := [];
      for i := 0 to |entries|
        invariant kept == Without(entries[..i], name) && gone == GoneNet(entries[..i], name)
      {
        assert entries[..i + 1][..i] == entries[..i];
        if entries[i].name == name {
          gone := Some(entries[i].ipnet);
        } else {
          kept := kept + [entries[i]];
        }
      }
      assert entries[..|entries|] == entries;
      GoneNetIsEntry(entries, name);
      if gone.None? {
        WithoutNone(entries, name);
        return;
      }
      entries := kept;
      DropGuard(gone.value);
      resolvers := resolvers - {name};
      Scrub(gone.value);
    }

    method DropGuard(gone: Block)
      modifies this`cidrs
      ensures cidrs == DropBlock(old(cidrs), gone)
    {
      var kept: seq<Block> := [];
      for i := 0 to |cidrs|
        invariant kept == DropBlock(cidrs[..i], gone)
      {
        assert cidrs[..i + 1][..i] == cidrs[..i];
        if cidrs[i] != gone {
          kept := kept + [cidrs[i]];
        }
      }
      assert cidrs[..|cidrs|] == cidrs;
      cidrs := kept;
    }

    // Visits the stored addresses in an arbitrary order.
    method Scrub(gone: Block)
      requires gone.ones <= 32
      modifies this`byName, this`byIP
      ensures var ips := Inside(old(byIP), gone);
        byIP == old(byIP) - ips && byName == old(byName) - (set ip | ip in ips :: old(byIP)[ip])
    {
      var todo := byIP.Keys;
      while todo != {}
        invariant todo <= old(byIP).Keys
        invariant byIP == old(byIP) - (Inside(old(byIP), gone) - todo)
        invariant byName == old(byName) - (set ip | ip in Inside(old(byIP), gone) - todo :: old(byIP)[ip])
        decreases todo
      {
        var ip :| ip in todo;
        if Contains(gone, ip) {
          assert Inside(old(byIP), gone) - (todo - {ip}) == (Inside(old(byIP), gone) - todo) + {ip};
          byName := byName - {byIP[ip]};
          byIP := byIP - {ip};
        } else {
          assert Inside(old(byIP), gone) - (todo - {ip}) == Inside(old(byIP), gone) - todo;
        }
        todo := todo - {ip};
      }
    }

    method RegisterSuffix(tailnet: string, suffix: string)
      modifies this
      ensures View() == SuffixOf(old(View()), tailnet, suffix)
    {
      var sfx := Normal(suffix);
      if sfx == "" {
        return;
      }
      for i := 0 to |entries|
        invariant forall j :: 0 <= j < i ==> entries[j].name != Lower(tailnet)
      {
        if entries[i].name == Lower(tailnet) {
          entries := entries[i := entries[i].(suffix := sfx)];
          return;
        }
      }
    }

    method RegisterDomain(tailnet: string, domain: string)
      modifies this
      ensures View() == DomainOf(old(View()), tailnet, domain)
    {
      var dom := Normal(domain);
      if dom == "" {
        return;
      }
      for i := 0 to |entries|
        invariant forall j :: 0 <= j < i ==> entries[j].name != Lower(tailnet)
      {
        if entries[i].name == Lower(tailnet) {
          entries := entries[i := entries[i].(domain := dom)];
          return;
        }
      }
    }

    method RegisterResolver(tailnet: string)
      modifies this
      ensures View() == old(View()).(resolvers := old(resolvers) + {Lower(tailnet)})
    {
      resolvers := resolvers + {Lower(tailnet)};
    }

    // The scan keeps the longest spelling seen so far; ties go to the earlier one.
    method MatchQuery(query: string) returns (m: Match)
      ensures m == MatchName(entries, query)
    {
      hide Best, Keys, Normal, Answer;
      var name := Normal(query);
      var bestLen := -1;
      m := NoMatch;
      EmptyBest(name);
      ghost var best: Option<Key> := None;
      assert m == Answer(best, name) by { NoAnswerYet(name); }
      for i := 0 to |entries|
        invariant best == Best(AllKeys(entries[..i]), name)
        invariant m == Answer(best, name) && bestLen == LengthOf(best)
      {
        assert entries[..i + 1][..i] == entries[..i];
        bestLen, m, best := TryEntry(name, entries[i], bestLen, m, best, AllKeys(entries[..i]));
      }
      assert entries[..|entries|] == entries;
    }

    // Tries the real suffix of one entry, then its name, then its domain.
    static method TryEntry(name: string, e: Entry, bestLen: int, m: Match, ghost best: Option<Key>,
                           ghost tried: seq<Key>)
      returns (bestLen': int, m': Match, ghost best': Option<Key>)
      requires best == Best(tried, name) && m == Answer(best, name) && bestLen == LengthOf(best)
      ensures best' == Best(tried + Keys(e), name) && m' == Answer(best', name) && bestLen' == LengthOf(best')
    {
      hide Best, Under, TrimSuffix;
      bestLen', m', best' := bestLen, m, best;
      ghost var ks := tried;
      if e.suffix != "" {
        ghost var k := Key(e.name, e.suffix, e.suffix, true);
        if Under(name, e.suffix) && |e.suffix| > bestLen' {
          bestLen', m' := |e.suffix|, Found(e.name, name, true);
        }
        BestStep(ks, k, name);
        ks, best' := ks + [k], Better(best', k, name);
      }
      bestLen', m' := Alias(name, e, e.name, bestLen', m', best');
      if e.name != "" && e.suffix != "" {
        ghost var k := Key(e.name, e.suffix, e.name, false);
        BestStep(ks, k, name);
        ks, best' := ks + [k], Better(best', k, name);
      }
      if e.domain != e.name {
        bestLen', m' := Alias(name, e, e.domain, bestLen', m', best');
        if e.domain != "" && e.suffix != "" {
          ghost var k := Key(e.name, e.suffix, e.domain, false);
          BestStep(ks, k, name);
          ks, best' := ks + [k], Better(best', k, name);
        }
      }
      assert ks == tried + Keys(e);
    }

    // One alias spelling: maps a name under sfx to the canonical name of entry e.
    static method Alias(name: string, e: Entry, sfx: string, bestLen: int, m: Match, ghost best: Option<Key>)
      returns (bestLen': int, m': Match)
      requires m == Answer(best, name) && bestLen == LengthOf(best)
      ensures var best' :=
                if sfx == "" || e.suffix == "" then best else Better(best, Key(e.name, e.suffix, sfx, false), name);
        m' == Answer(best', name) && bestLen' == LengthOf(best')
    {
      bestLen', m' := bestLen, m;
      if sfx == "" || e.suffix == "" || !Under(name, sfx) {
        return;
      }
      var short := TrimSuffix(name, "." + sfx);
      if short == name {
        short := "";
      }
      var fqdn := e.suffix;
      if short != "" {
        fqdn := short + "." + e.suffix;
      }
      if |sfx| > bestLen {
        bestLen', m' := |sfx|, Found(e.name, fqdn, false);
      }
    }

    // Is the name a live peer? A tailnet without a resolver yet lets every name through. peers lists what
    // the resolvers answer for at this moment.
    predicate Exists(tailnet: string, fqdn: string, peers: set<(string, string)>)
      reads this
    {
      tailnet !in resolvers || (tailnet, fqdn) in peers
    }

    // A bare name is tried under every known suffix, in entry order.
    method Locate(query: string, peers: set<(string, string)>) returns (r: Option<(string, string)>)
      ensures r.Some? ==> Exists(r.value.0, r.value.1, peers)
      ensures var m := MatchName(entries, query);
        m.Found? ==> r == if Exists(m.tailnet, m.realFQDN, peers) then Some((m.tailnet, m.realFQDN)) else None
      ensures MatchName(entries, query).NoMatch? ==>
        (match r
         case Some((t, f)) => exists i :: 0 <= i < |entries| && IsBareHit(i, query, t, f, peers)
         case None => forall i :: 0 <= i < |entries| && entries[i].suffix != "" ==>
                        !Exists(entries[i].name, Normal(query) + "." + entries[i].suffix, peers))
    {
      var m := MatchQuery(query);
      if m.Found? {
        if Exists(m.tailnet, m.realFQDN, peers) {
          return Some((m.tailnet, m.realFQDN));
        }
        return None;
      }
      var name := Normal(query);
      for i := 0 to |entries|
        invariant forall j :: 0 <= j < i && entries[j].suffix != ""
                    ==> !Exists(entries[j].name, name + "." + entries[j].suffix, peers)
      {
        var e := entries[i];
        if e.suffix != "" && Exists(e.name, name + "." + e.suffix, peers) {
          assert IsBareHit(i, query, e.name, name + "." + e.suffix, peers);
          return Some((e.name, name + "." + e.suffix));
        }
      }
      return None;
    }

    // Entry i is the first under which the bare name exists.
    ghost predicate IsBareHit(i: nat, query: string, t: string, f: string, peers: set<(string, string)>)
      requires i < |entries|
      reads this
    {
      && entries[i].suffix != "" && t == entries[i].name && f == Normal(query) + "." + entries[i].suffix
      && Exists(t, f, peers)
      && forall j :: 0 <= j < i && entries[j].suffix != ""
           ==> !Exists(entries[j].name, Normal(query) + "." + entries[j].suffix, peers)
    }

    method Allocate(tailnet: string, fqdn: string) returns (ip: Option<nat>)
      modifies this
      ensures (View(), ip) == AllocateOf(old(View()), tailnet, fqdn)
    {
      if fqdn in byName {
        return Some(byName[fqdn]);
      }
      var i := 0;
      while i < |entries| && entries[i].name != tailnet
        invariant 0 <= i <= |entries|
        invariant forall j :: 0 <= j < i ==> entries[j].name != tailnet
      {
        i := i + 1;
      }
      if i == |entries| {
        return None;
      }
      var taken := Take(entries[i].alloc);
      if taken.None? {
        return None;
      }
      var a := taken.value.0;
      entries := entries[i := entries[i].(alloc := taken.value.1)];
      byName := byName[fqdn := a];
      byIP := byIP[a := fqdn];
      return Some(a);
    }

    method Seed(tailnet: string, fqdns: seq<string>)
      modifies this
      ensures View() == SeedOf(old(View()), tailnet, fqdns)
    {
      for i := 0 to |fqdns|
        invariant View() == SeedOf(old(View()), tailnet, fqdns[..i])
      {
        var _ := Allocate(tailnet, fqdns[i]);
        assert fqdns[..i + 1][..i] == fqdns[..i];
      }
      assert fqdns[..|fqdns|] == fqdns;
    }

    // The guard knows an address exactly when some live tailnet's range holds it.
    method IsSynthetic(ip: nat) returns (b: bool)
      requires Valid(View())
      ensures b <==> exists e :: e in entries && e.ipnet.ones <= 32 && Contains(e.ipnet, ip)
      ensures ip in byIP ==> b
    {
      hide Valid, Contains;
      GuardIsRanges(View(), ip);
      b := false;
      for i := 0 to |cidrs|
        invariant forall j :: 0 <= j < i ==> !Contains(cidrs[j], ip)
      {
        if Contains(cidrs[i], ip) {
          return true;
        }
      }
    }

    method Lookup(ip: nat) returns (f: Option<string>)
      ensures f == if ip in byIP then Some(byIP[ip]) else None
    {
      f := if ip in byIP then Some(byIP[ip]) else None;
    }

    // ServeDNS. A miss under a real suffix is NXDOMAIN; a miss under an alias, and any name no tailnet
    // claims, goes upstream. An answer is the address the registry holds for the canonical name; in a sound
    // registry it looks up to that name and, while suffixes do not nest, is one of the matched tailnet.
    method ServeDNS(query: string, isA: bool, peers: set<(string, string)>) returns (reply: Reply)
      modifies this
      ensures var m := MatchName(old(entries), query);
        var known := m.Found? && old(Exists(m.tailnet, m.realFQDN, peers));
        match reply
        case NXDomain => m.Found? && m.authoritative && !known
        case Forward => m.Found? ==> !m.authoritative && !known
        case NoAnswer => known && (isA ==> AllocateOf(old(View()), m.tailnet, m.realFQDN).1.None?)
        case AnswerA(ip) => known && isA && AllocateOf(old(View()), m.tailnet, m.realFQDN) == (View(), Some(ip))
      ensures !reply.AnswerA? ==> View() == old(View())
      ensures old(Valid(View())) ==> Valid(View())
      ensures reply.AnswerA? && old(Valid(View())) ==>
                reply.ip in byIP && byIP[reply.ip] == MatchName(old(entries), query).realFQDN
      ensures reply.AnswerA? && old(Steerable(View(), query)) ==>
                Steering.HeldBy(View(), MatchName(old(entries), query).realFQDN, MatchName(old(entries), query).tailnet)
    {
      hide AllocateOf, Valid, MatchName, Steering.AllHomed, Steering.SuffixesApart, Steering.OwnerKnown, WellStored,
           Steering.HeldBy;
      var m := MatchQuery(query);
      if m.NoMatch? {
        return Forward;
      }
      if !Exists(m.tailnet, m.realFQDN, peers) {
        return if m.authoritative then NXDomain else Forward;
      }
      if !isA {
        return NoAnswer;
      }
      ghost var s := View();
      var ip := Allocate(m.tailnet, m.realFQDN);
      if Valid(s) {
        AllocateKeepsValid(s, m.tailnet, m.realFQDN);
        if ip.Some? { Steering.SteeredIff(s, m.tailnet, m.realFQDN); }
      }
      if Steerable(s, query) { Steering.SteeredToMatchedTailnet(s, query); }
      if ip.None? { NoneChangesNothing(s, m.tailnet, m.realFQDN); }
      return if ip.Some? then AnswerA(ip.value) else NoAnswer;
    }
  }

  // The states in which answers are steered to the matched tailnet.
  ghost predicate Steerable(s: State, query: string) {
    && Valid(s) && Steering.AllHomed(s) && WellStored(s.entries) && Steering.SuffixesApart(s.entries)
    && MatchName(s.entries, query).Found? && Steering.OwnerKnown(s, MatchName(s.entries, query).realFQDN)
  }

  lemma NoneChangesNothing(s: State, t: string, f: string)
    ensures AllocateOf(s, t, f).1.None? ==> AllocateOf(s, t, f).0 == s
  {
  }

  // The guard holds exactly the ranges of the entries, and they hold every stored address.
  lemma GuardIsRanges(s: State, ip: nat)
    requires Valid(s)
    ensures |s.cidrs| == |s.entries|
    ensures forall i :: 0 <= i < |s.cidrs| ==> s.cidrs[i].ones <= 32
    ensures (exists i :: 0 <= i < |s.cidrs| && s.cidrs[i].ones <= 32 && Contains(s.cidrs[i], ip))
       <==> exists e :: e in s.entries && e.ipnet.ones <= 32 && Contains(e.ipnet, ip)
    ensures ip in s.byIP ==> exists i :: 0 <= i < |s.cidrs| && s.cidrs[i].ones <= 32 && Contains(s.cidrs[i], ip)
  {
    hide EntriesOk, Contains, Owns, Inverse;
    OnesBounded(s);
    forall i | 0 <= i < |s.cidrs| ensures s.cidrs[i] == s.entries[i].ipnet && s.entries[i] in s.entries {}
    if e :| e in s.entries && e.ipnet.ones <= 32 && Contains(e.ipnet, ip) {
      var i :| 0 <= i < |s.entries| && s.entries[i] == e;
      assert Contains(s.cidrs[i], ip);
    }
    if ip in s.byIP {
      var i :| 0 <= i < |s.entries| && s.entries[i].ipnet.ones <= 32 && Owns(s.entries[i], ip);
      Steering.OwnsIsInside(s, i, ip);
      assert Contains(s.cidrs[i], ip);
    }
  }

  ghost function LengthOf(best: Option<Key>): int {
    if best.None? then -1 else |best.value.key|
  }

  lemma NoAnswerYet(name: string)
    ensures Answer(None, name) == NoMatch
  {
  }

  // The query is a spelling of host h of tailnet e, longest among those that end it.
  ghost predicate Spells(entries: seq<Entry>, e: Entry, h: string, query: string) {
    exists k :: k in Keys(e) && Normal(query) == h + "." + k.key
      && forall f, a :: f in entries && a in Keys(f) && Under(Normal(query), a.key) ==> |a.key| <= |k.key|
  }

  // Two spellings of one host, by real suffix, tailnet name or domain, in any letter case, share one address:
  // the first question is answered with it, and after anything else that leaves the tailnet and its suffix in
  // place, so is the second.
  lemma SpellingsShareAddress(s: State, e: Entry, h: string, q: string, ip: nat, ops: seq<Op>, e': Entry, q': string)
    requires Valid(s) && KeysApart(s.entries) && e in s.entries && h != "" && Spells(s.entries, e, h, q)
    requires FreeOrHeld(s, h + "." + e.suffix, e.name) && AllocateOf(s, e.name, h + "." + e.suffix).1 == Some(ip)
    requires RangesStayApart(AnsweredWith(s, e, h), ops)
    requires forall k :: 0 <= k < |ops| && ops[k].RemoveOp? ==> Lower(ops[k].tailnet) != e.name
    requires KeysApart(Run(AnsweredWith(s, e, h), ops).entries) && e' in Run(AnsweredWith(s, e, h), ops).entries
    requires e'.name == e.name && e'.suffix == e.suffix && Spells(Run(AnsweredWith(s, e, h), ops).entries, e', h, q')
    ensures IsCanonical(MatchName(s.entries, q), e, h)
    ensures IsCanonical(MatchName(Run(AnsweredWith(s, e, h), ops).entries, q'), e, h)
    ensures var end := Run(AnsweredWith(s, e, h), ops);
      AllocateOf(end, e.name, h + "." + e.suffix) == (end, Some(ip)) && ip in end.byIP
        && end.byIP[ip] == h + "." + e.suffix
  {
    hide Valid, KeysApart, Keys, Under, Normal, MatchName, AllocateOf, Steering.HeldBy, RangesStayApart, Run, Lower;
    var f, s' := h + "." + e.suffix, AnsweredWith(s, e, h);
    SpellingsAgree(s.entries, e, h, q);
    SpellingsAgree(Run(s', ops).entries, e', h, q');
    Steering.SteeredIff(s, e.name, f);
    AllocateKeepsValid(s, e.name, f);
    Steering.RunKeepsAddress(s', ops, f, e.name);
  }

  ghost predicate FreeOrHeld(s: State, f: string, t: string) {
    f !in s.byName || Steering.HeldBy(s, f, t)
  }

  // The registry once the host has been asked for.
  function AnsweredWith(s: State, e: Entry, h: string): State {
    AllocateOf(s, e.name, h + "." + e.suffix).0
  }

  ghost predicate IsCanonical(m: Match, e: Entry, h: string) {
    m.Found? && m.tailnet == e.name && m.realFQDN == h + "." + e.suffix
  }

  lemma SpellingsAgree(entries: seq<Entry>, e: Entry, h: string, query: string)
    requires KeysApart(entries) && e in entries && h != "" && Spells(entries, e, h, query)
    ensures IsCanonical(MatchName(entries, query), e, h)
  {
    hide KeysApart, Keys, Under, Normal, MatchName;
    var k :| k in Keys(e) && Normal(query) == h + "." + k.key
      && forall f, a :: f in entries && a in Keys(f) && Under(Normal(query), a.key) ==> |a.key| <= |k.key|;
    SpellingIsCanonical(entries, e, k, h, query);
  }
}
