/** Applying selections: names seeded and allocated tailnet by tailnet, then written to the hosts file. */
module Applying {
  import opened Text
  import opened Cidr
  import opened Config
  import opened RegistrySpec
  import opened Hosts
  import opened HostAliases
  import Registry
  import Selection
  import Steering

  // A running tailnet with the selections just resolved for it.
  datatype Ready = Ready(conf: TailnetConf, resolved: seq<Selection.Selected>)

  function ShowAddress(ip: nat): string {
    Join(Quad(ip), '.')
  }

  function EntryFor(conf: TailnetConf, sel: Selection.Selected, ip: nat): HostsEntry {
    HostsEntry(ShowAddress(ip), TrimPrefix(sel.short, "svc:"), sel.fqdn, conf.name, conf.nativeDNS, conf.DomainName(),
      conf.domainHosts)
  }

  function FQDNs(resolved: seq<Selection.Selected>): seq<string> {
    seq(|resolved|, i requires 0 <= i < |resolved| => resolved[i].fqdn)
  }

  // One allocation per resolved name; a name that gets no address is left out.
  function EntriesOf(reg: State, conf: TailnetConf, resolved: seq<Selection.Selected>): (State, seq<HostsEntry>) {
    if resolved == [] then (reg, [])
    else
      var (before, es) := EntriesOf(reg, conf, resolved[..|resolved| - 1]);
      var sel := resolved[|resolved| - 1];
      var (after, ip) := AllocateOf(before, conf.name, sel.fqdn);
      (after, if ip.Some? then es + [EntryFor(conf, sel, ip.value)] else es)
  }

  // Addresses are seeded in the order of the sorted names first.
  function SeededOf(reg: State, r: Ready): State {
    SeedOf(reg, r.conf.name, Selection.SortStrings(FQDNs(r.resolved)))
  }

  function TailnetOf(reg: State, r: Ready): (State, seq<HostsEntry>) {
    EntriesOf(SeededOf(reg, r), r.conf, r.resolved)
  }

  function ApplyOf(reg: State, rs: seq<Ready>): (State, seq<HostsEntry>) {
    if rs == [] then (reg, [])
    else
      var (before, es) := ApplyOf(reg, rs[..|rs| - 1]);
      var (after, more) := TailnetOf(before, rs[|rs| - 1]);
      (after, es + more)
  }

  ghost function Written(es: seq<HostsEntry>): seq<HostsEntry> {
    seq(|es|, i requires 0 <= i < |es| => Final(es, es[i]))
  }

  // ---- the daemon's pass ----

  method AllocateAll(reg: Registry.Registry, conf: TailnetConf,
                     resolved: seq<Selection.Selected>) returns (es: seq<HostsEntry>)
    modifies reg
    ensures (reg.View(), es) == EntriesOf(old(reg.View()), conf, resolved)
  {
    hide EntryFor, AllocateOf;
    es := [];
    for i := 0 to |resolved|
      invariant (reg.View(), es) == EntriesOf(old(reg.View()), conf, resolved[..i])
    {
      assert resolved[..i + 1][..i] == resolved[..i];
      var ip := reg.Allocate(conf.name, resolved[i].fqdn);
      if ip.Some? {
        es := es + [EntryFor(conf, resolved[i], ip.value)];
      }
    }
    assert resolved[..|resolved|] == resolved;
  }

  // applySelections over the tailnets whose status could be had.
  method ApplySelections(reg: Registry.Registry, hosts: HostsFile, ready: seq<Ready>)
    modifies reg, hosts
    ensures var (reg', es) := ApplyOf(old(reg.View()), ready);
      reg.View() == reg' && hosts.file == WriteOf(old(hosts.file), Written(es))
  {
    hide TailnetOf, EntriesOf, SeedOf, WriteOf, FinalAlias;
    var es: seq<HostsEntry> := [];
    for i := 0 to |ready|
      invariant (reg.View(), es) == ApplyOf(old(reg.View()), ready[..i])
      invariant hosts.file == old(hosts.file)
    {
      assert ready[..i + 1][..i] == ready[..i];
      var before := es;
      ghost var was := reg.View();
      reg.Seed(ready[i].conf.name, Selection.SortStrings(FQDNs(ready[i].resolved)));
      var more := AllocateAll(reg, ready[i].conf, ready[i].resolved);
      assert (reg.View(), more) == TailnetOf(was, ready[i]) by { TailnetUnfolds(was, ready[i]); }
      es := before + more;
    }
    assert ready[..|ready|] == ready;
    var a := new HostsEntry[|es|](i requires 0 <= i < |es| => es[i]);
    assert a[..] == es;
    QualifyHostsAliases(a);
    assert a[..] == Written(es);
    hosts.WriteBlock(a[..]);
  }

  lemma TailnetUnfolds(reg: State, r: Ready)
    ensures TailnetOf(reg, r)
         == EntriesOf(SeedOf(reg, r.conf.name, Selection.SortStrings(FQDNs(r.resolved))), r.conf, r.resolved)
  {
  }

  // ---- every line is an address of the registry ----

  // No stored name loses or changes its address.
  ghost predicate Grows(a: State, b: State) {
    forall f :: f in a.byName ==> f in b.byName && b.byName[f] == a.byName[f]
  }

  ghost predicate Listed(reg: State, e: HostsEntry) {
    e.fqdn in reg.byName && e.ip == ShowAddress(reg.byName[e.fqdn])
  }

  lemma AllocateGrows(reg: State, t: string, f: string)
    ensures Grows(reg, AllocateOf(reg, t, f).0)
    ensures var (r, ip) := AllocateOf(reg, t, f); ip.Some? ==> f in r.byName && r.byName[f] == ip.value
  {
    hide Take, IndexOf;
  }

  lemma {:induction false} SeedGrows(reg: State, t: string, fs: seq<string>)
    ensures Grows(reg, SeedOf(reg, t, fs))
  {
    hide AllocateOf;
    if fs != [] {
      SeedGrows(reg, t, fs[..|fs| - 1]);
      AllocateGrows(SeedOf(reg, t, fs[..|fs| - 1]), t, fs[|fs| - 1]);
    }
  }

  lemma {:induction false} EntriesAreListed(reg: State, conf: TailnetConf, resolved: seq<Selection.Selected>)
    requires Valid(reg)
    ensures var (r, es) := EntriesOf(reg, conf, resolved);
      Valid(r) && Grows(reg, r) && forall e :: e in es ==> Listed(r, e)
  {
    hide Valid, AllocateOf, ShowAddress;
    if resolved != [] {
      var (before, es) := EntriesOf(reg, conf, resolved[..|resolved| - 1]);
      var f := resolved[|resolved| - 1].fqdn;
      EntriesAreListed(reg, conf, resolved[..|resolved| - 1]);
      AllocateKeepsValid(before, conf.name, f);
      AllocateGrows(before, conf.name, f);
    }
  }

  lemma {:induction false} ApplyIsListed(reg: State, rs: seq<Ready>)
    requires Valid(reg)
    ensures var (r, es) := ApplyOf(reg, rs);
      Valid(r) && Grows(reg, r) && forall e :: e in es ==> Listed(r, e)
  {
    hide Valid, EntriesOf, ShowAddress;
    if rs != [] {
      var (before, es) := ApplyOf(reg, rs[..|rs| - 1]);
      var r := rs[|rs| - 1];
      ApplyIsListed(reg, rs[..|rs| - 1]);
      SeedGrows(before, r.conf.name, Selection.SortStrings(FQDNs(r.resolved)));
      SeedKeepsValid(before, r.conf.name, Selection.SortStrings(FQDNs(r.resolved)));
      EntriesAreListed(SeededOf(before, r), r.conf, r.resolved);
    }
  }

  lemma ShowIsInjective(a: nat, b: nat)
    requires a < ADDRESS_SPACE && b < ADDRESS_SPACE && ShowAddress(a) == ShowAddress(b)
    ensures a == b
  {
    QuadLacks(a, '.');
    QuadLacks(b, '.');
    SplitOfJoin(Quad(a), '.');
    SplitOfJoin(Quad(b), '.');
    ParsedQuad(a);
    ParsedQuad(b);
  }

  lemma StoredIsAddress(reg: State, f: string)
    requires Valid(reg) && f in reg.byName
    ensures reg.byName[f] in reg.byIP && reg.byIP[reg.byName[f]] == f && reg.byName[f] < ADDRESS_SPACE
  {
    hide EntriesOk;
    OnesBounded(reg);
    var i :| 0 <= i < |reg.entries| && reg.entries[i].ipnet.ones <= 32 && Owns(reg.entries[i], reg.byName[f]);
    EntryAt(reg.entries, i);
  }

  // In the entries assembled for the hosts file one name has one address and one address one name, and each
  // address still looks up to the name beside it.
  lemma EntriesMatchRegistry(reg: State, rs: seq<Ready>, i: nat, j: nat)
    requires Valid(reg) && i < |ApplyOf(reg, rs).1| && j < |ApplyOf(reg, rs).1|
    ensures var (r, es) := ApplyOf(reg, rs);
      && es[i].fqdn in r.byName && r.byName[es[i].fqdn] in r.byIP && r.byIP[r.byName[es[i].fqdn]] == es[i].fqdn
      && es[i].ip == ShowAddress(r.byName[es[i].fqdn])
      && (es[i].fqdn == es[j].fqdn <==> es[i].ip == es[j].ip)
  {
    hide Valid, ApplyOf, ShowAddress;
    ApplyIsListed(reg, rs);
    var (r, es) := ApplyOf(reg, rs);
    assert es[i] in es && es[j] in es;
    StoredIsAddress(r, es[i].fqdn);
    StoredIsAddress(r, es[j].fqdn);
    if es[i].ip == es[j].ip { ShowIsInjective(r.byName[es[i].fqdn], r.byName[es[j].fqdn]); }
  }

  // So the hosts file never gives one name two addresses, unless a full name that is written, as a fallback
  // or on a native line, is also kept as the alias of another address.
  lemma HostsFileIsUnambiguousIff(reg: State, rs: seq<Ready>)
    requires Valid(reg)
    ensures var es := ApplyOf(reg, rs).1;
      SameNameSameAddress(es) <==> forall i, j :: 0 <= i < |es| && 0 <= j < |es| ==> !FullNameClash(es, i, j)
  {
    hide Valid, ApplyOf, FullNameClash, SameNameSameAddress;
    var es := ApplyOf(reg, rs).1;
    forall i, j | 0 <= i < |es| && 0 <= j < |es| && es[i].fqdn == es[j].fqdn ensures es[i].ip == es[j].ip {
      EntriesMatchRegistry(reg, rs, i, j);
    }
    NamesAreUnambiguousIff(es);
  }

  // ---- running it again ----

  // Asking again for a name that has its address, or can get none, changes nothing.
  ghost predicate Settled(reg: State, t: string, f: string) {
    AllocateOf(reg, t, f).0 == reg
  }

  lemma AllocateSettles(reg: State, t: string, f: string, g: string)
    ensures var r := AllocateOf(reg, t, f).0;
      Settled(r, t, f) && (Settled(reg, t, g) ==> Settled(r, t, g))
  {
    hide Take;
    var r := AllocateOf(reg, t, f).0;
    var i := IndexOf(reg.entries, t);
    if f !in reg.byName && i < |reg.entries| && Take(reg.entries[i].alloc).Some? {
      Steering.IndexAfterReplace(reg.entries, i, r.entries[i], t);
      if Settled(reg, t, g) && g !in reg.byName {
        MintedIsNoMatch(reg, t, g);
      }
    }
  }

  // A name without an address is settled only when its tailnet has none to give.
  lemma MintedIsNoMatch(reg: State, t: string, g: string)
    requires Settled(reg, t, g) && g !in reg.byName
    ensures IndexOf(reg.entries, t) == |reg.entries| || Take(reg.entries[IndexOf(reg.entries, t)].alloc).None?
  {
    hide Take;
    var i := IndexOf(reg.entries, t);
    assert i < |reg.entries| && Take(reg.entries[i].alloc).Some? ==> g in AllocateOf(reg, t, g).0.byName;
  }

  lemma {:induction false} SeedSettles(reg: State, t: string, fs: seq<string>)
    ensures forall f :: f in fs ==> Settled(SeedOf(reg, t, fs), t, f)
  {
    hide AllocateOf;
    if fs != [] {
      var n := |fs| - 1;
      SeedSettles(reg, t, fs[..n]);
      assert fs == fs[..n] + [fs[n]];
      var before := SeedOf(reg, t, fs[..n]);
      forall f | f in fs ensures Settled(SeedOf(reg, t, fs), t, f) {
        AllocateSettles(before, t, fs[n], f);
      }
    }
  }

  lemma {:induction false} SettledEntries(reg: State, conf: TailnetConf, resolved: seq<Selection.Selected>)
    requires forall s :: s in resolved ==> Settled(reg, conf.name, s.fqdn)
    ensures EntriesOf(reg, conf, resolved).0 == reg
  {
    hide AllocateOf;
    if resolved != [] {
      var n := |resolved| - 1;
      assert resolved == resolved[..n] + [resolved[n]];
      SettledEntries(reg, conf, resolved[..n]);
    }
  }

  lemma FQDNsHold(resolved: seq<Selection.Selected>, s: Selection.Selected)
    requires s in resolved
    ensures s.fqdn in FQDNs(resolved)
  {
    var i :| 0 <= i < |resolved| && resolved[i] == s;
    assert FQDNs(resolved)[i] == s.fqdn;
  }

  // The seeding decides every address; the pass over the resolved names only reads them off.
  lemma SeedingDecides(reg: State, r: Ready)
    ensures TailnetOf(reg, r).0 == SeededOf(reg, r)
  {
    hide AllocateOf, SeedOf;
    var fs := Selection.SortStrings(FQDNs(r.resolved));
    SeedSettles(reg, r.conf.name, fs);
    forall s | s in r.resolved ensures Settled(SeededOf(reg, r), r.conf.name, s.fqdn) {
      FQDNsHold(r.resolved, s);
    }
    SettledEntries(SeededOf(reg, r), r.conf, r.resolved);
  }

  // ---- addresses do not depend on the order of the resolved names ----

  lemma {:induction false} StrLeTotal(a: string, b: string)
    ensures Selection.StrLe(a, b) || Selection.StrLe(b, a)
    ensures Selection.StrLe(a, b) && Selection.StrLe(b, a) ==> a == b
  {
    if a != "" && b != "" && a[0] == b[0] {
      StrLeTotal(a[1..], b[1..]);
      assert a == [a[0]] + a[1..] && b == [b[0]] + b[1..];
    }
  }

  lemma {:induction false} StrLeTransitive(a: string, b: string, c: string)
    requires Selection.StrLe(a, b) && Selection.StrLe(b, c)
    ensures Selection.StrLe(a, c)
  {
    if a != "" && b != "" && c != "" && a[0] == b[0] == c[0] { StrLeTransitive(a[1..], b[1..], c[1..]); }
  }

  lemma {:induction false} InsertsCommute(a: string, b: string, xs: seq<string>)
    ensures Selection.InsertSorted(a, Selection.InsertSorted(b, xs))
      == Selection.InsertSorted(b, Selection.InsertSorted(a, xs))
  {
    hide Selection.StrLe;
    StrLeTotal(a, b);
    if xs != [] {
      var x := xs[0];
      InsertsCommute(a, b, xs[1..]);
      StrLeTotal(a, x);
      StrLeTotal(b, x);
      if Selection.StrLe(a, b) && Selection.StrLe(b, x) { StrLeTransitive(a, b, x); }
      if Selection.StrLe(b, a) && Selection.StrLe(a, x) { StrLeTransitive(b, a, x); }
    }
  }

  // Sorting sees only which names there are.
  lemma {:induction false} SortOfFront(xs: seq<string>, i: nat)
    requires i < |xs|
    ensures Selection.SortStrings(xs) == Selection.InsertSorted(xs[i], Selection.SortStrings(xs[..i] + xs[i + 1..]))
  {
    if i == 0 {
      assert xs[..0] + xs[1..] == xs[1..];
    } else {
      var rest := xs[..i] + xs[i + 1..];
      SortOfFront(xs[1..], i - 1);
      assert rest[0] == xs[0] && rest[1..] == xs[1..][..i - 1] + xs[1..][i..];
      InsertsCommute(xs[0], xs[i], Selection.SortStrings(rest[1..]));
    }
  }

  lemma WithoutOne(ys: seq<string>, i: nat)
    requires i < |ys|
    ensures multiset(ys[..i] + ys[i + 1..]) == multiset(ys) - multiset{ys[i]}
    ensures multiset(ys[1..]) == multiset(ys) - multiset{ys[0]}
  {
    assert ys == ys[..i] + [ys[i]] + ys[i + 1..];
    assert ys == [ys[0]] + ys[1..];
  }

  lemma {:induction false} SortIgnoresOrder(xs: seq<string>, ys: seq<string>)
    requires multiset(xs) == multiset(ys)
    ensures Selection.SortStrings(xs) == Selection.SortStrings(ys)
    decreases |xs|
  {
    hide Selection.InsertSorted;
    assert |multiset(xs)| == |xs| && |multiset(ys)| == |ys|;
    if xs != [] {
      assert xs[0] in multiset(ys);
      var i :| 0 <= i < |ys| && ys[i] == xs[0];
      WithoutOne(xs, 0);
      WithoutOne(ys, i);
      SortIgnoresOrder(xs[1..], ys[..i] + ys[i + 1..]);
      SortOfFront(ys, i);
    }
  }

  // The same names selected, listed in any order, leave the registry in the same state: addresses are stable
  // across restarts although peers come from a map.
  lemma AddressesIgnoreOrder(reg: State, a: Ready, b: Ready)
    requires a.conf.name == b.conf.name && multiset(FQDNs(a.resolved)) == multiset(FQDNs(b.resolved))
    ensures TailnetOf(reg, a).0 == TailnetOf(reg, b).0
  {
    hide SeedOf;
    SeedingDecides(reg, a);
    SeedingDecides(reg, b);
    SortIgnoresOrder(FQDNs(a.resolved), FQDNs(b.resolved));
  }

  // ---- a second pass ----

  // The entries of the names that have an address.
  function StoredEntries(reg: State, conf: TailnetConf, resolved: seq<Selection.Selected>): seq<HostsEntry> {
    if resolved == [] then []
    else
      var es, sel := StoredEntries(reg, conf, resolved[..|resolved| - 1]), resolved[|resolved| - 1];
      if sel.fqdn in reg.byName then es + [EntryFor(conf, sel, reg.byName[sel.fqdn])] else es
  }

  lemma SettledAnswers(reg: State, t: string, f: string)
    requires Settled(reg, t, f)
    ensures AllocateOf(reg, t, f) == (reg, if f in reg.byName then Some(reg.byName[f]) else None)
  {
    hide Take;
  }

  lemma {:induction false} SettledList(reg: State, conf: TailnetConf, resolved: seq<Selection.Selected>)
    requires forall s :: s in resolved ==> Settled(reg, conf.name, s.fqdn)
    ensures EntriesOf(reg, conf, resolved) == (reg, StoredEntries(reg, conf, resolved))
  {
    hide AllocateOf, Settled, EntryFor;
    if resolved != [] {
      var n := |resolved| - 1;
      assert resolved == resolved[..n] + [resolved[n]];
      SettledList(reg, conf, resolved[..n]);
      SettledAnswers(reg, conf.name, resolved[n].fqdn);
    }
  }

  ghost predicate AllSettled(reg: State, r: Ready) {
    forall f :: f in FQDNs(r.resolved) ==> Settled(reg, r.conf.name, f)
  }

  // A tailnet's pass lists exactly its names that have an address when its seeding is done.
  lemma TailnetIs(reg: State, r: Ready)
    ensures TailnetOf(reg, r) == (SeededOf(reg, r), StoredEntries(SeededOf(reg, r), r.conf, r.resolved))
    ensures AllSettled(SeededOf(reg, r), r)
  {
    hide AllocateOf, SeedOf, Settled, EntriesOf, StoredEntries;
    SeedSettles(reg, r.conf.name, Selection.SortStrings(FQDNs(r.resolved)));
    forall s | s in r.resolved ensures Settled(SeededOf(reg, r), r.conf.name, s.fqdn) {
      FQDNsHold(r.resolved, s);
    }
    SettledList(SeededOf(reg, r), r.conf, r.resolved);
  }

  // An allocation for any tailnet unsettles nothing.
  lemma OthersSettle(reg: State, t: string, f: string, u: string, g: string)
    requires Settled(reg, u, g)
    ensures Settled(AllocateOf(reg, t, f).0, u, g)
  {
    hide Take;
    if t == u {
      AllocateSettles(reg, t, f, g);
    } else {
      var r := AllocateOf(reg, t, f).0;
      var i := IndexOf(reg.entries, t);
      if f !in reg.byName && i < |reg.entries| && Take(reg.entries[i].alloc).Some? {
        Steering.IndexAfterReplace(reg.entries, i, r.entries[i], u);
        if g !in reg.byName { MintedIsNoMatch(reg, u, g); }
      }
    }
  }

  lemma {:induction false} SeedKeepsSettled(reg: State, t: string, fs: seq<string>, u: string, g: string)
    requires Settled(reg, u, g)
    ensures Settled(SeedOf(reg, t, fs), u, g)
  {
    hide AllocateOf, Settled;
    if fs != [] {
      SeedKeepsSettled(reg, t, fs[..|fs| - 1], u, g);
      OthersSettle(SeedOf(reg, t, fs[..|fs| - 1]), t, fs[|fs| - 1], u, g);
    }
  }

  lemma {:induction false} ApplySettles(reg: State, rs: seq<Ready>)
    ensures forall r :: r in rs ==> AllSettled(ApplyOf(reg, rs).0, r)
  {
    hide TailnetOf, Settled, SeededOf, FQDNs;
    if rs != [] {
      var n := |rs| - 1;
      var before, last := ApplyOf(reg, rs[..n]).0, rs[n];
      ApplySettles(reg, rs[..n]);
      TailnetIs(before, last);
      assert rs == rs[..n] + [last];
      forall r, f | r in rs && f in FQDNs(r.resolved) ensures Settled(ApplyOf(reg, rs).0, r.conf.name, f) {
        if r in rs[..n] { SeededKeepsSettled(before, last, r.conf.name, f); }
      }
    }
  }

  lemma SeededKeepsSettled(reg: State, last: Ready, u: string, g: string)
    requires Settled(reg, u, g)
    ensures Settled(SeededOf(reg, last), u, g)
  {
    hide Settled, SeedOf;
    SeedKeepsSettled(reg, last.conf.name, Selection.SortStrings(FQDNs(last.resolved)), u, g);
  }

  // In a registry where all is settled, a pass changes nothing and lists what is stored.
  lemma SettledTailnet(reg: State, r: Ready)
    requires AllSettled(reg, r)
    ensures TailnetOf(reg, r) == (reg, StoredEntries(reg, r.conf, r.resolved))
  {
    hide SeedOf, EntriesOf, StoredEntries, Settled;
    var fs := Selection.SortStrings(FQDNs(r.resolved));
    SortKeepsMembers(FQDNs(r.resolved));
    SettledSeed(reg, r.conf.name, fs);
    forall s | s in r.resolved ensures Settled(reg, r.conf.name, s.fqdn) { FQDNsHold(r.resolved, s); }
    SettledList(reg, r.conf, r.resolved);
  }

  lemma {:induction false} SettledSeed(reg: State, t: string, fs: seq<string>)
    requires forall f :: f in fs ==> Settled(reg, t, f)
    ensures SeedOf(reg, t, fs) == reg
  {
    hide AllocateOf;
    if fs != [] {
      assert fs == fs[..|fs| - 1] + [fs[|fs| - 1]];
      SettledSeed(reg, t, fs[..|fs| - 1]);
      assert fs[|fs| - 1] in fs && Settled(reg, t, fs[|fs| - 1]);
    }
  }

  lemma {:induction false} SortKeepsMembers(xs: seq<string>)
    ensures forall x :: x in Selection.SortStrings(xs) <==> x in xs
  {
  }

  // What a second pass lists: the names stored by the end of the first.
  function SecondEntries(end: State, rs: seq<Ready>): seq<HostsEntry> {
    if rs == [] then []
    else SecondEntries(end, rs[..|rs| - 1]) + StoredEntries(end, rs[|rs| - 1].conf, rs[|rs| - 1].resolved)
  }

  lemma {:induction false} SettledApply(end: State, rs: seq<Ready>)
    requires forall r :: r in rs ==> AllSettled(end, r)
    ensures ApplyOf(end, rs) == (end, SecondEntries(end, rs))
  {
    hide TailnetOf, AllSettled, StoredEntries;
    if rs != [] {
      var n := |rs| - 1;
      assert rs == rs[..n] + [rs[n]];
      SettledApply(end, rs[..n]);
      SettledTailnet(end, rs[n]);
    }
  }

  // The registry when tailnet k has had its turn.
  function AfterTurn(reg: State, rs: seq<Ready>, k: nat): State
    requires k < |rs|
  {
    ApplyOf(reg, rs[..k + 1]).0
  }

  // No name that got no address in its own tailnet's turn got one from another tailnet later.
  ghost predicate NoneLate(reg: State, rs: seq<Ready>, end: State) {
    forall k, i :: 0 <= k < |rs| && 0 <= i < |rs[k].resolved| && rs[k].resolved[i].fqdn in end.byName
                   ==> rs[k].resolved[i].fqdn in AfterTurn(reg, rs, k).byName
  }

  ghost predicate NoneLateIn(a: State, b: State, resolved: seq<Selection.Selected>) {
    forall i :: 0 <= i < |resolved| && resolved[i].fqdn in b.byName ==> resolved[i].fqdn in a.byName
  }

  lemma {:induction false} MoreStored(a: State, b: State, conf: TailnetConf, resolved: seq<Selection.Selected>)
    requires Grows(a, b)
    ensures var x, y := StoredEntries(a, conf, resolved), StoredEntries(b, conf, resolved);
      |x| <= |y| && (x == y <==> NoneLateIn(a, b, resolved)) && (x == y <==> |x| == |y|)
  {
    hide EntryFor;
    if resolved != [] {
      var n := |resolved| - 1;
      MoreStored(a, b, conf, resolved[..n]);
      assert forall i :: 0 <= i < n ==> resolved[..n][i] == resolved[i];
      var x, y := StoredEntries(a, conf, resolved[..n]), StoredEntries(b, conf, resolved[..n]);
      var f := resolved[n].fqdn;
      assert NoneLateIn(a, b, resolved) <==> NoneLateIn(a, b, resolved[..n]) && (f in b.byName ==> f in a.byName);
      if f in a.byName { EqualEnds(x, y, EntryFor(conf, resolved[n], a.byName[f])); }
    }
  }

  lemma EqualEnds<T>(x: seq<T>, y: seq<T>, e: T)
    ensures x + [e] == y + [e] <==> x == y
  {
    if x + [e] == y + [e] {
      assert |x + [e]| == |y + [e]|;
      assert x == (x + [e])[..|x|] == (y + [e])[..|y|] == y;
    }
  }

  lemma TailnetGrows(reg: State, r: Ready)
    ensures Grows(reg, TailnetOf(reg, r).0)
  {
    hide SeedOf, EntriesOf;
    SeedingDecides(reg, r);
    SeedGrows(reg, r.conf.name, Selection.SortStrings(FQDNs(r.resolved)));
  }

  lemma GrowsOn(a: State, b: State, c: State)
    requires Grows(a, b) && Grows(b, c)
    ensures Grows(a, c)
  {
  }

  lemma {:induction false} SecondIsMore(reg: State, rs: seq<Ready>, end: State)
    requires Grows(ApplyOf(reg, rs).0, end)
    ensures var x, y := ApplyOf(reg, rs).1, SecondEntries(end, rs);
      |x| <= |y| && (x == y <==> |x| == |y|) && (x == y <==> NoneLate(reg, rs, end))
  {
    hide TailnetOf, StoredEntries, Grows, NoneLate, NoneLateIn;
    if rs == [] {
      NoneOfNone(reg, rs, end);
    } else {
      var n := |rs| - 1;
      var before, last := ApplyOf(reg, rs[..n]).0, rs[n];
      TailnetIs(before, last);
      TailnetGrows(before, last);
      GrowsOn(before, TailnetOf(before, last).0, end);
      SecondIsMore(reg, rs[..n], end);
      MoreStored(SeededOf(before, last), end, last.conf, last.resolved);
      NoneLateOneMore(reg, rs, end);
      EqualParts(ApplyOf(reg, rs[..n]).1, SecondEntries(end, rs[..n]),
                 StoredEntries(SeededOf(before, last), last.conf, last.resolved),
                 StoredEntries(end, last.conf, last.resolved));
    }
  }

  lemma NoneOfNone(reg: State, rs: seq<Ready>, end: State)
    requires rs == []
    ensures NoneLate(reg, rs, end)
  {
  }

  lemma NoneLateOneMore(reg: State, rs: seq<Ready>, end: State)
    requires rs != []
    ensures var n := |rs| - 1;
      NoneLate(reg, rs, end)
      <==> NoneLate(reg, rs[..n], end) && NoneLateIn(TailnetOf(ApplyOf(reg, rs[..n]).0, rs[n]).0, end, rs[n].resolved)
  {
    hide TailnetOf;
    var n := |rs| - 1;
    assert rs[..n + 1] == rs;
    assert AfterTurn(reg, rs, n) == TailnetOf(ApplyOf(reg, rs[..n]).0, rs[n]).0;
    forall k | 0 <= k < n ensures rs[..n][k] == rs[k] && AfterTurn(reg, rs[..n], k) == AfterTurn(reg, rs, k) {
      assert rs[..n][..k + 1] == rs[..k + 1];
    }
  }

  lemma EqualParts<T>(a: seq<T>, b: seq<T>, x: seq<T>, y: seq<T>)
    requires |a| <= |b| && |x| <= |y| && (a == b <==> |a| == |b|) && (x == y <==> |x| == |y|)
    ensures a + x == b + y <==> a == b && x == y
    ensures |a + x| <= |b + y| && (a + x == b + y <==> |a + x| == |b + y|)
  {
  }

  // Names of tailnets, hosts and domains have no line break in them.
  ghost predicate OneLine(r: Ready) {
    && '\n' !in r.conf.name && '\n' !in r.conf.DomainName()
    && forall i :: 0 <= i < |r.resolved| ==> '\n' !in r.resolved[i].short && '\n' !in r.resolved[i].fqdn
  }

  ghost predicate Plain(e: HostsEntry) {
    Renders(e) && '\n' !in e.domain
  }

  lemma AddressRenders(ip: nat)
    ensures var s := ShowAddress(ip); s != "" && '0' <= s[0] <= '9' && '\n' !in s
  {
    var q := Quad(ip);
    JoinLacks(q, '.', '\n');
    assert ShowAddress(ip) == q[0] + ['.'] + Join(q[1..], '.');
  }

  lemma {:induction false} JoinLacks(parts: seq<string>, sep: char, c: char)
    requires |parts| > 0 && c != sep && forall p :: p in parts ==> c !in p
    ensures c !in Join(parts, sep)
  {
    if |parts| > 1 { JoinLacks(parts[1..], sep, c); }
  }

  lemma {:induction false} StoredArePlain(reg: State, r: Ready, n: nat)
    requires OneLine(r) && n <= |r.resolved|
    ensures forall e :: e in StoredEntries(reg, r.conf, r.resolved[..n]) ==> Plain(e)
  {
    hide TailnetConf.DomainName, ShowAddress;
    if n > 0 {
      StoredArePlain(reg, r, n - 1);
      assert r.resolved[..n][..n - 1] == r.resolved[..n - 1];
      if r.resolved[n - 1].fqdn in reg.byName { AddressRenders(reg.byName[r.resolved[n - 1].fqdn]); }
    }
  }

  lemma {:induction false} ApplyIsPlain(reg: State, rs: seq<Ready>)
    requires forall r :: r in rs ==> OneLine(r)
    ensures forall e :: e in ApplyOf(reg, rs).1 ==> Plain(e)
  {
    hide TailnetOf, StoredEntries, OneLine, Plain, SeededOf;
    if rs != [] {
      var n := |rs| - 1;
      assert rs == rs[..n] + [rs[n]];
      ApplyIsPlain(reg, rs[..n]);
      TailnetIs(ApplyOf(reg, rs[..n]).0, rs[n]);
      StoredArePlain(SeededOf(ApplyOf(reg, rs[..n]).0, rs[n]), rs[n], |rs[n].resolved|);
      assert rs[n].resolved[..|rs[n].resolved|] == rs[n].resolved;
    }
  }

  lemma WrittenRenders(es: seq<HostsEntry>)
    requires forall e :: e in es ==> Plain(e)
    ensures AllRender(Written(es))
  {
    hide Collides;
    forall i | 0 <= i < |es| ensures Renders(Written(es)[i]) { assert es[i] in es; }
  }

  // Applying the same selections again never changes the registry; it leaves the list and the hosts file as
  // they are if and only if no name that was left out got an address from another tailnet later in the pass.
  lemma ApplyIsIdempotentIff(reg: State, rs: seq<Ready>, f: File)
    requires forall r :: r in rs ==> OneLine(r)
    ensures var (end, es) := ApplyOf(reg, rs);
      var (end', es') := ApplyOf(end, rs);
      var file := WriteOf(f, Written(es));
      && end' == end
      && (es' == es <==> NoneLate(reg, rs, end))
      && (WriteOf(file, Written(es')) == file <==> NoneLate(reg, rs, end))
  {
    hide ApplyOf, Written, WriteOf, AllRender, OneLine, Plain, NoneLate, SecondEntries, AllSettled;
    var (end, es) := ApplyOf(reg, rs);
    ApplySettles(reg, rs);
    SettledApply(end, rs);
    SecondIsMore(reg, rs, end);
    ApplyIsPlain(reg, rs);
    ApplyIsPlain(end, rs);
    WrittenRenders(es);
    WrittenRenders(SecondEntries(end, rs));
    WriteAbsorbsWrite(f, Written(es), Written(SecondEntries(end, rs)));
    WrittenLength(es);
    WrittenLength(SecondEntries(end, rs));
    if WriteOf(f, Written(es)) == WriteOf(f, Written(SecondEntries(end, rs))) {
      WriteTells(f, Written(es), Written(SecondEntries(end, rs)));
    }
  }

  lemma WrittenLength(es: seq<HostsEntry>)
    ensures |Written(es)| == |es|
  {
  }

  // It can fail: the first tailnet has no entry under that spelling of its name, the second has one and
  // selects the same full name.
  lemma LateName(reg: State, a: Ready, b: Ready, sel: Selection.Selected)
    requires a.resolved == [sel] && b.resolved == [sel] && sel.fqdn !in reg.byName
    requires IndexOf(reg.entries, a.conf.name) == |reg.entries| && AllocateOf(reg, b.conf.name, sel.fqdn).1.Some?
    ensures !NoneLate(reg, [a, b], ApplyOf(reg, [a, b]).0)
  {
    hide Take;
    assert [a, b][..1] == [a] && [a][..0] == [];
    SeedOne(reg, a, sel);
    SeedOne(reg, b, sel);
    SeedingDecides(reg, a);
    SeedingDecides(reg, b);
    assert ApplyOf(reg, []).0 == reg;
    assert ApplyOf(reg, [a]).0 == reg;
    assert AfterTurn(reg, [a, b], 0) == reg;
    assert ApplyOf(reg, [a, b]).0 == TailnetOf(reg, b).0;
    AllocateGrows(reg, b.conf.name, sel.fqdn);
    assert [a, b][0].resolved[0] == sel;
  }

  lemma SeedOne(reg: State, r: Ready, sel: Selection.Selected)
    requires r.resolved == [sel]
    ensures SeededOf(reg, r) == AllocateOf(reg, r.conf.name, sel.fqdn).0
  {
    hide AllocateOf;
    assert FQDNs(r.resolved) == [sel.fqdn];
    assert Selection.SortStrings([sel.fqdn]) == [sel.fqdn];
    assert [sel.fqdn][..0] == [];
    assert SeedOf(reg, r.conf.name, []) == reg;
  }
}
