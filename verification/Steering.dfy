/** Steering over whole runs: an address once handed out keeps its name, and lies in the range of the
    tailnet the name matches. */
module Steering {
  import opened Text
  import opened Cidr
  import opened Config
  import opened Matching
  import opened RegistrySpec

  // The name f holds an address of the live tailnet t.
  ghost predicate HeldBy(s: State, f: string, t: string) {
    f in s.byName &&
    exists i :: 0 <= i < |s.entries| && s.entries[i].name == t && s.entries[i].ipnet.ones <= 32
      && Owns(s.entries[i], s.byName[f])
  }

  lemma OwnerSurvivesReplace(s: State, f: string, t: string, i: nat, e: Entry)
    requires EntriesOk(s.entries) && HeldBy(s, f, t) && i < |s.entries| && EntryOk(e)
    requires e.name == s.entries[i].name && e.ipnet == s.entries[i].ipnet && e.alloc.next >= s.entries[i].alloc.next
    ensures HeldBy(s.(entries := s.entries[i := e]), f, t)
  {
    hide EntryOk, Apart, Size;
    var j :| 0 <= j < |s.entries| && s.entries[j].name == t && s.entries[j].ipnet.ones <= 32
      && Owns(s.entries[j], s.byName[f]);
    assert Owns(s.entries[i := e][j], s.byName[f]);
  }

  lemma AllocateKeepsHeld(s: State, tailnet: string, fqdn: string, f: string, t: string)
    requires Valid(s) && HeldBy(s, f, t)
    ensures HeldBy(AllocateOf(s, tailnet, fqdn).0, f, t)
    ensures AllocateOf(s, tailnet, fqdn).0.byName[f] == s.byName[f]
  {
    hide Take, EntryOk, Apart, Size, Contains, Owns, IndexOf;
    var i := IndexOf(s.entries, tailnet);
    if fqdn !in s.byName && i < |s.entries| && Take(s.entries[i].alloc).Some? {
      EntryAt(s.entries, i);
      TakeStaysInRange(s.entries[i]);
      var e := s.entries[i].(alloc := Take(s.entries[i].alloc).value.1);
      OwnerSurvivesReplace(s, f, t, i, e);
    }
  }

  lemma {:induction false} SeedKeepsHeld(s: State, tailnet: string, fqdns: seq<string>, f: string, t: string)
    requires Valid(s) && HeldBy(s, f, t)
    ensures HeldBy(SeedOf(s, tailnet, fqdns), f, t)
    ensures SeedOf(s, tailnet, fqdns).byName[f] == s.byName[f]
  {
    if fqdns != [] {
      var init := fqdns[..|fqdns| - 1];
      SeedKeepsHeld(s, tailnet, init, f, t);
      SeedKeepsValid(s, tailnet, init);
      AllocateKeepsHeld(SeedOf(s, tailnet, init), tailnet, fqdns[|fqdns| - 1], f, t);
    }
  }

  lemma RemoveOtherKeepsHeld(s: State, tailnet: string, f: string, t: string)
    requires Valid(s) && Sane(s) && HeldBy(s, f, t) && Lower(tailnet) != t
    ensures HeldBy(RemoveOf(s, tailnet), f, t)
    ensures RemoveOf(s, tailnet).byName[f] == s.byName[f]
  {
    hide Lower, Size, Apart, EntryOk, Contains, Owns, EntriesOk;
    var i := IndexOf(s.entries, Lower(tailnet));
    WithoutDropsOne(s.entries, Lower(tailnet));
    if i < |s.entries| {
      HeldOutsideDropped(s, i, f, t);
    }
  }

  lemma HeldOutsideDropped(s: State, i: nat, f: string, t: string)
    requires Valid(s) && Sane(s) && HeldBy(s, f, t) && i < |s.entries| && s.entries[i].name != t
    ensures !Contains(s.entries[i].ipnet, s.byName[f])
    ensures var es, ip := s.entries[..i] + s.entries[i + 1..], s.byName[f];
      exists j :: 0 <= j < |es| && es[j].name == t && es[j].ipnet.ones <= 32 && Owns(es[j], ip)
  {
    hide Lower, Size, Apart, EntryOk, Contains, Owns, EntriesOk, Inverse;
    var ip := s.byName[f];
    var j :| 0 <= j < |s.entries| && s.entries[j].name == t && s.entries[j].ipnet.ones <= 32 && Owns(s.entries[j], ip);
    if Contains(s.entries[i].ipnet, ip) { OwnerIsUnique(s, ip, j, i); }
    DroppingKeepsEntry(s, i, j, ip);
  }

  // Removing the owning tailnet forgets the name and its address.
  lemma RemoveOwnerForgets(s: State, tailnet: string, f: string)
    requires Valid(s) && Sane(s) && HeldBy(s, f, Lower(tailnet))
    ensures f !in RemoveOf(s, tailnet).byName && s.byName[f] !in RemoveOf(s, tailnet).byIP
  {
    hide Lower, Apart, Contains, EntryOk, Owns, Inverse, Inside, Without, DropBlock, GoneNet, Nets;
    WithoutDropsOne(s.entries, Lower(tailnet));
    var j :| 0 <= j < |s.entries| && s.entries[j].name == Lower(tailnet) && s.entries[j].ipnet.ones <= 32
      && Owns(s.entries[j], s.byName[f]);
    OwnedIsInside(s, j, f);
  }

  lemma OwnedIsInside(s: State, j: nat, f: string)
    requires Valid(s) && f in s.byName && j < |s.entries| && s.entries[j].ipnet.ones <= 32
    requires Owns(s.entries[j], s.byName[f])
    ensures s.byName[f] in Inside(s.byIP, s.entries[j].ipnet) && s.byIP[s.byName[f]] == f
  {
    hide EntriesOk, Contains;
    EntryAt(s.entries, j);
    ContainsIsInterval(s.entries[j].ipnet, s.byName[f]);
  }

  lemma ApplyKeepsHeld(s: State, op: Op, f: string, t: string)
    requires Valid(s) && HeldBy(s, f, t)
    requires op.RemoveOp? ==> Lower(op.tailnet) != t
    ensures HeldBy(Apply(s, op), f, t) && Apply(s, op).byName[f] == s.byName[f]
  {
    hide Lower, EntryOk, Owns, Normal, NewEntry, IndexOf, Apart;
    match op
    case AddOp(conf) =>
      if AddOf(s, conf).Some? {
        var j :| 0 <= j < |s.entries| && s.entries[j].name == t && s.entries[j].ipnet.ones <= 32
          && Owns(s.entries[j], s.byName[f]);
        assert Apply(s, op).entries[j] == s.entries[j];
      }
    case RemoveOp(x) => OnesBounded(s); RemoveOtherKeepsHeld(s, x, f, t);
    case SuffixOp(x, sfx) =>
      var i := IndexOf(s.entries, Lower(x));
      if i < |s.entries| { RelabelKeepsHeld(s, f, t, i, s.entries[i].(suffix := Normal(sfx))); }
    case DomainOp(x, d) =>
      var i := IndexOf(s.entries, Lower(x));
      if i < |s.entries| { RelabelKeepsHeld(s, f, t, i, s.entries[i].(domain := Normal(d))); }
    case AllocateOp(x, g) => AllocateKeepsHeld(s, x, g, f, t);
    case SeedOp(x, gs) => SeedKeepsHeld(s, x, gs, f, t);
  }

  lemma RelabelKeepsHeld(s: State, f: string, t: string, i: nat, e: Entry)
    requires Valid(s) && HeldBy(s, f, t) && i < |s.entries|
    requires e.name == s.entries[i].name && e.ipnet == s.entries[i].ipnet && e.alloc == s.entries[i].alloc
    ensures HeldBy(s.(entries := s.entries[i := e]), f, t)
  {
    EntryAt(s.entries, i);
    OwnerSurvivesReplace(s, f, t, i, e);
  }

  // Until its tailnet is removed, a name keeps its address: lookup gives back the name, and allocate the
  // same address whatever tailnet it is asked for.
  lemma {:induction false} RunKeepsAddress(s: State, ops: seq<Op>, f: string, t: string)
    requires Valid(s) && RangesStayApart(s, ops) && HeldBy(s, f, t)
    requires forall k :: 0 <= k < |ops| && ops[k].RemoveOp? ==> Lower(ops[k].tailnet) != t
    ensures var s', ip := Run(s, ops), s.byName[f];
      && HeldBy(s', f, t)
      && s'.byName[f] == ip && ip in s'.byIP && s'.byIP[ip] == f
      && forall any :: AllocateOf(s', any, f) == (s', Some(ip))
  {
    if ops != [] {
      var init, last := ops[..|ops| - 1], ops[|ops| - 1];
      assert forall k :: 0 <= k < |init| ==> init[k] == ops[k];
      RunKeepsAddress(s, init, f, t);
      RunKeepsValid(s, init);
      assert last == ops[|ops| - 1];
      ApplyKeepsHeld(Run(s, init), last, f, t);
    }
    RunKeepsValid(s, ops);
  }

  // ---- the address lies in the range of the tailnet the name matches ----

  ghost predicate SuffixesApart(entries: seq<Entry>) {
    forall i, j :: 0 <= i < |entries| && 0 <= j < |entries| && i != j && entries[i].suffix != ""
      && entries[j].suffix != ""
      ==> !Under(entries[i].suffix, entries[j].suffix)
  }

  // Nothing is known of names given out while the suffix was not, until it is.
  predicate FitsSuffix(f: string, suffix: string) {
    suffix == "" || Under(f, suffix)
  }

  ghost predicate Homed(entries: seq<Entry>, f: string, ip: nat) {
    exists i :: 0 <= i < |entries| && entries[i].ipnet.ones <= 32
                && FitsSuffix(f, entries[i].suffix) && Owns(entries[i], ip)
  }

  // Every stored name lies under the real suffix of the tailnet that owns its address, once that is known.
  ghost predicate AllHomed(s: State) {
    forall f :: f in s.byName ==> Homed(s.entries, f, s.byName[f])
  }

  // The names a tailnet gave out before its suffix was known turn out to lie under it.
  ghost predicate FitsNames(s: State, e: Entry, suffix: string) {
    e.ipnet.ones <= 32 ==> forall f :: f in s.byName && Owns(e, s.byName[f]) ==> Under(f, suffix)
  }

  // The steps the daemon takes: a suffix fits the names given out before it and, once known, does not
  // change; names are allocated only under the real suffix of their tailnet when that is known (as match and
  // the selection resolver produce them).
  ghost predicate Steady(s: State, op: Op) {
    match op
    case AddOp(conf) => FitsBeside(s, conf)
    case RemoveOp(_) => true
    case SuffixOp(t, x) =>
      var i := IndexOf(s.entries, Lower(t));
      i < |s.entries| && Normal(x) != "" ==>
        if s.entries[i].suffix == "" then FitsNames(s, s.entries[i], Normal(x)) else Normal(x) == s.entries[i].suffix
    case DomainOp(_, _) => true
    case AllocateOp(t, f) => UnderOwnSuffix(s, t, f)
    case SeedOp(t, fs) => forall k :: 0 <= k < |fs| ==> UnderOwnSuffix(s, t, fs[k])
  }

  ghost predicate UnderOwnSuffix(s: State, t: string, f: string) {
    var i := IndexOf(s.entries, t);
    i < |s.entries| ==> FitsSuffix(f, s.entries[i].suffix)
  }

  ghost predicate SteadyRun(s: State, ops: seq<Op>) {
    ops == [] ||
    (var init, last := ops[..|ops| - 1], ops[|ops| - 1]; SteadyRun(s, init) && Steady(Run(s, init), last))
  }

  lemma HomedAfterReplace(entries: seq<Entry>, i: nat, e: Entry, f: string, ip: nat)
    requires EntriesOk(entries) && Homed(entries, f, ip) && i < |entries|
    requires e.ipnet == entries[i].ipnet && e.alloc.next >= entries[i].alloc.next
    requires entries[i].ipnet.ones <= 32 && Owns(entries[i], ip) && FitsSuffix(f, entries[i].suffix)
      ==> FitsSuffix(f, e.suffix)
    ensures Homed(entries[i := e], f, ip)
  {
    hide EntryOk, Apart, Size, FitsSuffix;
    var j :| 0 <= j < |entries| && entries[j].ipnet.ones <= 32 && FitsSuffix(f, entries[j].suffix)
      && Owns(entries[j], ip);
    assert Owns(entries[i := e][j], ip);
  }

  lemma AllocateKeepsHomed(s: State, t: string, f: string)
    requires Valid(s) && AllHomed(s) && UnderOwnSuffix(s, t, f)
    ensures AllHomed(AllocateOf(s, t, f).0)
    ensures forall t', f' :: UnderOwnSuffix(s, t', f') ==> UnderOwnSuffix(AllocateOf(s, t, f).0, t', f')
  {
    hide Take, EntryOk, Apart, Size, Contains, Owns, FitsSuffix;
    var i := IndexOf(s.entries, t);
    if f !in s.byName && i < |s.entries| && Take(s.entries[i].alloc).Some? {
      var (ip, alloc) := Take(s.entries[i].alloc).value;
      var e := s.entries[i].(alloc := alloc);
      EntryAt(s.entries, i);
      OnesBounded(s);
      TakeStaysInRange(s.entries[i]);
      var s' := AllocateOf(s, t, f).0;
      assert s'.entries[i] == e;
      forall g | g in s'.byName ensures Homed(s'.entries, g, s'.byName[g]) {
        if g != f { HomedAfterReplace(s.entries, i, e, g, s.byName[g]); }
      }
      forall t' ensures IndexOf(s'.entries, t') == IndexOf(s.entries, t') { IndexAfterReplace(s.entries, i, e, t'); }
    }
  }

  lemma IndexAfterReplace(entries: seq<Entry>, i: nat, e: Entry, t: string)
    requires i < |entries| && e.name == entries[i].name
    ensures IndexOf(entries[i := e], t) == IndexOf(entries, t)
  {
    assert forall j :: 0 <= j < |entries| ==> entries[i := e][j].name == entries[j].name;
  }

  lemma {:induction false} SeedKeepsHomed(s: State, t: string, fs: seq<string>)
    requires Valid(s) && AllHomed(s) && forall k :: 0 <= k < |fs| ==> UnderOwnSuffix(s, t, fs[k])
    ensures AllHomed(SeedOf(s, t, fs))
    ensures forall t', f' :: UnderOwnSuffix(s, t', f') ==> UnderOwnSuffix(SeedOf(s, t, fs), t', f')
  {
    hide UnderOwnSuffix, AllocateOf;
    if fs != [] {
      var init := fs[..|fs| - 1];
      assert forall k :: 0 <= k < |init| ==> init[k] == fs[k];
      SeedKeepsHomed(s, t, init);
      SeedKeepsValid(s, t, init);
      assert UnderOwnSuffix(s, t, fs[|fs| - 1]);
      AllocateKeepsHomed(SeedOf(s, t, init), t, fs[|fs| - 1]);
    }
  }

  lemma RemoveKeepsHomed(s: State, t: string)
    requires Valid(s) && Sane(s) && AllHomed(s)
    ensures AllHomed(RemoveOf(s, t))
  {
    hide Lower, Size, Apart, EntryOk, Owns, FitsSuffix, Contains;
    var i, s' := IndexOf(s.entries, Lower(t)), RemoveOf(s, t);
    WithoutDropsOne(s.entries, Lower(t));
    if i < |s.entries| {
      forall f | f in s'.byName ensures Homed(s'.entries, f, s'.byName[f]) {
        HomedAfterDrop(s, i, f);
      }
    }
  }

  lemma HomedAfterDrop(s: State, i: nat, f: string)
    requires Valid(s) && i < |s.entries| && f in s.byName && Homed(s.entries, f, s.byName[f])
    requires s.entries[i].ipnet.ones <= 32 && s.byName[f] !in Inside(s.byIP, s.entries[i].ipnet)
    ensures Homed(s.entries[..i] + s.entries[i + 1..], f, s.byName[f])
  {
    hide FitsSuffix, Apart, Contains, Owns, EntriesOk;
    var ip := s.byName[f];
    var j :| 0 <= j < |s.entries| && s.entries[j].ipnet.ones <= 32 && FitsSuffix(f, s.entries[j].suffix)
             && Owns(s.entries[j], ip);
    DroppingKeepsEntry(s, i, j, ip);
  }

  lemma AddKeepsHomed(s: State, conf: TailnetConf)
    requires Valid(s) && AllHomed(s) && AddOf(s, conf).Some?
    ensures AllHomed(AddOf(s, conf).value)
  {
    hide Lower, EntryOk, Owns, FitsSuffix, Normal, NewEntry, Apart, IndexOf, Valid;
    var s' := AddOf(s, conf).value;
    forall f | f in s'.byName ensures Homed(s'.entries, f, s'.byName[f]) {
      assert Homed(s.entries, f, s.byName[f]);
      var j :| 0 <= j < |s.entries| && s.entries[j].ipnet.ones <= 32 && FitsSuffix(f, s.entries[j].suffix)
               && Owns(s.entries[j], s.byName[f]);
      assert s'.entries[j] == s.entries[j];
    }
  }

  lemma ApplyKeepsHomed(s: State, op: Op)
    requires Valid(s) && AllHomed(s) && Steady(s, op)
    ensures AllHomed(Apply(s, op))
  {
    hide Lower, Homed, FitsNames, Normal, NewEntry, Apart, AllocateOf, SeedOf, EntryOk, UnderOwnSuffix, Inverse;
    match op
    case AddOp(conf) => if AddOf(s, conf).Some? { AddKeepsHomed(s, conf); }
    case RemoveOp(t) => OnesBounded(s); RemoveKeepsHomed(s, t);
    case SuffixOp(t, x) =>
      var i := IndexOf(s.entries, Lower(t));
      if i < |s.entries| && Normal(x) != "" { SuffixKeepsHomed(s, i, Normal(x)); }
    case DomainOp(t, d) =>
      var i := IndexOf(s.entries, Lower(t));
      if i < |s.entries| { RelabelKeepsHomed(s, i, s.entries[i].(domain := Normal(d))); }
    case AllocateOp(t, f) => AllocateKeepsHomed(s, t, f);
    case SeedOp(t, fs) => SeedKeepsHomed(s, t, fs);
  }

  lemma RelabelKeepsHomed(s: State, i: nat, e: Entry)
    requires Valid(s) && AllHomed(s) && i < |s.entries|
    requires e.ipnet == s.entries[i].ipnet && e.alloc == s.entries[i].alloc && e.suffix == s.entries[i].suffix
    ensures AllHomed(s.(entries := s.entries[i := e]))
  {
    hide EntryOk, Owns, FitsSuffix, Apart;
    forall f | f in s.byName ensures Homed(s.entries[i := e], f, s.byName[f]) {
      HomedAfterReplace(s.entries, i, e, f, s.byName[f]);
    }
  }

  lemma SuffixKeepsHomed(s: State, i: nat, suffix: string)
    requires Valid(s) && AllHomed(s) && i < |s.entries|
    requires if s.entries[i].suffix == "" then FitsNames(s, s.entries[i], suffix) else suffix == s.entries[i].suffix
    ensures AllHomed(s.(entries := s.entries[i := s.entries[i].(suffix := suffix)]))
  {
    hide EntryOk, Owns, Under, Apart;
    var e := s.entries[i].(suffix := suffix);
    forall f | f in s.byName ensures Homed(s.entries[i := e], f, s.byName[f]) {
      HomedAfterReplace(s.entries, i, e, f, s.byName[f]);
    }
  }

  lemma SteadyKeepsRangesApart(s: State, ops: seq<Op>)
    requires SteadyRun(s, ops)
    ensures RangesStayApart(s, ops)
  {
  }

  lemma {:induction false} SteadyRunKeepsHomed(s: State, ops: seq<Op>)
    requires Valid(s) && AllHomed(s) && SteadyRun(s, ops)
    ensures AllHomed(Run(s, ops))
  {
    if ops != [] {
      var init := ops[..|ops| - 1];
      SteadyRunKeepsHomed(s, init);
      SteadyKeepsRangesApart(s, init);
      RunKeepsValid(s, init);
      ApplyKeepsHomed(Run(s, init), ops[|ops| - 1]);
    }
  }

  // What a match names lies under the real suffix of the entry it names.
  lemma MatchNamesOwnSuffix(entries: seq<Entry>, query: string) returns (i: nat)
    requires WellStored(entries) && MatchName(entries, query).Found?
    ensures i < |entries| && entries[i].name == MatchName(entries, query).tailnet && entries[i].suffix != ""
    ensures Under(MatchName(entries, query).realFQDN, entries[i].suffix)
  {
    hide Under, AllKeys, Best, Lower, Canonical, Keys;
    var n := Normal(query);
    var k := Best(AllKeys(entries), n).value;
    var e := BestWins(entries, n);
    KeyOf(e, k);
    LowerOfNormal(query);
    CanonicalIsUnderSuffix(e, k, n);
    i :| 0 <= i < |entries| && entries[i] == e;
  }

  // In any sound state, the address granted for a name is one of the named tailnet exactly when the name had
  // none yet or held one of that tailnet already.
  lemma SteeredIff(s: State, t: string, f: string)
    requires Valid(s) && AllocateOf(s, t, f).1.Some?
    ensures var (s', ip) := AllocateOf(s, t, f);
      && (HeldBy(s', f, t) <==> f !in s.byName || HeldBy(s, f, t))
      && f in s'.byName && s'.byName[f] == ip.value && ip.value in s'.byIP && s'.byIP[ip.value] == f
  {
    hide EntryOk, Apart, Take, Contains, Size, HasOwner;
    if f !in s.byName {
      var k := IndexOf(s.entries, t);
      OnesBounded(s);
      EntryAt(s.entries, k);
      TakeStaysInRange(s.entries[k]);
      var s' := AllocateOf(s, t, f).0;
      assert Owns(s'.entries[k], s'.byName[f]);
    }
  }

  // The tailnet the name's address came from, if it has one, knows its suffix.
  ghost predicate OwnerKnown(s: State, f: string) {
    f in s.byName ==>
      exists i :: 0 <= i < |s.entries| && s.entries[i].ipnet.ones <= 32 && s.entries[i].suffix != ""
        && Owns(s.entries[i], s.byName[f])
  }

  // The address given for a query is stored under the canonical name, in the range of the tailnet the
  // query matched.
  lemma SteeredToMatchedTailnet(s: State, query: string)
    requires Valid(s) && AllHomed(s) && WellStored(s.entries) && SuffixesApart(s.entries)
    requires MatchName(s.entries, query).Found? && OwnerKnown(s, MatchName(s.entries, query).realFQDN)
    ensures var Found(t, f, _) := MatchName(s.entries, query);
      var (s', ip) := AllocateOf(s, t, f);
      ip.Some? ==> HeldBy(s', f, t) && s'.byName[f] == ip.value && s'.byIP[ip.value] == f
  {
    hide AllocateOf, Valid, AllHomed, SuffixesApart, HeldBy, OwnerKnown;
    var Found(t, f, _) := MatchName(s.entries, query);
    var k := MatchNamesOwnSuffix(s.entries, query);
    if AllocateOf(s, t, f).1.Some? {
      SteeredIff(s, t, f);
      if f in s.byName { HomeIsNamedTailnet(s, t, f, k); }
    }
  }

  // A name that has an address has it from the tailnet whose suffix it lies under.
  lemma HomeIsNamedTailnet(s: State, t: string, f: string, k: nat)
    requires Valid(s) && AllHomed(s) && SuffixesApart(s.entries) && f in s.byName && OwnerKnown(s, f)
    requires k < |s.entries| && s.entries[k].name == t && s.entries[k].suffix != "" && Under(f, s.entries[k].suffix)
    ensures HeldBy(s, f, t)
  {
    hide Under, EntriesOk, Owns, Inverse, HasOwner;
    var ip := s.byName[f];
    assert Homed(s.entries, f, ip);
    var j :| 0 <= j < |s.entries| && s.entries[j].ipnet.ones <= 32 && FitsSuffix(f, s.entries[j].suffix)
      && Owns(s.entries[j], ip);
    var i :| 0 <= i < |s.entries| && s.entries[i].ipnet.ones <= 32 && s.entries[i].suffix != ""
      && Owns(s.entries[i], ip);
    OwnsIsInside(s, i, ip);
    OwnerIsUnique(s, ip, j, i);
    NestedIfBothEnd(f, s.entries[j].suffix, s.entries[k].suffix);
    assert j == k;
  }

  lemma OwnsIsInside(s: State, i: nat, ip: nat)
    requires Valid(s) && i < |s.entries| && s.entries[i].ipnet.ones <= 32 && Owns(s.entries[i], ip)
    ensures Contains(s.entries[i].ipnet, ip)
  {
    hide EntriesOk, Contains, Inverse, HasOwner;
    EntryAt(s.entries, i);
    ContainsIsInterval(s.entries[i].ipnet, ip);
  }

  lemma NestedIfBothEnd(f: string, a: string, b: string)
    requires Under(f, a) && Under(f, b)
    ensures Under(a, b) || Under(b, a)
  {
    if |a| < |b| { LongerIsUnderShorter(f, a, b); }
    else if |b| < |a| { LongerIsUnderShorter(f, b, a); }
    else { SameLengthSameKey(f, a, b); }
  }

  // With one real suffix below another the claim fails: the name "b.t", given out while only the suffix
  // "t" was known, keeps its address when it comes to match the tailnet with suffix "b.t".
  lemma NestedSuffixSteersAstray(s: State, x: Entry, y: Entry)
    requires x.name == x.domain == "x" && x.suffix == "t"
    requires y.name == y.domain == "y" && y.suffix == "b.t"
    requires Valid(s) && Sane(s) && s.entries == [x, y] && HeldBy(s, "b.t", "x")
    ensures MatchName(s.entries, "b.t") == Found("y", "b.t", true)
    ensures AllocateOf(s, "y", "b.t").1 == Some(s.byName["b.t"]) && !Contains(y.ipnet, s.byName["b.t"])
  {
    ExtendedSuffixBreaksCanonicalisation(x, y);
    HeldOutsideDropped(s, 1, "b.t", "x");
  }

  // ---- from the empty registry ----

  // Suffixes come without a second trailing dot.
  predicate Tidy(op: Op) {
    match op
    case AddOp(conf) => StoredSuffix(Normal(conf.suffix))
    case SuffixOp(_, x) => StoredSuffix(Normal(x))
    case _ => true
  }

  lemma {:induction false} SeedKeepsStored(s: State, t: string, fs: seq<string>)
    requires WellStored(s.entries)
    ensures WellStored(SeedOf(s, t, fs).entries)
  {
    hide StoredSuffix, Take;
    if fs != [] { SeedKeepsStored(s, t, fs[..|fs| - 1]); }
  }

  lemma ApplyKeepsStored(s: State, op: Op)
    requires Valid(s) && WellStored(s.entries) && Tidy(op)
    ensures WellStored(Apply(s, op).entries)
  {
    hide Valid, StoredSuffix, Take, Normal, Lower, RemoveOf;
    match op
    case RemoveOp(t) => RemoveKeepsValid(s, t);
    case SeedOp(t, fs) => SeedKeepsStored(s, t, fs);
    case _ =>
  }

  // Whatever the daemon does from an empty registry on, the indexes are mutual inverses, every address has
  // its owner, every name lies under its owner's suffix, and suffixes are in the form matching expects.
  lemma {:induction false} EveryReachableRegistry(ops: seq<Op>)
    requires SteadyRun(EMPTY, ops) && forall k :: 0 <= k < |ops| ==> Tidy(ops[k])
    ensures var s := Run(EMPTY, ops); Valid(s) && AllHomed(s) && WellStored(s.entries)
  {
    hide Tidy, Steady;
    SteadyKeepsRangesApart(EMPTY, ops);
    RunKeepsValid(EMPTY, ops);
    SteadyRunKeepsHomed(EMPTY, ops);
    if ops != [] {
      var n := |ops| - 1;
      assert forall k :: 0 <= k < n ==> ops[..n][k] == ops[k];
      EveryReachableRegistry(ops[..n]);
      ApplyKeepsStored(Run(EMPTY, ops[..n]), ops[n]);
    }
  }
}
