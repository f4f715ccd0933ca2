/** The config file as a syntax tree: ordered members with their comments, and what parsing reads from them. */
module ConfigAst {
  import opened Text
  import opened Config
  import opened ConfigWrite

  // The member names the decoder knows, and every other name.
  datatype Key =
    | Mtu | DnsListen | UpstreamDNS | UiListen | HostsFile | StateDir | Tailnets
    | Name | Suffix | Domain | Cidr | Tun | Hostname | AuthKey | Enabled | ReportPosture
    | AllowAll | Resources | Locked | AutoSelect | NativeDNS | DomainHosts
    | Unknown(text: string)

  // A member's value. The root's tailnets array holds its elements beside the tree; JSON null decodes to
  // the zero value; Other is any value of a kind no key takes.
  datatype Val = Str(s: string) | Bool(b: bool) | Num(n: int) | Strs(items: seq<string>) | Array | Null
    | Other(text: string)

  // nameExtra and valExtra are the comments and spacing around the two halves.
  datatype Member = Member(name: Key, val: Val, nameExtra: string, valExtra: string)

  datatype Element = Element(members: seq<Member>, objectExtra: string, extra: string)

  datatype Doc = Doc(members: seq<Member>, elements: seq<Element>)

  // ---- reading members ----

  // The decoder keeps the last member of a name.
  function Lookup(ms: seq<Member>, key: Key): Option<Val> {
    if ms == [] then None
    else if ms[|ms| - 1].name == key then Some(ms[|ms| - 1].val)
    else Lookup(ms[..|ms| - 1], key)
  }

  function StrOf(v: Option<Val>): Option<string> {
    match v
    case None => Some("")
    case Some(Null) => Some("")
    case Some(Str(s)) => Some(s)
    case Some(_) => None
  }

  function BoolOf(v: Option<Val>): Option<bool> {
    match v
    case None => Some(false)
    case Some(Null) => Some(false)
    case Some(Bool(b)) => Some(b)
    case Some(_) => None
  }

  function FlagOf(v: Option<Val>): Option<Option<bool>> {
    match v
    case None => Some(None)
    case Some(Null) => Some(None)
    case Some(Bool(b)) => Some(Some(b))
    case Some(_) => None
  }

  function StrsOf(v: Option<Val>): Option<seq<string>> {
    match v
    case None => Some([])
    case Some(Null) => Some([])
    case Some(Strs(xs)) => Some(xs)
    case Some(_) => None
  }

  function NumOf(v: Option<Val>): Option<int> {
    match v
    case None => Some(0)
    case Some(Null) => Some(0)
    case Some(Num(n)) => Some(n)
    case Some(_) => None
  }

  // normalizeAutoRule on every rule; None when one is malformed.
  function NormalizeAll(rules: seq<string>, norm: string -> Option<string>): Option<seq<string>> {
    if rules == [] then Some([])
    else
      match (norm(rules[0]), NormalizeAll(rules[1..], norm))
      case (Some(r), Some(rs)) => Some([r] + rs)
      case _ => None
  }

  // A member holds a value its key can take.
  predicate WellTyped(ms: seq<Member>) {
    && StrOf(Lookup(ms, Name)).Some? && StrOf(Lookup(ms, Suffix)).Some? && StrOf(Lookup(ms, Domain)).Some?
    && StrOf(Lookup(ms, Cidr)).Some? && StrOf(Lookup(ms, Tun)).Some? && StrOf(Lookup(ms, Hostname)).Some?
    && StrOf(Lookup(ms, AuthKey)).Some? && FlagOf(Lookup(ms, Enabled)).Some? && BoolOf(Lookup(ms, ReportPosture)).Some?
    && BoolOf(Lookup(ms, AllowAll)).Some? && StrsOf(Lookup(ms, Resources)).Some? && StrsOf(Lookup(ms, Locked)).Some?
    && BoolOf(Lookup(ms, NativeDNS)).Some? && BoolOf(Lookup(ms, DomainHosts)).Some? && StrOf(Lookup(ms, StateDir)).Some?
  }

  // The record a tailnet object decodes to, its rules in the given form.
  function DecodeWith(ms: seq<Member>, rules: seq<string>): Option<TailnetConf> {
    if !WellTyped(ms) then None
    else
      Some(TailnetConf(
        StrOf(Lookup(ms, Name)).value, StrOf(Lookup(ms, Suffix)).value, StrOf(Lookup(ms, Domain)).value,
        StrOf(Lookup(ms, Cidr)).value, StrOf(Lookup(ms, Tun)).value, StrOf(Lookup(ms, Hostname)).value,
        StrOf(Lookup(ms, AuthKey)).value, FlagOf(Lookup(ms, Enabled)).value, BoolOf(Lookup(ms, ReportPosture)).value,
        BoolOf(Lookup(ms, AllowAll)).value, StrsOf(Lookup(ms, Resources)).value, StrsOf(Lookup(ms, Locked)).value,
          rules,
        BoolOf(Lookup(ms, NativeDNS)).value, BoolOf(Lookup(ms, DomainHosts)).value, StrOf(Lookup(ms, StateDir)).value))
  }

  // Member by member, the entry reads as the record, its rules aside.
  ghost predicate Reads(ms: seq<Member>, n: TailnetConf) {
    ReadsFixed(ms, n) && ReadsTexts(ms, n) && ReadsFlags(ms, n) && ReadsLists(ms, n)
  }

  ghost predicate ReadsFixed(ms: seq<Member>, n: TailnetConf) {
    && StrOf(Lookup(ms, Name)) == Some(n.name) && StrOf(Lookup(ms, Suffix)) == Some(n.suffix)
    && StrOf(Lookup(ms, Cidr)) == Some(n.cidr) && StrOf(Lookup(ms, Tun)) == Some(n.tun)
    && StrOf(Lookup(ms, StateDir)) == Some(n.stateDir)
  }

  ghost predicate ReadsTexts(ms: seq<Member>, n: TailnetConf) {
    && StrOf(Lookup(ms, Domain)) == Some(n.domain) && StrOf(Lookup(ms, Hostname)) == Some(n.hostname)
    && StrOf(Lookup(ms, AuthKey)) == Some(n.authKey)
  }

  ghost predicate ReadsFlags(ms: seq<Member>, n: TailnetConf) {
    && FlagOf(Lookup(ms, Enabled)) == Some(n.enabledFlag)
    && BoolOf(Lookup(ms, ReportPosture)) == Some(n.reportPosture) && BoolOf(Lookup(ms, AllowAll)) == Some(n.allowAll)
    && BoolOf(Lookup(ms, NativeDNS)) == Some(n.nativeDNS) && BoolOf(Lookup(ms, DomainHosts)) == Some(n.domainHosts)
  }

  ghost predicate ReadsLists(ms: seq<Member>, n: TailnetConf) {
    && StrsOf(Lookup(ms, Resources)) == Some(n.resources) && StrsOf(Lookup(ms, Locked)) == Some(n.locked)
  }

  lemma DecodeIsReads(ms: seq<Member>, n: TailnetConf)
    ensures DecodeWith(ms, n.autoSelect) == Some(n) <==> Reads(ms, n)
  {
    hide Lookup;
  }

  predicate Complete(tc: TailnetConf) {
    tc.name != "" && tc.cidr != "" && tc.tun != "" && ValidTailnetName(tc.name) && |tc.tun| <= 15
  }

  // One tailnet entry as parseConfig accepts it.
  function ParseTailnet(ms: seq<Member>, norm: string -> Option<string>): Option<TailnetConf> {
    match StrsOf(Lookup(ms, AutoSelect))
    case None => None
    case Some(raw) =>
      match NormalizeAll(raw, norm)
      case None => None
      case Some(rules) =>
        var tc := DecodeWith(ms, rules);
        if tc.Some? && Complete(tc.value) then tc else None
  }

  function ParseTailnets(els: seq<Element>, norm: string -> Option<string>): Option<seq<TailnetConf>> {
    if els == [] then Some([])
    else
      match (ParseTailnets(els[..|els| - 1], norm), ParseTailnet(els[|els| - 1].members, norm))
      case (Some(init), Some(last)) => Some(init + [last])
      case _ => None
  }

  // The daemon-wide fields, with the given tailnets.
  function DecodeGlobals(ms: seq<Member>, tailnets: seq<TailnetConf>): Option<Config> {
    var mtu, listen, upstream := NumOf(Lookup(ms, Mtu)), StrOf(Lookup(ms, DnsListen)), StrOf(Lookup(ms, UpstreamDNS));
    var ui, hosts, dir := StrOf(Lookup(ms, UiListen)), StrOf(Lookup(ms, HostsFile)), StrOf(Lookup(ms, StateDir));
    if mtu.Some? && listen.Some? && upstream.Some? && ui.Some? && hosts.Some? && dir.Some?
    then Some(Config(mtu.value, listen.value, upstream.value, ui.value, hosts.value, dir.value, tailnets))
    else None
  }

  // parseConfig.
  function ParseDoc(doc: Doc, norm: string -> Option<string>): Option<Config> {
    match ParseTailnets(doc.elements, norm)
    case None => None
    case Some(tailnets) =>
      var arr := Lookup(doc.members, Tailnets);
      if arr == None || arr == Some(Null) || arr == Some(Array) then DecodeGlobals(doc.members, tailnets) else None
  }

  // ---- editing members ----

  // The first member of a name, or the number of members.
  function Find(ms: seq<Member>, key: Key): (i: nat)
    ensures i <= |ms|
    ensures i < |ms| ==> ms[i].name == key
    ensures forall j :: 0 <= j < i ==> ms[j].name != key
  {
    if ms == [] then 0 else if ms[0].name == key then 0 else 1 + Find(ms[1..], key)
  }

  // An existing member keeps its name, comments and place; a new one is appended bare.
  function SetOf(ms: seq<Member>, key: Key, v: Val): seq<Member> {
    var i := Find(ms, key);
    if i < |ms| then ms[i := ms[i].(val := v)] else ms + [Member(key, v, "", "")]
  }

  function RemoveOf(ms: seq<Member>, key: Key): seq<Member> {
    var i := Find(ms, key);
    if i < |ms| then ms[..i] + ms[i + 1..] else ms
  }

  // A new global goes above the tailnets array.
  function SetGlobalOf(ms: seq<Member>, key: Key, v: Val): seq<Member> {
    var i, t := Find(ms, key), Find(ms, Tailnets);
    if i < |ms| then ms[i := ms[i].(val := v)]
    else ms[..t] + [Member(key, v, "\n  ", " ")] + ms[t..]
  }

  // How a field is written: zero values are left out.
  function EncStr(s: string): Option<Val> { if s == "" then None else Some(Str(s)) }
  function EncBool(b: bool): Option<Val> { if b then Some(Bool(true)) else None }
  function EncFlag(f: Option<bool>): Option<Val> { match f case None => None case Some(b) => Some(Bool(b)) }
  function EncStrs(xs: seq<string>): Option<Val> { if xs == [] then None else Some(Strs(xs)) }
  function EncNum(n: int): Option<Val> { if n == 0 then None else Some(Num(n)) }

  // One field of the diff: its key and its encoding before and after.
  datatype Change = Change(key: Key, was: Option<Val>, now: Option<Val>)

  // The fields an entry can change in place, in the order they are compared.
  function Changes(o: TailnetConf, n: TailnetConf): seq<Change> {
    [Change(Domain, EncStr(o.domain), EncStr(n.domain)),
     Change(Hostname, EncStr(o.hostname), EncStr(n.hostname)),
     Change(AllowAll, EncBool(o.allowAll), EncBool(n.allowAll)),
     Change(NativeDNS, EncBool(o.nativeDNS), EncBool(n.nativeDNS)),
     Change(DomainHosts, EncBool(o.domainHosts), EncBool(n.domainHosts)),
     Change(ReportPosture, EncBool(o.reportPosture), EncBool(n.reportPosture)),
     Change(AuthKey, EncStr(o.authKey), EncStr(n.authKey)),
     Change(Enabled, EncFlag(o.enabledFlag), EncFlag(n.enabledFlag)),
     Change(Resources, EncStrs(o.resources), EncStrs(n.resources)),
     Change(Locked, EncStrs(o.locked), EncStrs(n.locked)),
     Change(AutoSelect, EncStrs(o.autoSelect), EncStrs(n.autoSelect))]
  }

  function GlobalChanges(o: Config, n: Config): seq<Change> {
    [Change(Mtu, EncNum(o.mtu), EncNum(n.mtu)),
     Change(DnsListen, EncStr(o.dnsListen), EncStr(n.dnsListen)),
     Change(UpstreamDNS, EncStr(o.upstreamDNS), EncStr(n.upstreamDNS)),
     Change(UiListen, EncStr(o.uiListen), EncStr(n.uiListen)),
     Change(HostsFile, EncStr(o.hostsFile), EncStr(n.hostsFile)),
     Change(StateDir, EncStr(o.stateDir), EncStr(n.stateDir))]
  }

  function EditOf(ms: seq<Member>, c: Change, global: bool): seq<Member> {
    if c.was == c.now then ms
    else if c.now.None? then RemoveOf(ms, c.key)
    else if global then SetGlobalOf(ms, c.key, c.now.value)
    else SetOf(ms, c.key, c.now.value)
  }

  function EditAll(ms: seq<Member>, cs: seq<Change>, global: bool): seq<Member> {
    if cs == [] then ms else EditOf(EditAll(ms, cs[..|cs| - 1], global), cs[|cs| - 1], global)
  }

  // The fields a new entry is written with, in canonical order; the state directory is never written.
  function Fields(n: TailnetConf): seq<(Key, Option<Val>)> {
    [(Name, Some(Str(n.name))), (Cidr, Some(Str(n.cidr))), (Tun, Some(Str(n.tun))),
     (Hostname, EncStr(n.hostname)), (Suffix, EncStr(n.suffix)), (Domain, EncStr(n.domain)),
     (Enabled, EncFlag(n.enabledFlag)), (ReportPosture, EncBool(n.reportPosture)), (AuthKey, EncStr(n.authKey)),
     (AllowAll, EncBool(n.allowAll)), (Resources, EncStrs(n.resources)), (Locked, EncStrs(n.locked)),
     (AutoSelect, EncStrs(n.autoSelect)), (NativeDNS, EncBool(n.nativeDNS)), (DomainHosts, EncBool(n.domainHosts))]
  }

  function MembersOf(fs: seq<(Key, Option<Val>)>): seq<Member> {
    if fs == [] then []
    else
      var init, last := MembersOf(fs[..|fs| - 1]), fs[|fs| - 1];
      if last.1.None? then init else init + [Member(last.0, last.1.value, "\n      ", " ")]
  }

  function NewElement(n: TailnetConf): Element {
    Element(MembersOf(Fields(n)), "\n    ", "\n    ")
  }

  // ---- laws of the edits ----

  ghost predicate NoDups(ms: seq<Member>) {
    ms == [] || (NoDups(ms[..|ms| - 1]) && Lookup(ms[..|ms| - 1], ms[|ms| - 1].name) == None)
  }

  lemma LookupAppend(ms: seq<Member>, m: Member, key: Key)
    ensures Lookup(ms + [m], key) == if m.name == key then Some(m.val) else Lookup(ms, key)
    ensures NoDups(ms + [m]) <==> NoDups(ms) && Lookup(ms, m.name) == None
  {
    assert (ms + [m])[..|ms|] == ms;
  }

  lemma {:induction false} LookupConcat(a: seq<Member>, b: seq<Member>, key: Key)
    ensures Lookup(a + b, key) == if Lookup(b, key).Some? then Lookup(b, key) else Lookup(a, key)
  {
    if b == [] {
      assert a + b == a;
    } else {
      var init, last := b[..|b| - 1], b[|b| - 1];
      LookupConcat(a, init, key);
      assert a + b == (a + init) + [last] && b == init + [last];
      LookupAppend(a + init, last, key);
    }
  }

  // A member between two runs of members, against the two runs alone.
  lemma {:induction false} LookupAround(a: seq<Member>, m: Member, b: seq<Member>, key: Key)
    ensures NoDups(a + [m] + b) <==> NoDups(a + b) && Lookup(a + b, m.name) == None
    ensures NoDups(a + [m] + b)
      ==> Lookup(a + [m] + b, key) == if key == m.name then Some(m.val) else Lookup(a + b, key)
  {
    hide Lookup, NoDups;
    LookupBetween(a, m, b, key);
    LookupBetween(a, m, b, m.name);
    NoDupsAround(a, m, b);
    LookupConcat(a, b, m.name);
  }

  lemma LookupBetween(a: seq<Member>, m: Member, b: seq<Member>, key: Key)
    ensures Lookup(a + [m] + b, key)
         == if Lookup(b, key).Some? then Lookup(b, key) else if m.name == key then Some(m.val) else Lookup(a, key)
    ensures Lookup(a + b, key) == if Lookup(b, key).Some? then Lookup(b, key) else Lookup(a, key)
  {
    LookupConcat(a + [m], b, key);
    LookupAppend(a, m, key);
    LookupConcat(a, b, key);
  }

  lemma {:induction false} NoDupsAround(a: seq<Member>, m: Member, b: seq<Member>)
    ensures NoDups(a + [m] + b) <==> NoDups(a + b) && Lookup(a + b, m.name) == None
  {
    hide Lookup, NoDups;
    if b == [] {
      assert a + [m] + b == a + [m] && a + b == a;
      LookupAppend(a, m, m.name);
    } else {
      var init, last := b[..|b| - 1], b[|b| - 1];
      NoDupsAround(a, m, init);
      assert a + [m] + b == (a + [m] + init) + [last] && a + b == (a + init) + [last];
      LookupAppend(a + [m] + init, last, m.name);
      LookupAppend(a + init, last, m.name);
      LookupBetween(a, m, init, last.name);
    }
  }

  lemma {:induction false} LookupAbsent(ms: seq<Member>, key: Key)
    requires forall j :: 0 <= j < |ms| ==> ms[j].name != key
    ensures Lookup(ms, key) == None
  {
    if ms != [] {
      LookupAbsent(ms[..|ms| - 1], key);
    }
  }

  // An edit sets, adds or drops the one key and leaves every other key as it was.
  lemma EditLaw(ms: seq<Member>, c: Change, global: bool, key: Key)
    requires NoDups(ms)
    ensures NoDups(EditOf(ms, c, global))
    ensures Lookup(EditOf(ms, c, global), key) == if key == c.key && c.was != c.now then c.now else Lookup(ms, key)
  {
    hide NoDups, Lookup;
    if c.was != c.now {
      var i := Find(ms, c.key);
      if i < |ms| {
        var m := ms[i].(val := if c.now.Some? then c.now.value else ms[i].val);
        assert ms == ms[..i] + [ms[i]] + ms[i + 1..];
        assert ms[i := m] == ms[..i] + [m] + ms[i + 1..];
        LookupAround(ms[..i], ms[i], ms[i + 1..], key);
        LookupAround(ms[..i], m, ms[i + 1..], key);
      } else {
        LookupAbsent(ms, c.key);
        if c.now.Some? {
          var t := if global then Find(ms, Tailnets) else |ms|;
          var m := if global then Member(c.key, c.now.value, "\n  ", " ") else Member(c.key, c.now.value, "", "");
          assert ms[..t] + ms[t..] == ms;
          LookupAround(ms[..t], m, ms[t..], key);
          assert ms[..|ms|] + [m] + ms[|ms|..] == ms + [m];
        }
      }
    }
  }

  ghost predicate KeysDistinct(cs: seq<Change>) {
    forall i, j :: 0 <= i < j < |cs| ==> cs[i].key != cs[j].key
  }

  // A list of edits with distinct keys sets exactly the changed keys.
  lemma {:induction false} EditAllLaw(ms: seq<Member>, cs: seq<Change>, global: bool, key: Key)
    requires NoDups(ms) && KeysDistinct(cs)
    ensures NoDups(EditAll(ms, cs, global))
    ensures forall i :: 0 <= i < |cs| && cs[i].key == key ==>
      Lookup(EditAll(ms, cs, global), key) == if cs[i].was == cs[i].now then Lookup(ms, key) else cs[i].now
    ensures (forall i :: 0 <= i < |cs| ==> cs[i].key != key) ==> Lookup(EditAll(ms, cs, global), key) == Lookup(ms, key)
  {
    hide NoDups, Lookup, EditOf;
    if cs != [] {
      var n := |cs| - 1;
      assert forall i :: 0 <= i < n ==> cs[..n][i] == cs[i];
      EditAllLaw(ms, cs[..n], global, key);
      EditLaw(EditAll(ms, cs[..n], global), cs[n], global, key);
    }
  }

  // Members whose name is not among the keys, in order, comments included.
  function Untouched(ms: seq<Member>, keys: set<Key>): seq<Member> {
    if ms == [] then []
    else Untouched(ms[..|ms| - 1], keys) + if ms[|ms| - 1].name in keys then [] else [ms[|ms| - 1]]
  }

  lemma {:induction false} UntouchedConcat(a: seq<Member>, b: seq<Member>, keys: set<Key>)
    ensures Untouched(a + b, keys) == Untouched(a, keys) + Untouched(b, keys)
  {
    if b == [] {
      assert a + b == a;
    } else {
      UntouchedConcat(a, b[..|b| - 1], keys);
      assert (a + b)[..|a + b| - 1] == a + b[..|b| - 1];
    }
  }

  lemma UntouchedOne(m: Member, keys: set<Key>)
    ensures Untouched([m], keys) == if m.name in keys then [] else [m]
  {
    assert [m][..0] == [];
  }

  lemma UntouchedEdit(ms: seq<Member>, c: Change, global: bool, keys: set<Key>)
    requires c.was != c.now ==> c.key in keys
    ensures Untouched(EditOf(ms, c, global), keys) == Untouched(ms, keys)
  {
    hide Untouched;
    if c.was != c.now {
      var i := Find(ms, c.key);
      if i < |ms| {
        assert ms == ms[..i] + [ms[i]] + ms[i + 1..];
        UntouchedSplit(ms[..i], ms[i], ms[i + 1..], keys);
        if c.now.None? {
          UntouchedConcat(ms[..i], ms[i + 1..], keys);
        } else {
          var m := ms[i].(val := c.now.value);
          assert ms[i := m] == ms[..i] + [m] + ms[i + 1..];
          UntouchedSplit(ms[..i], m, ms[i + 1..], keys);
        }
      } else if c.now.Some? {
        var t := if global then Find(ms, Tailnets) else |ms|;
        var m := if global then Member(c.key, c.now.value, "\n  ", " ") else Member(c.key, c.now.value, "", "");
        UntouchedSplit(ms[..t], m, ms[t..], keys);
        UntouchedConcat(ms[..t], ms[t..], keys);
        assert ms[..t] + ms[t..] == ms;
        assert ms[..|ms|] + [m] + ms[|ms|..] == ms + [m];
      }
    }
  }

  lemma UntouchedSplit(a: seq<Member>, m: Member, b: seq<Member>, keys: set<Key>)
    requires m.name in keys
    ensures Untouched(a + [m] + b, keys) == Untouched(a, keys) + Untouched(b, keys)
  {
    UntouchedConcat(a + [m], b, keys);
    UntouchedConcat(a, [m], keys);
    UntouchedOne(m, keys);
  }

  function ChangedKeys(cs: seq<Change>): set<Key> {
    set i | 0 <= i < |cs| && cs[i].was != cs[i].now :: cs[i].key
  }

  // Members the diff does not change keep value, comments and relative order.
  lemma {:induction false} UntouchedEditAll(ms: seq<Member>, cs: seq<Change>, global: bool, keys: set<Key>)
    requires ChangedKeys(cs) <= keys
    ensures Untouched(EditAll(ms, cs, global), keys) == Untouched(ms, keys)
  {
    hide Untouched, EditOf;
    if cs != [] {
      var n := |cs| - 1;
      assert forall i :: 0 <= i < n ==> cs[..n][i] == cs[i];
      assert ChangedKeys(cs[..n]) <= ChangedKeys(cs);
      assert cs[n].was != cs[n].now ==> cs[n].key in ChangedKeys(cs);
      UntouchedEditAll(ms, cs[..n], global, keys);
      UntouchedEdit(EditAll(ms, cs[..n], global), cs[n], global, keys);
    }
  }

  // ---- entries ----

  ghost predicate FieldsDistinct(fs: seq<(Key, Option<Val>)>) {
    forall i, j :: 0 <= i < j < |fs| ==> fs[i].0 != fs[j].0
  }

  lemma {:induction false} MembersLack(fs: seq<(Key, Option<Val>)>, key: Key)
    requires forall i :: 0 <= i < |fs| ==> fs[i].0 != key
    ensures Lookup(MembersOf(fs), key) == None
  {
    if fs != [] {
      var init, last := fs[..|fs| - 1], fs[|fs| - 1];
      MembersLack(init, key);
      if last.1.Some? { LookupAppend(MembersOf(init), Member(last.0, last.1.value, "\n      ", " "), key); }
    }
  }

  // Members written from a list of fields with distinct keys read back as that list.
  lemma {:induction false} MembersLaw(fs: seq<(Key, Option<Val>)>, k: nat)
    requires FieldsDistinct(fs)
    ensures NoDups(MembersOf(fs))
    ensures k < |fs| ==> Lookup(MembersOf(fs), fs[k].0) == fs[k].1
  {
    hide Lookup, NoDups;
    if fs == [] {
      assert NoDups([]) by { EmptyHasNoDups(); }
    } else {
      var n := |fs| - 1;
      var init, last := fs[..n], fs[n];
      MembersLaw(init, k);
      MembersLack(init, last.0);
      if last.1.Some? {
        var m := Member(last.0, last.1.value, "\n      ", " ");
        LookupAppend(MembersOf(init), m, last.0);
        if k < |fs| { LookupAppend(MembersOf(init), m, fs[k].0); }
      }
    }
  }

  lemma EmptyHasNoDups()
    ensures NoDups([])
  {
  }

  // A field encoded and decoded again is the field.
  lemma DecodeOfEncode(s: string, b: bool, f: Option<bool>, xs: seq<string>, n: int)
    ensures StrOf(EncStr(s)) == Some(s) && BoolOf(EncBool(b)) == Some(b) && FlagOf(EncFlag(f)) == Some(f)
    ensures StrsOf(EncStrs(xs)) == Some(xs) && NumOf(EncNum(n)) == Some(n)
  {
  }

  // Rules already in canonical form.
  ghost predicate Canonical(rules: seq<string>, norm: string -> Option<string>) {
    NormalizeAll(rules, norm) == Some(rules)
  }

  // The record a freshly written entry reads back as: everything but the state directory.
  lemma NewElementParses(n: TailnetConf, norm: string -> Option<string>)
    requires Complete(n) && Canonical(n.autoSelect, norm)
    ensures NoDups(NewElement(n).members)
    ensures ParseTailnet(NewElement(n).members, norm) == Some(n.(stateDir := ""))
  {
    hide MembersOf, Lookup, NormalizeAll, ValidTailnetName, DecodeWith, Reads, NoDups, StrsOf, EncStrs;
    var ms := NewElement(n).members;
    NewElementReads(n, ms);
    DecodeIsReads(ms, n.(stateDir := ""));
    DecodeOfEncode("", false, None, n.autoSelect, 0);
  }

  // The place of each key in the list of fields.
  function FieldPlace(key: Key): int {
    match key
    case Name => 0 case Cidr => 1 case Tun => 2 case Hostname => 3 case Suffix => 4 case Domain => 5
    case Enabled => 6 case ReportPosture => 7 case AuthKey => 8 case AllowAll => 9 case Resources => 10
    case Locked => 11 case AutoSelect => 12 case NativeDNS => 13 case DomainHosts => 14
    case _ => -1
  }

  lemma FieldsInPlace(n: TailnetConf, i: nat)
    requires i < |Fields(n)|
    ensures FieldPlace(Fields(n)[i].0) == i
  {
    hide EncStr, EncBool, EncFlag, EncStrs;
  }

  lemma FieldsAreDistinct(n: TailnetConf)
    ensures FieldsDistinct(Fields(n)) && |Fields(n)| == 15
    ensures forall i :: 0 <= i < 15 ==> Fields(n)[i].0 != StateDir
  {
    assert |Fields(n)| == 15;
    hide Fields;
    forall i | 0 <= i < |Fields(n)| ensures FieldPlace(Fields(n)[i].0) == i { FieldsInPlace(n, i); }
  }

  lemma FieldsAre(n: TailnetConf)
    ensures var fs := Fields(n);
      && |fs| == 15
      && fs[0] == (Name, Some(Str(n.name))) && fs[1] == (Cidr, Some(Str(n.cidr))) && fs[2] == (Tun, Some(Str(n.tun)))
      && fs[3] == (Hostname, EncStr(n.hostname)) && fs[4] == (Suffix, EncStr(n.suffix))
      && fs[5] == (Domain, EncStr(n.domain))
      && fs[6] == (Enabled, EncFlag(n.enabledFlag)) && fs[7] == (ReportPosture, EncBool(n.reportPosture))
      && fs[8] == (AuthKey, EncStr(n.authKey)) && fs[9] == (AllowAll, EncBool(n.allowAll))
      && fs[10] == (Resources, EncStrs(n.resources)) && fs[11] == (Locked, EncStrs(n.locked))
      && fs[12] == (AutoSelect, EncStrs(n.autoSelect)) && fs[13] == (NativeDNS, EncBool(n.nativeDNS))
      && fs[14] == (DomainHosts, EncBool(n.domainHosts))
  {
    hide EncStr, EncBool, EncFlag, EncStrs;
  }

  lemma NewElementReads(n: TailnetConf, ms: seq<Member>)
    requires ms == MembersOf(Fields(n))
    ensures NoDups(ms) && Reads(ms, n.(stateDir := "")) && Lookup(ms, AutoSelect) == EncStrs(n.autoSelect)
  {
    hide MembersOf, Lookup, NoDups, Fields, FieldsDistinct, ReadsFixed, ReadsTexts, ReadsFlags, ReadsLists;
    FieldsAreDistinct(n);
    MembersLaw(Fields(n), 12);
    FieldsAre(n);
    NewFixed(n, ms);
    NewTexts(n, ms);
    NewFlags(n, ms);
    NewLists(n, ms);
  }

  lemma NewFixed(n: TailnetConf, ms: seq<Member>)
    requires ms == MembersOf(Fields(n))
    ensures ReadsFixed(ms, n.(stateDir := ""))
  {
    hide MembersOf, Lookup, NoDups, Fields, FieldsDistinct;
    FieldsAreDistinct(n);
    FieldsAre(n);
    MembersLaw(Fields(n), 0); MembersLaw(Fields(n), 1); MembersLaw(Fields(n), 2); MembersLaw(Fields(n), 4);
    MembersLack(Fields(n), StateDir);
  }

  lemma NewTexts(n: TailnetConf, ms: seq<Member>)
    requires ms == MembersOf(Fields(n))
    ensures ReadsTexts(ms, n.(stateDir := ""))
  {
    hide MembersOf, Lookup, NoDups, Fields, FieldsDistinct;
    FieldsAreDistinct(n);
    FieldsAre(n);
    MembersLaw(Fields(n), 3); MembersLaw(Fields(n), 5); MembersLaw(Fields(n), 8);
  }

  lemma NewFlags(n: TailnetConf, ms: seq<Member>)
    requires ms == MembersOf(Fields(n))
    ensures ReadsFlags(ms, n.(stateDir := ""))
  {
    hide MembersOf, Lookup, NoDups, Fields, FieldsDistinct;
    FieldsAreDistinct(n);
    FieldsAre(n);
    MembersLaw(Fields(n), 6); MembersLaw(Fields(n), 7); MembersLaw(Fields(n), 9); MembersLaw(Fields(n), 13);
    MembersLaw(Fields(n), 14);
  }

  lemma NewLists(n: TailnetConf, ms: seq<Member>)
    requires ms == MembersOf(Fields(n))
    ensures ReadsLists(ms, n.(stateDir := ""))
  {
    hide MembersOf, Lookup, NoDups, Fields, FieldsDistinct;
    FieldsAreDistinct(n);
    FieldsAre(n);
    MembersLaw(Fields(n), 10); MembersLaw(Fields(n), 11);
  }

  // Editing an entry that reads as f, by the diff from o to n, gives an entry that reads as f with that diff.
  lemma EditedElementParses(ms: seq<Member>, f: TailnetConf, o: TailnetConf, n: TailnetConf,
                            norm: string -> Option<string>)
    requires NoDups(ms) && ParseTailnet(ms, norm) == Some(f) && Canonical(n.autoSelect, norm)
    ensures NoDups(EditAll(ms, Changes(o, n), false))
    ensures ParseTailnet(EditAll(ms, Changes(o, n), false), norm) == Some(Merged(f, o, n))
  {
    hide NoDups, Lookup, NormalizeAll, ValidTailnetName, EditAll, DecodeWith, Reads, Changes, StrsOf, EncStrs;
    var out := EditAll(ms, Changes(o, n), false);
    ParsedRules(ms, f, norm);
    DecodeIsReads(ms, f);
    EditedReads(ms, f, o, n, out);
    DecodeIsReads(out, Merged(f, o, n));
    DecodeOfEncode("", false, None, n.autoSelect, 0);
    DecodeOfEncode("", false, None, o.autoSelect, 0);
  }

  // The place of each key in the list of changes.
  function ChangePlace(key: Key): int {
    match key
    case Domain => 0 case Hostname => 1 case AllowAll => 2 case NativeDNS => 3 case DomainHosts => 4
    case ReportPosture => 5 case AuthKey => 6 case Enabled => 7 case Resources => 8 case Locked => 9
    case AutoSelect => 10
    case _ => -1
  }

  lemma ChangesInPlace(o: TailnetConf, n: TailnetConf, i: nat)
    requires i < |Changes(o, n)|
    ensures ChangePlace(Changes(o, n)[i].key) == i
  {
    hide EncStr, EncBool, EncFlag, EncStrs;
  }

  lemma ChangesAreDistinct(o: TailnetConf, n: TailnetConf)
    ensures KeysDistinct(Changes(o, n)) && |Changes(o, n)| == 11
    ensures forall i :: 0 <= i < 11 ==> ChangePlace(Changes(o, n)[i].key) >= 0
  {
    assert |Changes(o, n)| == 11;
    hide Changes;
    forall i | 0 <= i < |Changes(o, n)| ensures ChangePlace(Changes(o, n)[i].key) == i { ChangesInPlace(o, n, i); }
  }

  lemma ChangesAre(o: TailnetConf, n: TailnetConf)
    ensures var cs := Changes(o, n);
      && |cs| == 11
      && cs[0] == Change(Domain, EncStr(o.domain), EncStr(n.domain))
      && cs[1] == Change(Hostname, EncStr(o.hostname), EncStr(n.hostname))
      && cs[2] == Change(AllowAll, EncBool(o.allowAll), EncBool(n.allowAll))
      && cs[3] == Change(NativeDNS, EncBool(o.nativeDNS), EncBool(n.nativeDNS))
      && cs[4] == Change(DomainHosts, EncBool(o.domainHosts), EncBool(n.domainHosts))
      && cs[5] == Change(ReportPosture, EncBool(o.reportPosture), EncBool(n.reportPosture))
      && cs[6] == Change(AuthKey, EncStr(o.authKey), EncStr(n.authKey))
      && cs[7] == Change(Enabled, EncFlag(o.enabledFlag), EncFlag(n.enabledFlag))
      && cs[8] == Change(Resources, EncStrs(o.resources), EncStrs(n.resources))
      && cs[9] == Change(Locked, EncStrs(o.locked), EncStrs(n.locked))
      && cs[10] == Change(AutoSelect, EncStrs(o.autoSelect), EncStrs(n.autoSelect))
  {
    hide EncStr, EncBool, EncFlag, EncStrs;
  }

  // One change's effect on its own key.
  lemma ChangedKey(ms: seq<Member>, cs: seq<Change>, global: bool, i: nat)
    requires NoDups(ms) && KeysDistinct(cs) && i < |cs|
    ensures Lookup(EditAll(ms, cs, global), cs[i].key)
      == if cs[i].was == cs[i].now then Lookup(ms, cs[i].key) else cs[i].now
  {
    EditAllLaw(ms, cs, global, cs[i].key);
  }

  lemma UnchangedKey(ms: seq<Member>, cs: seq<Change>, global: bool, key: Key)
    requires NoDups(ms) && KeysDistinct(cs) && forall i :: 0 <= i < |cs| ==> cs[i].key != key
    ensures Lookup(EditAll(ms, cs, global), key) == Lookup(ms, key)
  {
    EditAllLaw(ms, cs, global, key);
  }

  lemma EditedReads(ms: seq<Member>, f: TailnetConf, o: TailnetConf, n: TailnetConf, out: seq<Member>)
    requires NoDups(ms) && Reads(ms, f) && out == EditAll(ms, Changes(o, n), false)
    ensures NoDups(out) && Reads(out, Merged(f, o, n))
    ensures Lookup(out, AutoSelect)
      == if EncStrs(o.autoSelect) == EncStrs(n.autoSelect) then Lookup(ms, AutoSelect) else EncStrs(n.autoSelect)
  {
    hide NoDups, Lookup, EditAll, Changes, KeysDistinct, ReadsFixed, ReadsTexts, ReadsFlags, ReadsLists, EncStrs;
    ChangesAreDistinct(o, n);
    EditAllLaw(ms, Changes(o, n), false, Name);
    EditedFixed(ms, f, o, n, out);
    EditedTexts(ms, f, o, n, out);
    EditedFlags(ms, f, o, n, out);
    EditedLists(ms, f, o, n, out);
    ChangesAre(o, n);
    ChangedKey(ms, Changes(o, n), false, 10);
  }

  lemma EditedFixed(ms: seq<Member>, f: TailnetConf, o: TailnetConf, n: TailnetConf, out: seq<Member>)
    requires NoDups(ms) && ReadsFixed(ms, f) && out == EditAll(ms, Changes(o, n), false)
    ensures ReadsFixed(out, Merged(f, o, n))
  {
    hide NoDups, Lookup, EditAll, Changes, KeysDistinct, StrOf;
    ChangesAreDistinct(o, n);
    UnchangedKey(ms, Changes(o, n), false, Name);
    UnchangedKey(ms, Changes(o, n), false, Cidr);
    UnchangedKey(ms, Changes(o, n), false, Tun);
    UnchangedKey(ms, Changes(o, n), false, Suffix);
    UnchangedKey(ms, Changes(o, n), false, StateDir);
  }

  lemma EditedTexts(ms: seq<Member>, f: TailnetConf, o: TailnetConf, n: TailnetConf, out: seq<Member>)
    requires NoDups(ms) && ReadsTexts(ms, f) && out == EditAll(ms, Changes(o, n), false)
    ensures ReadsTexts(out, Merged(f, o, n))
  {
    hide NoDups, Lookup, EditAll, Changes, KeysDistinct;
    ChangesAreDistinct(o, n);
    ChangesAre(o, n);
    ChangedKey(ms, Changes(o, n), false, 0);
    ChangedKey(ms, Changes(o, n), false, 1);
    ChangedKey(ms, Changes(o, n), false, 6);
  }

  lemma EditedFlags(ms: seq<Member>, f: TailnetConf, o: TailnetConf, n: TailnetConf, out: seq<Member>)
    requires NoDups(ms) && ReadsFlags(ms, f) && out == EditAll(ms, Changes(o, n), false)
    ensures ReadsFlags(out, Merged(f, o, n))
  {
    hide NoDups, Lookup, EditAll, Changes, KeysDistinct;
    ChangesAreDistinct(o, n);
    ChangesAre(o, n);
    ChangedKey(ms, Changes(o, n), false, 2);
    ChangedKey(ms, Changes(o, n), false, 3);
    ChangedKey(ms, Changes(o, n), false, 4);
    ChangedKey(ms, Changes(o, n), false, 5);
    ChangedKey(ms, Changes(o, n), false, 7);
  }

  lemma EditedLists(ms: seq<Member>, f: TailnetConf, o: TailnetConf, n: TailnetConf, out: seq<Member>)
    requires NoDups(ms) && ReadsLists(ms, f) && out == EditAll(ms, Changes(o, n), false)
    ensures ReadsLists(out, Merged(f, o, n))
  {
    hide NoDups, Lookup, EditAll, Changes, KeysDistinct;
    ChangesAreDistinct(o, n);
    ChangesAre(o, n);
    ChangedKey(ms, Changes(o, n), false, 8);
    ChangedKey(ms, Changes(o, n), false, 9);
  }

  lemma ParsedRules(ms: seq<Member>, o: TailnetConf, norm: string -> Option<string>)
    requires ParseTailnet(ms, norm) == Some(o)
    ensures StrsOf(Lookup(ms, AutoSelect)).Some?
    ensures NormalizeAll(StrsOf(Lookup(ms, AutoSelect)).value, norm) == Some(o.autoSelect)
    ensures DecodeWith(ms, o.autoSelect) == Some(o) && Complete(o)
  {
    hide Lookup, ValidTailnetName, NormalizeAll;
  }
}
