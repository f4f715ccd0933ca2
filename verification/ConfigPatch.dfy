/** Turning a change of the configuration record into edits of the config file's syntax tree. */
module ConfigPatch {
  import opened Text
  import opened Config
  import opened ConfigWrite
  import opened ConfigAst

  // Does the object name this tailnet?
  predicate HasName(ms: seq<Member>, name: string) {
    exists j :: 0 <= j < |ms| && ms[j].name == Name && ms[j].val == Str(name)
  }

  // The first element with that name, or the number of elements.
  function ElementIndex(els: seq<Element>, name: string): (i: nat)
    ensures i <= |els|
    ensures i < |els| ==> HasName(els[i].members, name)
    ensures forall j :: 0 <= j < i ==> !HasName(els[j].members, name)
  {
    if els == [] then 0 else if HasName(els[0].members, name) then 0 else 1 + ElementIndex(els[1..], name)
  }

  function RemoveElementOf(els: seq<Element>, name: string): seq<Element> {
    var i := ElementIndex(els, name);
    if i < |els| then els[..i] + els[i + 1..] else els
  }

  function RemoveGoneOf(els: seq<Element>, olds: seq<TailnetConf>, next: seq<TailnetConf>): seq<Element> {
    if olds == [] then els
    else
      var rest, o := RemoveGoneOf(els, olds[..|olds| - 1], next), olds[|olds| - 1];
      if Has(next, o.name) then rest else RemoveElementOf(rest, o.name)
  }

  // One surviving element, brought from the record o to the record n.
  function EditedElement(e: Element, o: TailnetConf, n: TailnetConf): Element {
    if Structural(o, n) then Element(NewElement(n).members, NewElement(n).objectExtra, e.extra)
    else e.(members := EditAll(e.members, Changes(o, n), false))
  }

  function PatchOneOf(els: seq<Element>, n: TailnetConf, prev: seq<TailnetConf>): Option<seq<Element>> {
    match OldOf(prev, n.name)
    case None => Some(els + [NewElement(n)])
    case Some(o) =>
      var i := ElementIndex(els, n.name);
      if i == |els| then None else Some(els[i := EditedElement(els[i], o, n)])
  }

  function PatchAllOf(els: seq<Element>, ns: seq<TailnetConf>, prev: seq<TailnetConf>): Option<seq<Element>> {
    if ns == [] then Some(els)
    else
      match PatchAllOf(els, ns[..|ns| - 1], prev)
      case None => None
      case Some(done) => PatchOneOf(done, ns[|ns| - 1], prev)
  }

  // The root's members with a tailnets array in them; None when tailnets is something else.
  function WithArray(ms: seq<Member>): Option<seq<Member>> {
    var t := Find(ms, Tailnets);
    if t == |ms| then Some(ms + [Member(Tailnets, Array, "\n  ", " ")])
    else if ms[t].val == Array then Some(ms)
    else None
  }

  function PatchDocOf(doc: Doc, prev: Config, next: Config): Option<Doc> {
    match WithArray(EditAll(doc.members, GlobalChanges(prev, next), true))
    case None => None
    case Some(ms) =>
      match PatchAllOf(RemoveGoneOf(doc.elements, prev.tailnets, next.tailnets), next.tailnets, prev.tailnets)
      case None => None
      case Some(els) => Some(Doc(ms, els))
  }

  // configsEqual: every field but the auth keys.
  predicate ConfigsEqual(a: Config, b: Config) {
    && a.(tailnets := []) == b.(tailnets := [])
    && SameButKeys(a.tailnets, b.tailnets)
  }

  // patchConfigFile: what reaches the disk, if anything.
  function PatchOf(doc: Doc, prev: Config, next: Config, norm: string -> Option<string>): Option<Doc> {
    match PatchDocOf(doc, prev, next)
    case None => None
    case Some(out) =>
      match ParseDoc(out, norm)
      case None => None
      case Some(got) => if ConfigsEqual(got, next) then Some(out) else None
  }

  // ---- elements that read as given records ----

  ghost predicate Reads(e: Element, tc: TailnetConf, norm: string -> Option<string>) {
    NoDups(e.members) && ParseTailnet(e.members, norm) == Some(tc)
  }

  ghost predicate ReadAs(els: seq<Element>, confs: seq<TailnetConf>, norm: string -> Option<string>) {
    |els| == |confs| && forall i :: 0 <= i < |els| ==> Reads(els[i], confs[i], norm)
  }

  lemma {:induction false} LookupInNoDups(ms: seq<Member>, key: Key, v: Val)
    requires NoDups(ms)
    ensures Lookup(ms, key) == Some(v) <==> exists j :: 0 <= j < |ms| && ms[j].name == key && ms[j].val == v
  {
    if ms != [] {
      var n := |ms| - 1;
      LookupInNoDups(ms[..n], key, v);
      assert forall j :: 0 <= j < n ==> ms[..n][j] == ms[j];
      if ms[n].name == key {
        LookupInNoDups(ms[..n], key, v);
        assert Lookup(ms[..n], key) == None;
      } else if Lookup(ms, key) == Some(v) {
        var j :| 0 <= j < n && ms[..n][j].name == key && ms[..n][j].val == v;
        assert ms[j].name == key && ms[j].val == v;
      }
    }
  }

  lemma NameOfElement(ms: seq<Member>, tc: TailnetConf, name: string, norm: string -> Option<string>)
    requires NoDups(ms) && ParseTailnet(ms, norm) == Some(tc)
    ensures HasName(ms, name) <==> tc.name == name
  {
    hide NoDups, DecodeWith, ReadsTexts, ReadsFlags, ReadsLists, Lookup, ParseTailnet, ValidTailnetName;
    ParsedRules(ms, tc, norm);
    DecodeIsReads(ms, tc);
    LookupInNoDups(ms, Name, Str(name));
  }

  // Elements are found where their records stand.
  lemma ElementIndexIs(els: seq<Element>, confs: seq<TailnetConf>, name: string, i: nat, norm: string -> Option<string>)
    requires ReadAs(els, confs, norm) && i <= |confs|
    requires i < |confs| ==> confs[i].name == name
    requires forall j :: 0 <= j < i ==> confs[j].name != name
    ensures ElementIndex(els, name) == i
  {
    hide HasName, NoDups, ParseTailnet;
    forall j | 0 <= j < |els| ensures HasName(els[j].members, name) <==> confs[j].name == name {
      NameOfElement(els[j].members, confs[j], name, norm);
    }
  }

  // ---- the removal pass keeps the survivors ----

  function Survivors<T>(xs: seq<T>, prev: seq<TailnetConf>, next: seq<TailnetConf>): (r: seq<T>)
    requires |xs| == |prev|
  {
    if xs == [] then []
    else
      var n := |xs| - 1;
      Survivors(xs[..n], prev[..n], next) + if Has(next, prev[n].name) then [xs[n]] else []
  }

  lemma {:induction false} SurvivorsReadAs(els: seq<Element>, prev: seq<TailnetConf>, next: seq<TailnetConf>,
                                           norm: string -> Option<string>)
    requires ReadAs(els, prev, norm)
    ensures ReadAs(Survivors(els, prev, next), Survivors(prev, prev, next), norm)
  {
    hide Has, Reads;
    if els != [] {
      var n := |els| - 1;
      SurvivorsReadAs(els[..n], prev[..n], next, norm);
    }
  }

  lemma {:induction false} SurvivorsFrom(prev: seq<TailnetConf>, next: seq<TailnetConf>)
    ensures forall j :: 0 <= j < |Survivors(prev, prev, next)| ==>
      Has(next, Survivors(prev, prev, next)[j].name) && Survivors(prev, prev, next)[j] in prev
    ensures forall i :: 0 <= i < |prev| && Has(next, prev[i].name) ==> prev[i] in Survivors(prev, prev, next)
  {
    hide Has;
    if prev != [] {
      var n := |prev| - 1;
      SurvivorsFrom(prev[..n], next);
      assert prev == prev[..n] + [prev[n]];
    }
  }

  // Removing the name of the first entry of rest, which no entry of head has.
  lemma RemoveFirstOf(head: seq<Element>, x: seq<TailnetConf>, rest: seq<Element>, y: seq<TailnetConf>,
                      norm: string -> Option<string>)
    requires ReadAs(head, x, norm) && ReadAs(rest, y, norm) && rest != []
    requires forall j :: 0 <= j < |x| ==> x[j].name != y[0].name
    ensures RemoveElementOf(head + rest, y[0].name) == head + rest[1..]
  {
    hide Reads, HasName, ElementIndex;
    ReadAsConcat(head, x, rest, y, norm);
    ElementIndexIs(head + rest, x + y, y[0].name, |head|, norm);
    assert (head + rest)[..|head|] == head && (head + rest)[|head| + 1..] == rest[1..];
  }

  lemma SurvivorsStep<T>(xs: seq<T>, prev: seq<TailnetConf>, next: seq<TailnetConf>, n: nat)
    requires |xs| == |prev| && n < |prev|
    ensures Survivors(xs[..n + 1], prev[..n + 1], next)
         == Survivors(xs[..n], prev[..n], next) + if Has(next, prev[n].name) then [xs[n]] else []
  {
    hide Has;
    assert prev[..n + 1][..n] == prev[..n] && xs[..n + 1][..n] == xs[..n];
  }

  lemma RemoveGoneStep(els: seq<Element>, prev: seq<TailnetConf>, next: seq<TailnetConf>, n: nat)
    requires n < |prev|
    ensures RemoveGoneOf(els, prev[..n + 1], next)
         == var rest := RemoveGoneOf(els, prev[..n], next);
            if Has(next, prev[n].name) then rest else RemoveElementOf(rest, prev[n].name)
  {
    hide Has, RemoveElementOf;
    assert prev[..n + 1][..n] == prev[..n];
  }

  // After the first k removals: the survivors among the first k, then the rest untouched.
  lemma {:induction false} RemovedSoFar(els: seq<Element>, prev: seq<TailnetConf>, next: seq<TailnetConf>, k: nat,
                                        norm: string -> Option<string>)
    requires ReadAs(els, prev, norm) && NamesUnique(prev) && k <= |prev|
    ensures RemoveGoneOf(els, prev[..k], next) == Survivors(els[..k], prev[..k], next) + els[k..]
  {
    if k == 0 {
      assert els[..0] + els[0..] == els;
    } else {
      hide Has, Reads, RemoveElementOf, RemoveGoneOf, Survivors;
      var n := k - 1;
      RemovedSoFar(els, prev, next, n, norm);
      SurvivorsStep(els, prev, next, n);
      RemoveGoneStep(els, prev, next, n);
      ShiftOne(Survivors(els[..n], prev[..n], next), els, n);
      if !Has(next, prev[n].name) {
        GoneIsFirst(els, prev, next, n, norm);
      }
    }
  }

  lemma ShiftOne<T>(head: seq<T>, xs: seq<T>, n: nat)
    requires n < |xs|
    ensures head + [xs[n]] + xs[n + 1..] == head + xs[n..]
    ensures head + [] + xs[n + 1..] == head + xs[n..][1..]
  {
    assert xs[n..][1..] == xs[n + 1..];
    assert head + [] == head;
  }

  lemma GoneIsFirst(els: seq<Element>, prev: seq<TailnetConf>, next: seq<TailnetConf>, n: nat,
                    norm: string -> Option<string>)
    requires ReadAs(els, prev, norm) && NamesUnique(prev) && n < |prev|
    ensures var head := Survivors(els[..n], prev[..n], next);
      RemoveElementOf(head + els[n..], prev[n].name) == head + els[n..][1..]
  {
    hide Has, Reads, RemoveElementOf, Survivors;
    SurvivorsReadAs(els[..n], prev[..n], next, norm);
    SurvivorsFrom(prev[..n], next);
    var x := Survivors(prev[..n], prev[..n], next);
    assert forall j :: 0 <= j < |x| ==> x[j] in prev[..n];
    RemoveFirstOf(Survivors(els[..n], prev[..n], next), x, els[n..], prev[n..], norm);
  }

  lemma ReadAsConcat(a: seq<Element>, x: seq<TailnetConf>, b: seq<Element>, y: seq<TailnetConf>,
                     norm: string -> Option<string>)
    requires ReadAs(a, x, norm) && ReadAs(b, y, norm)
    ensures ReadAs(a + b, x + y, norm)
  {
    hide Reads;
  }

  // ---- the edit pass ----

  // What the file will say of an entry: a written-out entry loses its state directory.
  function Target(n: TailnetConf, prev: seq<TailnetConf>): TailnetConf {
    match OldOf(prev, n.name)
    case None => n.(stateDir := "")
    case Some(o) => if Structural(o, n) then n.(stateDir := "") else n
  }

  function Targets(next: seq<TailnetConf>, prev: seq<TailnetConf>): seq<TailnetConf> {
    seq(|next|, i requires 0 <= i < |next| => Target(next[i], prev))
  }

  // The daemon's changes: survivors keep their order, new entries come last, every entry is complete and
  // its rules canonical.
  ghost predicate Ordered(prev: seq<TailnetConf>, next: seq<TailnetConf>, norm: string -> Option<string>) {
    var kept := Survivors(prev, prev, next);
    && NamesUnique(prev) && NamesUnique(next)
    && |kept| <= |next|
    && (forall i :: 0 <= i < |kept| ==> next[i].name == kept[i].name)
    && (forall i :: |kept| <= i < |next| ==> !Has(prev, next[i].name))
    && (forall i :: 0 <= i < |next| ==> Complete(next[i]) && Canonical(next[i].autoSelect, norm))
  }

  lemma {:induction false} OldOfIs(prev: seq<TailnetConf>, o: TailnetConf)
    requires NamesUnique(prev) && o in prev
    ensures OldOf(prev, o.name) == Some(o)
  {
    var n := |prev| - 1;
    assert prev == prev[..n] + [prev[n]];
    if prev[n].name != o.name {
      assert o in prev[..n];
      OldOfIs(prev[..n], o);
    } else {
      var i :| 0 <= i < |prev| && prev[i] == o;
      assert i == n;
    }
  }

  lemma {:induction false} OldOfNone(prev: seq<TailnetConf>, name: string)
    requires !Has(prev, name)
    ensures OldOf(prev, name) == None
  {
    if prev != [] {
      var n := |prev| - 1;
      assert prev[n].name != name;
      assert forall i :: 0 <= i < n ==> prev[..n][i] == prev[i];
      OldOfNone(prev[..n], name);
    }
  }

  // Element j of the result.
  function PatchedAt(kept: seq<Element>, was: seq<TailnetConf>, next: seq<TailnetConf>, j: nat): Element
    requires |kept| == |was| && j < |next|
  {
    if j < |kept| then EditedElement(kept[j], was[j], next[j]) else NewElement(next[j])
  }

  // After k entries: the first k patched, the remaining survivors untouched.
  function PatchedSoFar(kept: seq<Element>, was: seq<TailnetConf>, next: seq<TailnetConf>, k: nat): seq<Element>
    requires |kept| == |was| && k <= |next|
  {
    seq(k, j requires 0 <= j < k => PatchedAt(kept, was, next, j)) + if k < |kept| then kept[k..] else []
  }

  function TargetsSoFar(was: seq<TailnetConf>, next: seq<TailnetConf>, prev: seq<TailnetConf>, k: nat): seq<TailnetConf>
    requires k <= |next|
  {
    Targets(next[..k], prev) + if k < |was| then was[k..] else []
  }

  lemma MergedInPlace(o: TailnetConf, n: TailnetConf)
    requires o.name == n.name && !Structural(o, n)
    ensures Merged(o, o, n) == n
  {
  }

  lemma PatchedReadsAs(kept: seq<Element>, was: seq<TailnetConf>, prev: seq<TailnetConf>, next: seq<TailnetConf>,
                       j: nat, norm: string -> Option<string>)
    requires Ordered(prev, next, norm) && was == Survivors(prev, prev, next) && ReadAs(kept, was, norm) && j < |next|
    ensures OldOf(prev, next[j].name) == if j < |was| then Some(was[j]) else None
    ensures Reads(PatchedAt(kept, was, next, j), Target(next[j], prev), norm)
  {
    hide NoDups, ParseTailnet, Has, Changes, EditAll, NewElement, Complete, Canonical;
    SurvivorsFrom(prev, next);
    if j < |was| {
      OldOfIs(prev, was[j]);
      if Structural(was[j], next[j]) {
        NewElementParses(next[j], norm);
      } else {
        EditedElementParses(kept[j].members, was[j], was[j], next[j], norm);
        MergedInPlace(was[j], next[j]);
      }
    } else {
      OldOfNone(prev, next[j].name);
      NewElementParses(next[j], norm);
    }
  }

  lemma {:induction false} PatchedSoFarReads(kept: seq<Element>, was: seq<TailnetConf>, prev: seq<TailnetConf>,
                                             next: seq<TailnetConf>, k: nat, norm: string -> Option<string>)
    requires Ordered(prev, next, norm) && was == Survivors(prev, prev, next) && ReadAs(kept, was, norm) && k <= |next|
    ensures ReadAs(PatchedSoFar(kept, was, next, k), TargetsSoFar(was, next, prev, k), norm)
  {
    hide Reads, Target, PatchedAt, Ordered;
    var els, confs := PatchedSoFar(kept, was, next, k), TargetsSoFar(was, next, prev, k);
    forall j | 0 <= j < |els| ensures Reads(els[j], confs[j], norm) {
      if j < k {
        PatchedReadsAs(kept, was, prev, next, j, norm);
      } else {
        assert els[j] == kept[j] && confs[j] == was[j];
      }
    }
  }

  // The name of entry j is found at place j while it is being patched.
  lemma TargetNames(was: seq<TailnetConf>, next: seq<TailnetConf>, prev: seq<TailnetConf>, k: nat,
                    norm: string -> Option<string>)
    requires Ordered(prev, next, norm) && was == Survivors(prev, prev, next) && k < |next| && k < |was|
    ensures TargetsSoFar(was, next, prev, k)[k].name == next[k].name
    ensures forall j :: 0 <= j < k ==> TargetsSoFar(was, next, prev, k)[j].name != next[k].name
  {
    hide Has, Complete, Canonical, OldOf, Structural;
    forall j | 0 <= j < k ensures TargetsSoFar(was, next, prev, k)[j].name == next[j].name {
      assert TargetsSoFar(was, next, prev, k)[j] == Target(next[j], prev);
    }
  }

  lemma {:induction false} PatchAllIs(kept: seq<Element>, was: seq<TailnetConf>, prev: seq<TailnetConf>,
                                      next: seq<TailnetConf>, k: nat, norm: string -> Option<string>)
    requires Ordered(prev, next, norm) && was == Survivors(prev, prev, next) && ReadAs(kept, was, norm) && k <= |next|
    ensures PatchAllOf(kept, next[..k], prev) == Some(PatchedSoFar(kept, was, next, k))
  {
    hide Reads, Target, PatchedAt, EditedElement, NewElement, TargetsSoFar, Ordered, ElementIndex, PatchOneOf;
    if k == 0 {
      assert PatchedSoFar(kept, was, next, 0) == kept;
    } else {
      var n := k - 1;
      PatchAllIs(kept, was, prev, next, n, norm);
      assert next[..k][..n] == next[..n];
      PatchedReadsAs(kept, was, prev, next, n, norm);
      PatchStep(kept, was, prev, next, n, norm);
    }
  }

  lemma PatchStep(kept: seq<Element>, was: seq<TailnetConf>, prev: seq<TailnetConf>, next: seq<TailnetConf>,
                  n: nat, norm: string -> Option<string>)
    requires Ordered(prev, next, norm) && was == Survivors(prev, prev, next) && ReadAs(kept, was, norm) && n < |next|
    requires OldOf(prev, next[n].name) == if n < |was| then Some(was[n]) else None
    ensures PatchOneOf(PatchedSoFar(kept, was, next, n), next[n], prev) == Some(PatchedSoFar(kept, was, next, n + 1))
  {
    hide Reads, Target, EditedElement, NewElement, ElementIndex, OldOf, Has, Complete, Canonical, Survivors;
    var cur := PatchedSoFar(kept, was, next, n);
    if n < |was| {
      PatchedSoFarReads(kept, was, prev, next, n, norm);
      TargetNames(was, next, prev, n, norm);
      ElementIndexIs(cur, TargetsSoFar(was, next, prev, n), next[n].name, n, norm);
      assert cur[n] == kept[n];
      assert cur[n := PatchedAt(kept, was, next, n)] == PatchedSoFar(kept, was, next, n + 1);
    } else {
      assert cur + [PatchedAt(kept, was, next, n)] == PatchedSoFar(kept, was, next, n + 1);
    }
  }

  // Both passes together, element by element.
  lemma PatchedElements(els: seq<Element>, prev: seq<TailnetConf>, next: seq<TailnetConf>,
                        norm: string -> Option<string>)
    requires ReadAs(els, prev, norm) && Ordered(prev, next, norm)
    ensures var kept, was := Survivors(els, prev, next), Survivors(prev, prev, next);
      && |kept| == |was|
      && PatchAllOf(RemoveGoneOf(els, prev, next), next, prev) == Some(PatchedSoFar(kept, was, next, |next|))
      && ReadAs(PatchedSoFar(kept, was, next, |next|), Targets(next, prev), norm)
  {
    hide Reads, Target, EditedElement, NewElement, PatchOneOf, RemoveElementOf, PatchedAt;
    var kept, was := Survivors(els, prev, next), Survivors(prev, prev, next);
    RemovedSoFar(els, prev, next, |prev|, norm);
    assert prev[..|prev|] == prev && els[..|prev|] == els && kept + els[|prev|..] == kept;
    SurvivorsReadAs(els, prev, next, norm);
    PatchAllIs(kept, was, prev, next, |next|, norm);
    PatchedSoFarReads(kept, was, prev, next, |next|, norm);
    assert next[..|next|] == next && Targets(next, prev) + [] == Targets(next, prev);
    assert |was| <= |next| by { OrderedLength(prev, next, norm); }
  }

  lemma OrderedLength(prev: seq<TailnetConf>, next: seq<TailnetConf>, norm: string -> Option<string>)
    requires Ordered(prev, next, norm)
    ensures |Survivors(prev, prev, next)| <= |next|
  {
  }

  lemma {:induction false} ParseTailnetsIs(els: seq<Element>, confs: seq<TailnetConf>, norm: string -> Option<string>)
    requires ReadAs(els, confs, norm)
    ensures ParseTailnets(els, norm) == Some(confs)
  {
    hide ParseTailnet, NoDups;
    if els != [] {
      var n := |els| - 1;
      ParseTailnetsIs(els[..n], confs[..n], norm);
      assert confs == confs[..n] + [confs[n]];
    }
  }

  lemma {:induction false} TailnetsReadAs(els: seq<Element>, confs: seq<TailnetConf>, norm: string -> Option<string>)
    requires ParseTailnets(els, norm) == Some(confs) && forall i :: 0 <= i < |els| ==> NoDups(els[i].members)
    ensures ReadAs(els, confs, norm)
  {
    hide ParseTailnet, NoDups;
    if els != [] {
      var n := |els| - 1;
      var init := ParseTailnets(els[..n], norm).value;
      assert forall i :: 0 <= i < n ==> els[..n][i] == els[i];
      TailnetsReadAs(els[..n], init, norm);
      assert forall i :: 0 <= i < n ==> confs[i] == init[i];
    }
  }

  // ---- the daemon-wide members ----

  function GlobalPlace(key: Key): int {
    match key
    case Mtu => 0 case DnsListen => 1 case UpstreamDNS => 2 case UiListen => 3 case HostsFile => 4 case StateDir => 5
    case _ => -1
  }

  lemma GlobalsAreDistinct(o: Config, n: Config)
    ensures KeysDistinct(GlobalChanges(o, n))
    ensures forall i :: 0 <= i < |GlobalChanges(o, n)| ==> GlobalChanges(o, n)[i].key != Tailnets
  {
    hide EncStr, EncNum;
    assert forall i :: 0 <= i < |GlobalChanges(o, n)| ==> GlobalPlace(GlobalChanges(o, n)[i].key) == i;
  }

  ghost predicate ReadsGlobals(ms: seq<Member>, n: Config) {
    && NumOf(Lookup(ms, Mtu)) == Some(n.mtu) && StrOf(Lookup(ms, DnsListen)) == Some(n.dnsListen)
    && StrOf(Lookup(ms, UpstreamDNS)) == Some(n.upstreamDNS) && StrOf(Lookup(ms, UiListen)) == Some(n.uiListen)
    && StrOf(Lookup(ms, HostsFile)) == Some(n.hostsFile) && StrOf(Lookup(ms, StateDir)) == Some(n.stateDir)
  }

  lemma DecodeGlobalsIsReads(ms: seq<Member>, n: Config)
    ensures DecodeGlobals(ms, n.tailnets) == Some(n) <==> ReadsGlobals(ms, n)
  {
    hide Lookup, StrOf, NumOf;
  }

  // A changed text field reads as its new value, given what the old members read as.
  lemma EditedText(ms: seq<Member>, out: seq<Member>, c: Change, o: string, n: string)
    requires c.was == EncStr(o) && c.now == EncStr(n) && StrOf(Lookup(ms, c.key)) == Some(o)
    requires Lookup(out, c.key) == if c.was == c.now then Lookup(ms, c.key) else c.now
    ensures StrOf(Lookup(out, c.key)) == Some(n)
  {
  }

  lemma EditedGlobals(ms: seq<Member>, o: Config, n: Config, ts: seq<TailnetConf>)
    requires NoDups(ms) && DecodeGlobals(ms, o.tailnets) == Some(o)
    ensures var out := EditAll(ms, GlobalChanges(o, n), true);
      && NoDups(out) && Lookup(out, Tailnets) == Lookup(ms, Tailnets)
      && DecodeGlobals(out, ts) == Some(n.(tailnets := ts))
  {
    hide NoDups, Lookup, EditAll, KeysDistinct, DecodeGlobals, StrOf, EncStr;
    var cs := GlobalChanges(o, n);
    var out := EditAll(ms, cs, true);
    DecodeGlobalsIsReads(ms, o);
    DecodeGlobalsIsReads(out, n.(tailnets := ts));
    GlobalsAreDistinct(o, n);
    EditAllLaw(ms, cs, true, Tailnets);
    ChangedKey(ms, cs, true, 0);
    ChangedKey(ms, cs, true, 1);
    ChangedKey(ms, cs, true, 2);
    ChangedKey(ms, cs, true, 3);
    ChangedKey(ms, cs, true, 4);
    ChangedKey(ms, cs, true, 5);
    EditedText(ms, out, cs[1], o.dnsListen, n.dnsListen);
    EditedText(ms, out, cs[2], o.upstreamDNS, n.upstreamDNS);
    EditedText(ms, out, cs[3], o.uiListen, n.uiListen);
    EditedText(ms, out, cs[4], o.hostsFile, n.hostsFile);
    EditedText(ms, out, cs[5], o.stateDir, n.stateDir);
  }

  lemma ArrayAdded(ms: seq<Member>, out: seq<Member>, ts: seq<TailnetConf>)
    requires NoDups(ms) && WithArray(ms) == Some(out)
    ensures Lookup(out, Tailnets) == Some(Array) && DecodeGlobals(out, ts) == DecodeGlobals(ms, ts)
  {
    hide NoDups;
    var t := Find(ms, Tailnets);
    if t == |ms| {
      var m := Member(Tailnets, Array, "\n  ", " ");
      forall key ensures Lookup(out, key) == if key == Tailnets then Some(Array) else Lookup(ms, key) {
        LookupAppend(ms, m, key);
      }
    } else {
      LookupInNoDups(ms, Tailnets, Array);
    }
  }

  lemma ArrayIff(ms: seq<Member>)
    requires NoDups(ms)
    ensures WithArray(ms).Some? <==> Lookup(ms, Tailnets) == None || Lookup(ms, Tailnets) == Some(Array)
  {
    hide NoDups;
    var t := Find(ms, Tailnets);
    if t == |ms| { LookupAbsent(ms, Tailnets); } else { LookupInNoDups(ms, Tailnets, ms[t].val); }
  }

  // ---- the main results ----

  // A file the patcher is given: it parses to prev, and no object repeats a member.
  ghost predicate Patchable(doc: Doc, prev: Config, norm: string -> Option<string>) {
    && ParseDoc(doc, norm) == Some(prev)
    && NoDups(doc.members) && (forall i :: 0 <= i < |doc.elements| ==> NoDups(doc.elements[i].members))
  }

  // A null tailnets member reads as no tailnets, but the patcher wants an array.
  predicate NullTailnets(doc: Doc) {
    Lookup(doc.members, Tailnets) == Some(Null)
  }

  lemma NullIsRefused(doc: Doc, prev: Config, next: Config)
    requires NoDups(doc.members) && NullTailnets(doc)
    ensures PatchDocOf(doc, prev, next).None?
  {
    hide NoDups, Lookup, EditAll, KeysDistinct, WithArray, PatchAllOf, RemoveGoneOf;
    var cs := GlobalChanges(prev, next);
    GlobalsAreDistinct(prev, next);
    EditAllLaw(doc.members, cs, true, Tailnets);
    ArrayIff(EditAll(doc.members, cs, true));
  }

  // The edited tree reads as the intended record, except that an entry written out whole has no state
  // directory.
  lemma PatchedDocReads(doc: Doc, prev: Config, next: Config, norm: string -> Option<string>)
    requires Patchable(doc, prev, norm) && !NullTailnets(doc) && Ordered(prev.tailnets, next.tailnets, norm)
    ensures PatchDocOf(doc, prev, next).Some?
    ensures ParseDoc(PatchDocOf(doc, prev, next).value, norm)
      == Some(next.(tailnets := Targets(next.tailnets, prev.tailnets)))
  {
    hide NoDups, Lookup, EditAll, DecodeGlobals, PatchAllOf, RemoveGoneOf, ReadAs, Ordered, WithArray,
         ParseTailnets, PatchedSoFar, Targets;
    PatchableReads(doc, prev, norm);
    PatchedElements(doc.elements, prev.tailnets, next.tailnets, norm);
    var ts := Targets(next.tailnets, prev.tailnets);
    EditedGlobals(doc.members, prev, next, ts);
    var ms := EditAll(doc.members, GlobalChanges(prev, next), true);
    ArrayIff(ms);
    ArrayAdded(ms, WithArray(ms).value, ts);
    ParseTailnetsIs(PatchDocOf(doc, prev, next).value.elements, ts, norm);
  }

  lemma PatchableReads(doc: Doc, prev: Config, norm: string -> Option<string>)
    requires Patchable(doc, prev, norm)
    ensures DecodeGlobals(doc.members, prev.tailnets) == Some(prev)
    ensures NullTailnets(doc) || Lookup(doc.members, Tailnets) == None || Lookup(doc.members, Tailnets) == Some(Array)
    ensures ReadAs(doc.elements, prev.tailnets, norm) && |doc.elements| == |prev.tailnets|
  {
    hide NoDups, Lookup, ParseTailnets, DecodeGlobals;
    var ts := ParseTailnets(doc.elements, norm).value;
    DecodedConfig(doc.members, ts);
    TailnetsReadAs(doc.elements, ts, norm);
  }

  lemma DecodedConfig(ms: seq<Member>, ts: seq<TailnetConf>)
    ensures DecodeGlobals(ms, ts).Some? ==> DecodeGlobals(ms, ts).value.tailnets == ts
  {
  }

  // Does the change write out whole an entry that has a state directory?
  ghost predicate WritesStateDir(prev: seq<TailnetConf>, next: seq<TailnetConf>) {
    exists i :: 0 <= i < |next| && next[i].stateDir != "" &&
      (match OldOf(prev, next[i].name) case None => true case Some(o) => Structural(o, next[i]))
  }

  // The patch is written exactly when tailnets is not null and no entry with a state directory is inserted or
  // rewritten whole, and then the file reads as exactly the intended record, auth keys included.
  lemma PatchRefinesUpdate(doc: Doc, prev: Config, next: Config, norm: string -> Option<string>)
    requires Patchable(doc, prev, norm) && Ordered(prev.tailnets, next.tailnets, norm)
    ensures PatchOf(doc, prev, next, norm).Some?
       <==> !NullTailnets(doc) && !WritesStateDir(prev.tailnets, next.tailnets)
    ensures PatchOf(doc, prev, next, norm).Some? ==> ParseDoc(PatchOf(doc, prev, next, norm).value, norm) == Some(next)
  {
    hide PatchDocOf, ParseDoc, OldOf, Structural, Ordered, NullTailnets, NoDups;
    if NullTailnets(doc) {
      NullIsRefused(doc, prev, next);
      return;
    }
    PatchedDocReads(doc, prev, next, norm);
    var ts := Targets(next.tailnets, prev.tailnets);
    if WritesStateDir(prev.tailnets, next.tailnets) {
      var i :| 0 <= i < |next.tailnets| && next.tailnets[i].stateDir != "" &&
        (match OldOf(prev.tailnets, next.tailnets[i].name)
           case None => true
           case Some(o) => Structural(o, next.tailnets[i]));
      assert ts[i] == Target(next.tailnets[i], prev.tailnets);
      assert Keyless(ts[i]).stateDir == "" && Keyless(next.tailnets[i]).stateDir != "";
    } else {
      forall i | 0 <= i < |next.tailnets| ensures ts[i] == next.tailnets[i] {
        assert ts[i] == Target(next.tailnets[i], prev.tailnets);
      }
      assert ts == next.tailnets;
    }
  }

  // Whatever the file and the change, nothing is written that does not read back as the change, keys aside.
  lemma OnlyTheChangeIsWritten(doc: Doc, prev: Config, next: Config, norm: string -> Option<string>)
    requires PatchOf(doc, prev, next, norm).Some?
    ensures ParseDoc(PatchOf(doc, prev, next, norm).value, norm).Some?
    ensures ConfigsEqual(ParseDoc(PatchOf(doc, prev, next, norm).value, norm).value, next)
  {
    hide PatchDocOf, ParseDoc;
  }

  // Comments survive: every root member outside the diff keeps its value, comments and order.
  lemma UntouchedGlobalsSurvive(doc: Doc, prev: Config, next: Config)
    requires PatchDocOf(doc, prev, next).Some?
    ensures var keys := ChangedKeys(GlobalChanges(prev, next)) + {Tailnets};
      Untouched(PatchDocOf(doc, prev, next).value.members, keys) == Untouched(doc.members, keys)
  {
    hide Untouched, EditAll, GlobalChanges, ChangedKeys, WithArray, PatchAllOf, RemoveGoneOf;
    var keys := ChangedKeys(GlobalChanges(prev, next)) + {Tailnets};
    UntouchedEditAll(doc.members, GlobalChanges(prev, next), true, keys);
    UntouchedArray(EditAll(doc.members, GlobalChanges(prev, next), true), keys);
  }

  // The i-th kept entry keeps the comments around it, and, when it is edited in place, every member outside
  // its diff with value, comments and order.
  lemma UntouchedEntriesSurvive(doc: Doc, prev: Config, next: Config, i: nat, norm: string -> Option<string>)
    requires Patchable(doc, prev, norm) && !NullTailnets(doc) && Ordered(prev.tailnets, next.tailnets, norm)
    ensures PatchDocOf(doc, prev, next).Some? && |doc.elements| == |prev.tailnets|
    ensures var out := PatchDocOf(doc, prev, next).value.elements;
      var kept, was := Survivors(doc.elements, prev.tailnets, next.tailnets),
        Survivors(prev.tailnets, prev.tailnets, next.tailnets);
      && |kept| == |was| <= |next.tailnets| == |out|
      && (i < |kept| ==> out[i].extra == kept[i].extra)
      && (i < |kept| && !Structural(was[i], next.tailnets[i]) ==>
            var keys := ChangedKeys(Changes(was[i], next.tailnets[i]));
            && out[i].objectExtra == kept[i].objectExtra
            && Untouched(out[i].members, keys) == Untouched(kept[i].members, keys))
  {
    hide NoDups, PatchAllOf, RemoveGoneOf, ReadAs, Ordered, Untouched, EditAll, Changes, Structural, NewElement,
         ChangedKeys, WithArray, ParseDoc;
    PatchedDocReads(doc, prev, next, norm);
    PatchableReads(doc, prev, norm);
    PatchedElements(doc.elements, prev.tailnets, next.tailnets, norm);
    OrderedLength(prev.tailnets, next.tailnets, norm);
    var kept, was := Survivors(doc.elements, prev.tailnets, next.tailnets),
      Survivors(prev.tailnets, prev.tailnets, next.tailnets);
    if i < |kept| {
      var cs := Changes(was[i], next.tailnets[i]);
      UntouchedEditAll(kept[i].members, cs, false, ChangedKeys(cs));
    }
  }

  lemma UntouchedArray(ms: seq<Member>, keys: set<Key>)
    requires Tailnets in keys && WithArray(ms).Some?
    ensures Untouched(WithArray(ms).value, keys) == Untouched(ms, keys)
  {
    if Find(ms, Tailnets) == |ms| {
      UntouchedConcat(ms, [Member(Tailnets, Array, "\n  ", " ")], keys);
      UntouchedOne(Member(Tailnets, Array, "\n  ", " "), keys);
    }
  }
}
