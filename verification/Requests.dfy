/** The control requests as edits of the config, the selection views beside them, and what locks guarantee. */
module Requests {
  import opened Text
  import opened Config
  import opened Ranges
  import opened Selection
  import opened SelectionLaws

  // ---- what a request sees of a running tailnet ----

  // Peer short names, peer tags by short name, services, and service tags. None is a query that failed.
  datatype View = View(
    peers: seq<string>,
    tags: Option<map<string, set<string>>>,
    services: Option<seq<Service>>,
    hostTags: string -> set<string>)

  datatype Env = Env(lib: Lib, norm: string -> Option<string>)

  // One edit of a tailnet's entry. Plain stands for every edit that touches neither the selection, the
  // locks nor the enabled flag.
  datatype Edit =
    | Select(peer: string)
    | SelectAll(names: seq<string>)
    | Forget(peer: string)
    | Lock(peer: string)
    | Unlock(peer: string)
    | AllowAll(on: bool)
    | Auto(remove: bool, rules: seq<string>)
    | Clear
    | Switch(on: bool)
    | Plain(domain: string, hostname: string, cidr: string, tun: string, authKey: string,
            posture: bool, native: bool, domainHosts: bool)

  function AddOnce(xs: seq<string>, s: string): (r: seq<string>)
    ensures forall x :: x in r <==> x in xs || x == s
  {
    if s in xs then xs else xs + [s]
  }

  function Drop(xs: seq<string>, s: string): (r: seq<string>)
    ensures forall x :: x in r <==> x in xs && x != s
  {
    if xs == [] then []
    else
      var init, last := xs[..|xs| - 1], xs[|xs| - 1];
      assert xs == init + [last];
      if last == s then Drop(init, s) else Drop(init, s) + [last]
  }

  function Advertised(services: Option<seq<Service>>): seq<Service> {
    if services.None? then [] else services.value
  }

  // A name may be selected when it is an advertised service, or a live peer.
  predicate Known(name: string, v: View) {
    if IsServiceResource(name) then ServiceFor(Advertised(v.services), name).Some? else name in v.peers
  }

  function AddAllKnown(xs: seq<string>, names: seq<string>, v: View): Option<seq<string>> {
    if names == [] then Some(xs)
    else
      var init, last := AddAllKnown(xs, names[..|names| - 1], v), names[|names| - 1];
      if init.None? || !Known(last, v) then None else Some(AddOnce(init.value, last))
  }

  // The rule that would select the name again, or None when the live data cannot be had.
  function AutoRuleFor(conf: TailnetConf, name: string, v: View, lib: Lib): Option<string> {
    if IsServiceResource(name) then
      var sd := ServiceFor(Advertised(v.services), name);
      Some(AutoSvcRule(conf.autoSelect, name, if sd.Some? then sd.value.ports else [],
                       if sd.Some? then v.hostTags(name) else {}, lib))
    else if v.tags.None? then None
    else Some(AutoPeerRule(conf.autoSelect, name, if name in v.tags.value then v.tags.value[name] else {}, lib))
  }

  function AutoOf(auto: seq<string>, remove: bool, rules: seq<string>, env: Env): Option<seq<string>> {
    if rules == [] then Some(auto)
    else
      var init, norm := AutoOf(auto, remove, rules[..|rules| - 1], env), env.norm(rules[|rules| - 1]);
      if init.None? || norm.None? then None
      else if remove then Some(Drop(init.value, norm.value))
      else Some(AddOnce(init.value, norm.value))
  }

  // The edited entry, or None when the request is refused. No view: the tailnet is not running.
  function EditOf(conf: TailnetConf, e: Edit, view: Option<View>, env: Env): Option<TailnetConf> {
    match e
    case Select(peer) =>
      if view.None? || peer == "" || !Known(peer, view.value) then None
      else Some(conf.(resources := AddOnce(conf.resources, peer)))
    case SelectAll(names) =>
      if view.None? || names == [] then None
      else
        var all := AddAllKnown(conf.resources, names, view.value);
        if all.None? then None else Some(conf.(resources := all.value, allowAll := false))
    case Forget(peer) =>
      if view.None? || peer == "" || peer in conf.locked then None
      else if AutoRuleFor(conf, peer, view.value, env.lib) != Some("") then None
      else Some(conf.(resources := Drop(conf.resources, peer)))
    case Lock(peer) =>
      if view.None? || peer == "" || !Known(peer, view.value) then None
      else Some(conf.(resources := AddOnce(conf.resources, peer), locked := AddOnce(conf.locked, peer)))
    case Unlock(peer) =>
      if view.None? || peer == "" then None else Some(conf.(locked := Drop(conf.locked, peer)))
    case AllowAll(on) => Some(conf.(allowAll := on))
    case Auto(remove, rules) =>
      if rules == [] then
        if remove then Some(conf.(autoSelect := [])) else None
      else
        var auto := AutoOf(conf.autoSelect, remove, rules, env);
        if auto.None? then None else Some(conf.(autoSelect := auto.value))
    case Clear => Some(conf.(resources := conf.locked, allowAll := false, autoSelect := []))
    case Switch(on) =>
      if !on && conf.locked != [] then None else Some(conf.(enabledFlag := Some(on)))
    case Plain(domain, hostname, cidr, tun, authKey, posture, native, domainHosts) =>
      Some(conf.(domain := domain, hostname := hostname, cidr := cidr, tun := tun, authKey := authKey,
                 reportPosture := posture, nativeDNS := native, domainHosts := domainHosts))
  }

  // The entry being edited, changed in place by the handlers' closures. A refused edit is thrown away
  // with the whole parsed copy, so nothing is said of the draft then.
  class Draft {
    var conf: TailnetConf

    constructor (entry: TailnetConf)
      ensures conf == entry
    {
      conf := entry;
    }

    method DoSelectAll(names: seq<string>, v: View, env: Env) returns (ok: bool)
      modifies this
      ensures var r := EditOf(old(conf), SelectAll(names), Some(v), env);
        (ok <==> r.Some?) && (ok ==> conf == r.value)
    {
      if |names| == 0 { return false; }
      for i := 0 to |names|
        invariant AddAllKnown(old(conf).resources, names[..i], v) == Some(conf.resources)
        invariant conf == old(conf).(resources := conf.resources)
      {
        assert names[..i + 1][..i] == names[..i];
        if !Known(names[i], v) {
          StuckAdd(old(conf).resources, names, i + 1, v);
          return false;
        }
        if names[i] !in conf.resources {
          conf := conf.(resources := conf.resources + [names[i]]);
        }
      }
      assert names[..|names|] == names;
      conf := conf.(allowAll := false);
      ok := true;
    }

    method DoForget(peer: string, v: View, env: Env) returns (ok: bool)
      modifies this
      ensures var r := EditOf(old(conf), Forget(peer), Some(v), env);
        (ok <==> r.Some?) && (ok ==> conf == r.value)
    {
      hide AutoRuleFor;
      if peer == "" || peer in conf.locked { return false; }
      var rule := AutoRuleFor(conf, peer, v, env.lib);
      if rule != Some("") { return false; }
      var kept: seq<string> := [];
      for i := 0 to |conf.resources|
        invariant conf == old(conf)
        invariant kept == Drop(conf.resources[..i], peer)
      {
        assert conf.resources[..i + 1][..i] == conf.resources[..i];
        if conf.resources[i] != peer { kept := kept + [conf.resources[i]]; }
      }
      assert conf.resources[..|conf.resources|] == conf.resources;
      conf := conf.(resources := kept);
      ok := true;
    }

    method DoLock(peer: string, v: View, env: Env) returns (ok: bool)
      modifies this
      ensures var r := EditOf(old(conf), Lock(peer), Some(v), env);
        (ok <==> r.Some?) && (ok ==> conf == r.value)
    {
      if peer == "" || !Known(peer, v) { return false; }
      if peer !in conf.resources { conf := conf.(resources := conf.resources + [peer]); }
      if peer !in conf.locked { conf := conf.(locked := conf.locked + [peer]); }
      ok := true;
    }

    method DoAuto(remove: bool, rules: seq<string>, env: Env) returns (ok: bool)
      modifies this
      ensures var r := EditOf(old(conf), Auto(remove, rules), None, env);
        (ok <==> r.Some?) && (ok ==> conf == r.value)
    {
      if |rules| == 0 {
        if !remove { return false; }
        conf := conf.(autoSelect := []);
        return true;
      }
      for i := 0 to |rules|
        invariant AutoOf(old(conf).autoSelect, remove, rules[..i], env) == Some(conf.autoSelect)
        invariant conf == old(conf).(autoSelect := conf.autoSelect)
      {
        assert rules[..i + 1][..i] == rules[..i];
        var norm := env.norm(rules[i]);
        if norm.None? {
          StuckAuto(old(conf).autoSelect, remove, rules, i + 1, env);
          return false;
        }
        if remove {
          conf := conf.(autoSelect := Drop(conf.autoSelect, norm.value));
        } else if norm.value !in conf.autoSelect {
          conf := conf.(autoSelect := conf.autoSelect + [norm.value]);
        }
      }
      assert rules[..|rules|] == rules;
      ok := true;
    }

    // Whatever is live, exactly the locked names are wanted afterwards; nothing outside the selection changes.
    method DoClear(env: Env)
      modifies this
      ensures EditOf(old(conf), Clear, None, env) == Some(conf)
      ensures forall live, s :: Wanted(conf, live, s, env.lib) <==> s in old(conf).locked
      ensures conf.locked == old(conf).locked && conf.Enabled() == old(conf).Enabled() && conf.name == old(conf).name
    {
      conf := conf.(resources := conf.locked);
      conf := conf.(allowAll := false);
      conf := conf.(autoSelect := []);
    }
  }

  lemma {:induction false} StuckAdd(xs: seq<string>, names: seq<string>, n: nat, v: View)
    requires n <= |names| && AddAllKnown(xs, names[..n], v).None?
    ensures AddAllKnown(xs, names, v).None?
    decreases |names|
  {
    if n == |names| {
      assert names[..n] == names;
    } else {
      assert names[..|names| - 1][..n] == names[..n];
      StuckAdd(xs, names[..|names| - 1], n, v);
    }
  }

  lemma {:induction false} StuckAuto(auto: seq<string>, remove: bool, rules: seq<string>, n: nat, env: Env)
    requires n <= |rules| && AutoOf(auto, remove, rules[..n], env).None?
    ensures AutoOf(auto, remove, rules, env).None?
    decreases |rules|
  {
    if n == |rules| {
      assert rules[..n] == rules;
    } else {
      assert rules[..|rules| - 1][..n] == rules[..n];
      StuckAuto(auto, remove, rules[..|rules| - 1], n, env);
    }
  }

  // ---- locks ----

  ghost predicate LocksSelected(conf: TailnetConf) {
    forall l :: l in conf.locked ==> l in conf.resources
  }

  lemma {:induction false} AddAllKeeps(xs: seq<string>, names: seq<string>, v: View)
    ensures var r := AddAllKnown(xs, names, v);
      r.Some? ==> forall x :: x in r.value <==> x in xs || x in names
    ensures AddAllKnown(xs, names, v).Some? <==> forall x :: x in names ==> Known(x, v)
  {
    hide Known;
    if names != [] {
      AddAllKeeps(xs, names[..|names| - 1], v);
      assert names == names[..|names| - 1] + [names[|names| - 1]];
    }
  }

  // No edit but an unlock takes a name out of the locks, no edit switches off an entry that has locks, and
  // every edit keeps locks selected.
  lemma EditKeepsLocks(conf: TailnetConf, e: Edit, view: Option<View>, env: Env)
    requires EditOf(conf, e, view, env).Some?
    ensures var conf' := EditOf(conf, e, view, env).value;
      && (LocksSelected(conf) ==> LocksSelected(conf'))
      && (forall l :: l in conf.locked && e != Unlock(l) ==> l in conf'.locked)
      && (conf.locked != [] && conf.Enabled() ==> conf'.Enabled())
      && conf'.name == conf.name
  {
    hide Known, AutoRuleFor, AutoOf;
    if e.SelectAll? {
      AddAllKeeps(conf.resources, e.names, view.value);
    }
  }

  // The names in a list, order and repeats aside.
  ghost function NameSet(xs: seq<string>): set<string> {
    set x | x in xs
  }

  // What each selection edit does to the selected and locked names, and that it touches nothing else: a
  // select or lock needs known names, a lock also selects, an unlock keeps the selection.
  lemma SelectionEdits(conf: TailnetConf, e: Edit, view: Option<View>, env: Env)
    requires EditOf(conf, e, view, env).Some?
    requires e.Select? || e.SelectAll? || e.Forget? || e.Lock? || e.Unlock?
    ensures var conf' := EditOf(conf, e, view, env).value;
      var gained := if e.Select? || e.Lock? then {e.peer} else if e.SelectAll? then NameSet(e.names) else {};
      && view.Some? && (forall x :: x in gained ==> Known(x, view.value))
      && NameSet(conf'.resources) == NameSet(conf.resources) + gained - (if e.Forget? then {e.peer} else {})
      && NameSet(conf'.locked)
        == NameSet(conf.locked) + (if e.Lock? then {e.peer} else {}) - (if e.Unlock? then {e.peer} else {})
      && conf'.allowAll == (conf.allowAll && !e.SelectAll?)
      && conf'.(resources := conf.resources, locked := conf.locked, allowAll := conf.allowAll) == conf
  {
    hide Known, AutoRuleFor;
    if e.SelectAll? { AddAllKeeps(conf.resources, e.names, view.value); }
  }

  // A request against the whole config. The oracle parts say which other check refused it, or how far a
  // removal got.
  datatype Request =
    | Update(tailnet: string, edit: Edit, view: Option<View>)
    | Add(conf: TailnetConf)
    | Reset(tailnet: string)
    | Remove(tailnet: string, finished: bool)

  function RemoveNamed(tailnets: seq<TailnetConf>, name: string): seq<TailnetConf> {
    if tailnets == [] then []
    else
      var init, last := tailnets[..|tailnets| - 1], tailnets[|tailnets| - 1];
      if last.name == name then RemoveNamed(init, name) else RemoveNamed(init, name) + [last]
  }

  function Revoked(conf: TailnetConf): TailnetConf {
    conf.(enabledFlag := Some(false), authKey := "")
  }

  // What an add writes: a name, its range, device, domain, hostname and key.
  function Fresh(conf: TailnetConf): TailnetConf {
    conf.(suffix := "", enabledFlag := None, reportPosture := false, allowAll := false, resources := [], locked := [],
          autoSelect := [], nativeDNS := false, domainHosts := false, stateDir := "")
  }

  // A changed range must pass the overlap check; an unchanged one is left alone.
  predicate RangeAllowed(tailnets: seq<TailnetConf>, conf: TailnetConf, edit: Edit) {
    edit.Plain? && edit.cidr != conf.cidr ==> CheckCIDR(edit.cidr, tailnets, conf.name).Accepted?
  }

  // The config after the request; a refused request leaves it alone.
  function Serve(tailnets: seq<TailnetConf>, q: Request, env: Env): seq<TailnetConf> {
    match q
    case Update(tailnet, edit, view) =>
      var i := IndexByName(tailnets, tailnet);
      if i == |tailnets| || !RangeAllowed(tailnets, tailnets[i], edit) then tailnets
      else
        var conf' := EditOf(tailnets[i], edit, view, env);
        if conf'.None? then tailnets else tailnets[i := conf'.value]
    case Add(conf) =>
      if IndexByName(tailnets, conf.name) < |tailnets| || !CheckCIDR(conf.cidr, tailnets, "").Accepted? then tailnets
      else tailnets + [Fresh(conf)]
    case Reset(tailnet) =>
      var i := IndexByName(tailnets, tailnet);
      if i == |tailnets| || tailnets[i].locked != [] then tailnets else tailnets[i := Revoked(tailnets[i])]
    case Remove(tailnet, finished) =>
      var i := IndexByName(tailnets, tailnet);
      if i == |tailnets| || tailnets[i].locked != [] then tailnets
      else
        var off := tailnets[i := Revoked(tailnets[i])];
        if finished then RemoveNamed(off, tailnets[i].name) else off
  }

  ghost predicate UniqueNames(tailnets: seq<TailnetConf>) {
    forall i, j :: 0 <= i < j < |tailnets| ==> !EqualFold(tailnets[i].name, tailnets[j].name)
  }

  ghost predicate AllLocksSelected(tailnets: seq<TailnetConf>) {
    forall tc :: tc in tailnets ==> LocksSelected(tc)
  }

  lemma {:induction false} RemoveNamedMembers(tailnets: seq<TailnetConf>, name: string)
    ensures forall tc :: tc in RemoveNamed(tailnets, name) <==> tc in tailnets && tc.name != name
  {
    if tailnets != [] {
      RemoveNamedMembers(tailnets[..|tailnets| - 1], name);
      assert tailnets == tailnets[..|tailnets| - 1] + [tailnets[|tailnets| - 1]];
    }
  }

  lemma {:induction false} RemoveNamedKeepsUnique(tailnets: seq<TailnetConf>, name: string)
    requires UniqueNames(tailnets)
    ensures UniqueNames(RemoveNamed(tailnets, name))
  {
    hide EqualFold;
    if tailnets != [] {
      var init, last := tailnets[..|tailnets| - 1], tailnets[|tailnets| - 1];
      RemoveNamedKeepsUnique(init, name);
      RemoveNamedMembers(init, name);
      var kept := RemoveNamed(init, name);
      forall j | 0 <= j < |kept| ensures !EqualFold(kept[j].name, last.name) {
        assert kept[j] in init;
        var k :| 0 <= k < |init| && init[k] == kept[j];
        assert tailnets[k] == init[k];
      }
    }
  }

  lemma ServeKeepsUnique(tailnets: seq<TailnetConf>, q: Request, env: Env)
    requires UniqueNames(tailnets)
    ensures UniqueNames(Serve(tailnets, q, env))
  {
    hide EditOf, CheckCIDR, EqualFold;
    match q {
      case Update(tailnet, edit, view) =>
        var i := IndexByName(tailnets, tailnet);
        if i < |tailnets| && EditOf(tailnets[i], edit, view, env).Some? {
          EditKeepsLocks(tailnets[i], edit, view, env);
        }
      case Add(conf) =>
      case Reset(tailnet) =>
      case Remove(tailnet, finished) =>
        var i := IndexByName(tailnets, tailnet);
        if i < |tailnets| {
          RemoveNamedKeepsUnique(tailnets[i := Revoked(tailnets[i])], tailnets[i].name);
        }
    }
  }

  // The tailnet is on and holds the lock.
  ghost predicate Held(tailnets: seq<TailnetConf>, name: string, l: string) {
    exists tc :: tc in tailnets && Holder(tc, name, l)
  }

  predicate Unlocks(q: Request, name: string, l: string) {
    q.Update? && EqualFold(q.tailnet, name) && q.edit == Unlock(l)
  }

  lemma ReplacedMembers(tailnets: seq<TailnetConf>, i: nat, tc: TailnetConf)
    requires i < |tailnets|
    ensures forall x :: x in tailnets[i := tc] ==> x == tc || x in tailnets
    ensures forall x :: x in tailnets && x != tailnets[i] ==> x in tailnets[i := tc]
    ensures tc in tailnets[i := tc]
  {
    var after := tailnets[i := tc];
    assert after[i] == tc;
    forall x | x in tailnets && x != tailnets[i] ensures x in after {
      var k :| 0 <= k < |tailnets| && tailnets[k] == x;
      assert after[k] == x;
    }
  }

  lemma ServeKeepsSelected(tailnets: seq<TailnetConf>, q: Request, env: Env)
    requires AllLocksSelected(tailnets)
    ensures AllLocksSelected(Serve(tailnets, q, env))
  {
    hide EditOf, CheckCIDR, EqualFold;
    match q {
      case Update(tailnet, edit, view) =>
        var i := IndexByName(tailnets, tailnet);
        if i < |tailnets| && EditOf(tailnets[i], edit, view, env).Some? {
          EditKeepsLocks(tailnets[i], edit, view, env);
          ReplacedMembers(tailnets, i, EditOf(tailnets[i], edit, view, env).value);
        }
      case Add(conf) =>
      case Reset(tailnet) =>
        var i := IndexByName(tailnets, tailnet);
        if i < |tailnets| { ReplacedMembers(tailnets, i, Revoked(tailnets[i])); }
      case Remove(tailnet, finished) =>
        var i := IndexByName(tailnets, tailnet);
        if i < |tailnets| {
          ReplacedMembers(tailnets, i, Revoked(tailnets[i]));
          RemoveNamedMembers(tailnets[i := Revoked(tailnets[i])], tailnets[i].name);
        }
    }
  }

  lemma SameNameSameEntry(tailnets: seq<TailnetConf>, a: TailnetConf, b: TailnetConf)
    requires UniqueNames(tailnets) && a in tailnets && b in tailnets && a.name == b.name
    ensures a == b
  {
    hide UniqueNames;
    var i :| 0 <= i < |tailnets| && tailnets[i] == a;
    var j :| 0 <= j < |tailnets| && tailnets[j] == b;
    if i < j { OneOfEach(tailnets, i, j); }
    if j < i { OneOfEach(tailnets, j, i); }
  }

  lemma OneOfEach(tailnets: seq<TailnetConf>, i: nat, j: nat)
    requires UniqueNames(tailnets) && i < j < |tailnets|
    ensures tailnets[i].name != tailnets[j].name
  {
  }

  ghost predicate Holder(tc: TailnetConf, name: string, l: string) {
    tc.name == name && tc.Enabled() && l in tc.locked
  }

  // The request lets go of a lock that holds: a finished delete whose first match has that name and no locks
  // of its own, or an unlock of the only holder. Whether it does can be read off the file beforehand.
  ghost predicate Releases(tailnets: seq<TailnetConf>, q: Request, name: string, l: string) {
    match q
    case Remove(tailnet, finished) =>
      var i := IndexByName(tailnets, tailnet);
      finished && i < |tailnets| && tailnets[i].locked == [] && tailnets[i].name == name
    case Update(tailnet, edit, view) =>
      var i := IndexByName(tailnets, tailnet);
      && edit == Unlock(l) && view.Some? && l != "" && i < |tailnets|
      && forall j :: 0 <= j < |tailnets| && j != i ==> !Holder(tailnets[j], name, l)
    case Add(conf) => false
    case Reset(tailnet) => false
  }

  lemma HeldAt(tailnets: seq<TailnetConf>, name: string, l: string)
    ensures Held(tailnets, name, l) <==> exists j :: 0 <= j < |tailnets| && Holder(tailnets[j], name, l)
  {
    if j :| 0 <= j < |tailnets| && Holder(tailnets[j], name, l) {
      assert tailnets[j] in tailnets;
    }
  }

  // An edit of one entry: the lock still holds if and only if the edited entry, or another one, holds it.
  lemma HeldAfterEdit(tailnets: seq<TailnetConf>, i: nat, tc: TailnetConf, name: string, l: string)
    requires i < |tailnets|
    ensures Held(tailnets[i := tc], name, l)
            <==> Holder(tc, name, l) || exists j :: 0 <= j < |tailnets| && j != i && Holder(tailnets[j], name, l)
  {
    hide Held, Holder;
    var after := tailnets[i := tc];
    HeldAt(after, name, l);
    forall j | 0 <= j < |tailnets| && j != i ensures after[j] == tailnets[j] {}
    assert after[i] == tc;
  }

  // Duplicate names or not, a lock that holds still holds after a request unless the request releases it.
  // So no reset and no disable ever gets past a lock, and a delete does exactly when a namesake comes first.
  lemma HeldIff(tailnets: seq<TailnetConf>, q: Request, env: Env, name: string, l: string)
    requires Held(tailnets, name, l)
    ensures Held(Serve(tailnets, q, env), name, l) <==> !Releases(tailnets, q, name, l)
  {
    hide CheckCIDR, EqualFold, Held, RangeAllowed;
    HeldAt(tailnets, name, l);
    match q {
      case Update(tailnet, edit, view) => UpdateHeldIff(tailnets, tailnet, edit, view, env, name, l);
      case Add(conf) =>
        var h :| 0 <= h < |tailnets| && Holder(tailnets[h], name, l);
        var after := tailnets + [Fresh(conf)];
        assert after[h] == tailnets[h];
        HeldAt(after, name, l);
      case Reset(tailnet) =>
        var i := IndexByName(tailnets, tailnet);
        if i < |tailnets| { HeldAfterEdit(tailnets, i, Revoked(tailnets[i]), name, l); }
      case Remove(tailnet, finished) => RemoveHeldIff(tailnets, tailnet, finished, env, name, l);
    }
  }

  lemma UpdateHeldIff(tailnets: seq<TailnetConf>, tailnet: string, edit: Edit, view: Option<View>, env: Env,
                      name: string, l: string)
    requires Held(tailnets, name, l)
    ensures var q := Update(tailnet, edit, view);
      Held(Serve(tailnets, q, env), name, l) <==> !Releases(tailnets, q, name, l)
  {
    hide CheckCIDR, EqualFold, Held, EditOf;
    HeldAt(tailnets, name, l);
    var i := IndexByName(tailnets, tailnet);
    if i < |tailnets| {
      var conf' := EditOf(tailnets[i], edit, view, env);
      if edit.Unlock? { UnlockMeans(tailnets[i], edit.peer, view, env); }
      if conf'.Some? {
        EditKeepsLocks(tailnets[i], edit, view, env);
        HeldAfterEdit(tailnets, i, conf'.value, name, l);
      }
    }
  }

  lemma UnlockMeans(conf: TailnetConf, peer: string, view: Option<View>, env: Env)
    ensures EditOf(conf, Unlock(peer), view, env).Some? <==> view.Some? && peer != ""
    ensures var conf' := EditOf(conf, Unlock(peer), view, env);
      conf'.Some? ==> peer !in conf'.value.locked
  {
  }

  lemma RemoveHeldIff(tailnets: seq<TailnetConf>, tailnet: string, finished: bool, env: Env, name: string, l: string)
    requires Held(tailnets, name, l)
    ensures var q := Remove(tailnet, finished);
      Held(Serve(tailnets, q, env), name, l) <==> !Releases(tailnets, q, name, l)
  {
    hide CheckCIDR, EqualFold;
    var i := IndexByName(tailnets, tailnet);
    if i < |tailnets| && tailnets[i].locked == [] {
      ReplacedMembers(tailnets, i, Revoked(tailnets[i]));
      RemoveNamedMembers(tailnets[i := Revoked(tailnets[i])], tailnets[i].name);
    }
  }

  // With unique names, a lock holds its tailnet on and in the file through every request but its own unlock.
  lemma ServeKeepsHeld(tailnets: seq<TailnetConf>, q: Request, env: Env, name: string, l: string)
    requires UniqueNames(tailnets) && Held(tailnets, name, l) && !Unlocks(q, name, l)
    ensures Held(Serve(tailnets, q, env), name, l)
  {
    hide Serve, EqualFold, UniqueNames, Held;
    HeldIff(tailnets, q, env, name, l);
    HeldAt(tailnets, name, l);
    var h :| 0 <= h < |tailnets| && Holder(tailnets[h], name, l);
    if q.Remove? || q.Update? {
      var i := IndexByName(tailnets, q.tailnet);
      if i < |tailnets| {
        if i == h { FoldsBack(name, q.tailnet); }
        if tailnets[i].name == name { SameNameSameEntry(tailnets, tailnets[i], tailnets[h]); }
      }
    }
  }

  function ServeAll(tailnets: seq<TailnetConf>, run: seq<Request>, env: Env): seq<TailnetConf> {
    if run == [] then tailnets else Serve(ServeAll(tailnets, run[..|run| - 1], env), run[|run| - 1], env)
  }

  // Over any run of requests: locks stay selected, and a lock nobody releases keeps its tailnet configured,
  // switched on, and that name wanted.
  lemma {:induction false} LocksHoldOverRuns(tailnets: seq<TailnetConf>, run: seq<Request>, env: Env)
    requires UniqueNames(tailnets) && AllLocksSelected(tailnets)
    ensures UniqueNames(ServeAll(tailnets, run, env)) && AllLocksSelected(ServeAll(tailnets, run, env))
    ensures forall name, l ::
              (Held(tailnets, name, l) && forall k :: 0 <= k < |run| ==> !Unlocks(run[k], name, l))
              ==> Held(ServeAll(tailnets, run, env), name, l)
  {
    hide Serve, UniqueNames, AllLocksSelected, Held, Unlocks;
    if run != [] {
      var n := |run| - 1;
      var before := ServeAll(tailnets, run[..n], env);
      LocksHoldOverRuns(tailnets, run[..n], env);
      ServeKeepsUnique(before, run[n], env);
      ServeKeepsSelected(before, run[n], env);
      forall name, l | Held(tailnets, name, l) && forall k :: 0 <= k < |run| ==> !Unlocks(run[k], name, l)
        ensures Held(ServeAll(tailnets, run, env), name, l)
      {
        assert forall k :: 0 <= k < n ==> run[..n][k] == run[k];
        ServeKeepsHeld(before, run[n], env, name, l);
      }
    }
  }

  ghost predicate HeldThroughout(tailnets: seq<TailnetConf>, run: seq<Request>, env: Env, name: string, l: string) {
    forall k :: 0 <= k <= |run| ==> Held(ServeAll(tailnets, run[..k], env), name, l)
  }

  ghost predicate NeverReleased(tailnets: seq<TailnetConf>, run: seq<Request>, env: Env, name: string, l: string) {
    forall k :: 0 <= k < |run| ==> !Releases(ServeAll(tailnets, run[..k], env), run[k], name, l)
  }

  // Over any run and with duplicate names allowed: a lock holds at every moment if and only if no request,
  // in the state it meets, releases it.
  lemma {:induction false} HeldThroughoutIff(tailnets: seq<TailnetConf>, run: seq<Request>, env: Env, name: string,
    l: string)
    requires Held(tailnets, name, l)
    ensures HeldThroughout(tailnets, run, env, name, l) <==> NeverReleased(tailnets, run, env, name, l)
  {
    hide Serve, Held, Releases, HeldThroughout, NeverReleased;
    if run == [] {
      HeldOfEmpty(tailnets, run, env, name, l);
    } else {
      var n := |run| - 1;
      var before := ServeAll(tailnets, run[..n], env);
      HeldThroughoutIff(tailnets, run[..n], env, name, l);
      HeldUnfolds(tailnets, run, env, name, l);
      ReleasedUnfolds(tailnets, run, env, name, l);
      if HeldThroughout(tailnets, run[..n], env, name, l) { HeldAtEnd(tailnets, run[..n], env, name, l); }
      if Held(before, name, l) { HeldIff(before, run[n], env, name, l); }
    }
  }

  lemma HeldOfEmpty(tailnets: seq<TailnetConf>, run: seq<Request>, env: Env, name: string, l: string)
    requires Held(tailnets, name, l) && run == []
    ensures HeldThroughout(tailnets, run, env, name, l) && NeverReleased(tailnets, run, env, name, l)
  {
    hide Held;
    forall k | 0 <= k <= |run| ensures Held(ServeAll(tailnets, run[..k], env), name, l) {
      assert run[..k] == [];
    }
  }

  lemma HeldAtEnd(tailnets: seq<TailnetConf>, run: seq<Request>, env: Env, name: string, l: string)
    requires HeldThroughout(tailnets, run, env, name, l)
    ensures Held(ServeAll(tailnets, run, env), name, l)
  {
    hide Held, ServeAll;
    assert run[..|run|] == run;
  }

  lemma HeldUnfolds(tailnets: seq<TailnetConf>, run: seq<Request>, env: Env, name: string, l: string)
    requires run != []
    ensures HeldThroughout(tailnets, run, env, name, l)
            <==> HeldThroughout(tailnets, run[..|run| - 1], env, name, l) && Held(ServeAll(tailnets, run, env), name, l)
  {
    hide Held, ServeAll;
    var n := |run| - 1;
    assert run[..|run|] == run;
    forall k | 0 <= k <= n ensures run[..n][..k] == run[..k] {}
  }

  lemma ReleasedUnfolds(tailnets: seq<TailnetConf>, run: seq<Request>, env: Env, name: string, l: string)
    requires run != []
    ensures var n := |run| - 1;
      NeverReleased(tailnets, run, env, name, l)
      <==> NeverReleased(tailnets, run[..n], env, name, l)
           && !Releases(ServeAll(tailnets, run[..n], env), run[n], name, l)
  {
    hide Releases, ServeAll;
    var n := |run| - 1;
    forall k | 0 <= k <= n ensures run[..n][..k] == run[..k] {}
    forall k | 0 <= k < n ensures run[..n][k] == run[k] {}
  }

  // Entries of one exact name defeat a lock: a delete checks the locks of the first and drops them all.
  lemma DeleteTakesTheNamesake(a: TailnetConf, b: TailnetConf, env: Env)
    requires a.name == b.name && a.locked == [] && b.locked != []
    ensures Serve([a, b], Remove(a.name, true), env) == []
  {
    assert EqualFold(a.name, a.name);
    var off := [a, b][0 := Revoked(a)];
    assert off[..1] == [Revoked(a)] && [Revoked(a)][..0] == [];
    assert RemoveNamed([Revoked(a)], a.name) == [];
    assert off[|off| - 1].name == a.name;
  }

  // ---- the views beside the resolver ----

  // The short name the listings print.
  function ShortName(dnsName: string, suffix: string): string {
    TrimSuffix(Normal(dnsName), "." + suffix)
  }

  predicate PeerBox(conf: TailnetConf, live: Live, p: Peer, lib: Lib) {
    var short := ShortName(p.dnsName, live.suffix);
    conf.allowAll || short in conf.resources || short in conf.locked
      || AutoPeerRule(conf.autoSelect, short, p.tags, lib) != ""
  }

  predicate ServiceBox(conf: TailnetConf, live: Live, sd: Service, lib: Lib) {
    sd.name in conf.resources || sd.name in conf.locked
    || AutoSvcRule(conf.autoSelect, sd.name, sd.ports, HostTags(live.peers, sd), lib) != ""
  }

  // Service names carry the svc: prefix and peer short names do not.
  ghost predicate Named(live: Live) {
    && UniqueShorts(live.peers, live.suffix)
    && UniqueServices(live.services)
    && (forall sd :: sd in live.services ==> IsServiceResource(sd.name))
    && (forall p :: p in live.peers ==> !IsServiceResource(PeerShort(p.dnsName, live.suffix)))
  }

  lemma PeerIsNoService(live: Live, s: string)
    requires Named(live)
    ensures PeerFor(live.peers, live.suffix, s).Some? ==> !IsServiceResource(s)
    ensures ServiceFor(live.services, s).Some? ==> IsServiceResource(s)
  {
    hide PeerShort, IsServiceResource, UniqueShorts, UniqueServices;
    PeerForIsLive(live.peers, live.suffix, s);
    ServiceForMembers(live.services, s);
  }

  lemma SoleService(live: Live, sd: Service)
    requires Named(live) && sd in live.services
    ensures ServiceFor(live.services, sd.name) == Some(sd)
  {
    hide IsServiceResource, UniqueShorts;
    NameOfMember(live.services, sd);
    ServiceForMembers(live.services, sd.name);
  }

  lemma SolePeer(live: Live, p: Peer)
    requires Named(live) && p in live.peers && Selectable(p, live.suffix)
    ensures PeerFor(live.peers, live.suffix, PeerShort(p.dnsName, live.suffix)) == Some(p)
  {
    hide PeerShort, IsServiceResource, UniqueServices, Selectable;
    PeerForFinds(live.peers, live.suffix, p);
    PeerForIsLive(live.peers, live.suffix, PeerShort(p.dnsName, live.suffix));
  }

  // The peers checkbox is on exactly for the wanted peers of the tailnet.
  lemma PeerBoxIsWanted(conf: TailnetConf, live: Live, p: Peer, lib: Lib)
    requires Named(live) && p in live.peers && Selectable(p, live.suffix) && live.suffix != ""
    ensures ShortName(p.dnsName, live.suffix) == PeerShort(p.dnsName, live.suffix)
    ensures PeerBox(conf, live, p, lib) <==> Wanted(conf, live, PeerShort(p.dnsName, live.suffix), lib)
  {
    hide AutoPeerRule, IsServiceResource, UniqueShorts, UniqueServices, PeerFor, ServiceFor;
    SolePeer(live, p);
    PeerIsNoService(live, PeerShort(p.dnsName, live.suffix));
  }

  // A peer shared in from another tailnet is listed by its full name, which resolves to nothing: its box
  // disagrees exactly when allow_all or a rule ticks it and no lock or listing wants it.
  lemma ForeignBoxDisagrees(conf: TailnetConf, live: Live, p: Peer, lib: Lib)
    requires Named(live) && p in live.peers && live.suffix != ""
    requires PeerShort(p.dnsName, live.suffix) == "" && !IsServiceResource(ShortName(p.dnsName, live.suffix))
    requires PeerFor(live.peers, live.suffix, ShortName(p.dnsName, live.suffix)).None?
    ensures var s := ShortName(p.dnsName, live.suffix);
      (PeerBox(conf, live, p, lib) <==> Wanted(conf, live, s, lib))
      <==> s in conf.locked || (s in conf.resources && !conf.allowAll)
           || (!conf.allowAll && AutoPeerRule(conf.autoSelect, s, p.tags, lib) == "")
  {
    hide AutoPeerRule, IsServiceResource, UniqueShorts, UniqueServices, PeerFor, ServiceFor, PeerShort;
    PeerIsNoService(live, ShortName(p.dnsName, live.suffix));
  }

  // The services checkbox disagrees exactly for a service that only the listing selects under allow_all.
  lemma ServiceBoxIsWantedIff(conf: TailnetConf, live: Live, sd: Service, lib: Lib)
    requires Named(live) && sd in live.services
    ensures (ServiceBox(conf, live, sd, lib) <==> Wanted(conf, live, sd.name, lib))
        <==> !(conf.allowAll && sd.name in conf.resources && sd.name !in conf.locked
               && AutoSvcRule(conf.autoSelect, sd.name, sd.ports, HostTags(live.peers, sd), lib) == "")
  {
    hide AutoSvcRule, IsServiceResource, UniqueShorts, UniqueServices, PeerFor, ServiceFor, HostTags;
    SoleService(live, sd);
    PeerIsNoService(live, sd.name);
  }

  // What the control requests see of the live data.
  function TagsByShort(peers: seq<Peer>, suffix: string): map<string, set<string>> {
    if peers == [] then map[]
    else
      var init, p := TagsByShort(peers[..|peers| - 1], suffix), peers[|peers| - 1];
      if Selectable(p, suffix) then init[PeerShort(p.dnsName, suffix) := p.tags] else init
  }

  ghost predicate Sees(v: View, live: Live) {
    && v.tags == Some(TagsByShort(live.peers, live.suffix))
    && v.services == Some(live.services)
    && (forall sd :: sd in live.services ==> v.hostTags(sd.name) == HostTags(live.peers, sd))
  }

  lemma {:induction false} TagsAreThePeers(peers: seq<Peer>, suffix: string, s: string)
    ensures s in TagsByShort(peers, suffix) ==>
              exists p :: p in peers && Selectable(p, suffix) && PeerShort(p.dnsName, suffix) == s
                          && p.tags == TagsByShort(peers, suffix)[s]
    ensures s in TagsByShort(peers, suffix) <==> PeerFor(peers, suffix, s).Some?
  {
    hide Selectable, PeerShort;
    if peers != [] {
      var init := peers[..|peers| - 1];
      TagsAreThePeers(init, suffix, s);
      assert peers == init + [peers[|peers| - 1]];
    }
  }

  // A successful forget leaves the name wanted only when allow_all still selects that live peer.
  lemma ForgetUnselects(conf: TailnetConf, live: Live, s: string, v: View, env: Env)
    requires Named(live) && Sees(v, live) && EditOf(conf, Forget(s), Some(v), env).Some?
    ensures Wanted(EditOf(conf, Forget(s), Some(v), env).value, live, s, env.lib)
        <==> conf.allowAll && PeerFor(live.peers, live.suffix, s).Some?
  {
    hide AutoPeerRule, AutoSvcRule, IsServiceResource, UniqueShorts, UniqueServices, PeerFor, ServiceFor, HostTags,
         Selectable, PeerShort, TagsByShort;
    PeerIsNoService(live, s);
    ServiceForMembers(live.services, s);
    if PeerFor(live.peers, live.suffix, s).Some? {
      TagsAreThePeers(live.peers, live.suffix, s);
      var p :| p in live.peers && Selectable(p, live.suffix) && PeerShort(p.dnsName, live.suffix) == s
               && p.tags == TagsByShort(live.peers, live.suffix)[s];
      SolePeer(live, p);
    }
  }

  // A selected name is wanted from then on, except that under allow_all the listing counts for nothing: then
  // it must be a live peer, locked, or a service some rule selects.
  lemma SelectWants(conf: TailnetConf, live: Live, s: string, v: View, env: Env)
    requires EditOf(conf, Select(s), Some(v), env).Some?
    ensures Wanted(EditOf(conf, Select(s), Some(v), env).value, live, s, env.lib)
        <==> !conf.allowAll || s in conf.locked || PeerFor(live.peers, live.suffix, s).Some?
             || SvcRuled(conf.autoSelect, live, s, env.lib)
  {
    hide PeerFor, SvcRuled, Known, AutoPeerRule;
  }

  // After a clear exactly the locked names are wanted.
  lemma ClearLeavesLocks(conf: TailnetConf, live: Live, s: string, view: Option<View>, env: Env)
    ensures Wanted(EditOf(conf, Clear, view, env).value, live, s, env.lib) <==> s in conf.locked
  {
    hide PeerFor, ServiceFor, HostTags;
  }

  // A lock that holds is wanted, whatever is live.
  lemma LocksAreWanted(tc: TailnetConf, live: Live, l: string, lib: Lib)
    requires l in tc.locked
    ensures l in Want(tc, live, lib)
  {
    hide Want, PeerRuled, SvcRuled, PeerFor;
    WantIsWanted(tc, live, l, lib);
  }
}
