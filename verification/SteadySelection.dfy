/** What selection hands to the registry keeps every name under the suffix of its tailnet. */
module SteadySelection {
  import opened Text
  import opened Config
  import opened RegistrySpec
  import opened Steering
  import opened Applying
  import Selection
  import SelectionLaws

  // Every name a resolution yields lies under the suffix it was resolved for, peers and services alike.
  lemma ResolvedFits(conf: TailnetConf, live: Selection.Live, pins: map<string, Selection.Pin>, lib: Selection.Lib,
                     sel: Selection.Selected)
    requires sel in Selection.ResolveOf(conf, Some(live), pins, lib).resolved
    ensures FitsSuffix(sel.fqdn, live.suffix)
  {
    hide Selection.Want, Selection.PeerFor, Selection.ServiceFor, Selection.ResolveOne, Selection.ResolveAll,
         Selection.Pins, FitsSuffix;
    var want := Selection.Want(conf, live, lib);
    SelectionLaws.ResolveAllLists(want, live, pins);
    SelectionLaws.EveryNameIsAccounted(want, live, pins);
    var s :| s in want && Selection.ResolveOne(s, live, pins) == Selection.Resolved(sel);
    ResolvedOneFits(s, live, pins, sel);
  }

  lemma ResolvedOneFits(s: string, live: Selection.Live, pins: map<string, Selection.Pin>, sel: Selection.Selected)
    requires Selection.ResolveOne(s, live, pins) == Selection.Resolved(sel)
    ensures FitsSuffix(sel.fqdn, live.suffix)
  {
    hide Selection.PeerFor, Selection.ServiceFor, Selection.IsServiceResource, Selection.IsMullvad;
    SelectionLaws.PeerForIsLive(live.peers, live.suffix, s);
    if !Selection.IsServiceResource(s) {
      var p := Selection.PeerFor(live.peers, live.suffix, s).value;
      assert Selection.PeerShort(p.dnsName, live.suffix) != "";
    } else {
      var sd := Selection.ServiceFor(live.services, s).value;
      LabelFits(Selection.ServiceLabel(sd.details), live.suffix);
    }
  }

  lemma LabelFits(bare: string, suffix: string)
    ensures HasSuffix(bare + "." + suffix, "." + suffix)
  {
    var name := bare + "." + suffix;
    assert name == bare + ("." + suffix);
    assert name[|name| - |"." + suffix|..] == "." + suffix;
  }

  // The tailnet's names fit the suffix the registry has for it.
  ghost predicate Fits(reg: State, r: Ready) {
    forall k :: 0 <= k < |r.resolved| ==> UnderOwnSuffix(reg, r.conf.name, r.resolved[k].fqdn)
  }

  // A resolution made for the suffix the registry has, or while it has none, is a steady step.
  lemma SelectionIsSteady(reg: State, conf: TailnetConf, live: Selection.Live, pins: map<string, Selection.Pin>,
                          lib: Selection.Lib)
    requires var i := IndexOf(reg.entries, conf.name);
      i < |reg.entries| ==> reg.entries[i].suffix == "" || reg.entries[i].suffix == live.suffix
    ensures var r := Ready(conf, Selection.ResolveOf(conf, Some(live), pins, lib).resolved);
      && Fits(reg, r)
      && Steady(reg, SeedOp(conf.name, Selection.SortStrings(FQDNs(r.resolved))))
      && forall k :: 0 <= k < |r.resolved| ==> Steady(reg, AllocateOp(conf.name, r.resolved[k].fqdn))
  {
    hide Selection.ResolveOf, FitsSuffix;
    var r := Ready(conf, Selection.ResolveOf(conf, Some(live), pins, lib).resolved);
    forall k | 0 <= k < |r.resolved| ensures UnderOwnSuffix(reg, conf.name, r.resolved[k].fqdn) {
      ResolvedFits(conf, live, pins, lib, r.resolved[k]);
      NothingFitsAll(r.resolved[k].fqdn);
    }
    FitsSeeds(reg, r);
  }

  lemma NothingFitsAll(f: string)
    ensures FitsSuffix(f, "")
  {
  }

  lemma FitsSeeds(reg: State, r: Ready)
    requires Fits(reg, r)
    ensures forall f :: f in Selection.SortStrings(FQDNs(r.resolved)) ==> UnderOwnSuffix(reg, r.conf.name, f)
  {
    hide UnderOwnSuffix;
    var names := FQDNs(r.resolved);
    SortKeepsMembers(names);
    forall f | f in Selection.SortStrings(names) ensures UnderOwnSuffix(reg, r.conf.name, f) {
      var k :| 0 <= k < |names| && names[k] == f;
      assert r.resolved[k].fqdn == f;
    }
  }

  // So a whole pass keeps every stored name under the suffix of the tailnet that owns its address.
  lemma {:induction false} ApplyKeepsHomed(reg: State, rs: seq<Ready>)
    requires Valid(reg) && AllHomed(reg) && forall r :: r in rs ==> Fits(reg, r)
    ensures Valid(ApplyOf(reg, rs).0) && AllHomed(ApplyOf(reg, rs).0)
    ensures forall r :: Fits(reg, r) ==> Fits(ApplyOf(reg, rs).0, r)
  {
    hide Valid, AllHomed, Fits, TailnetOf;
    if rs != [] {
      var n := |rs| - 1;
      assert rs == rs[..n] + [rs[n]];
      ApplyKeepsHomed(reg, rs[..n]);
      TailnetKeepsHomed(ApplyOf(reg, rs[..n]).0, rs[n]);
    }
  }

  lemma TailnetKeepsHomed(reg: State, r: Ready)
    requires Valid(reg) && AllHomed(reg) && Fits(reg, r)
    ensures Valid(TailnetOf(reg, r).0) && AllHomed(TailnetOf(reg, r).0)
    ensures forall x :: Fits(reg, x) ==> Fits(TailnetOf(reg, r).0, x)
  {
    hide Valid, AllHomed, UnderOwnSuffix, SeedOf, TailnetOf;
    SeedingDecides(reg, r);
    FitsSeeds(reg, r);
    SeedKeepsHomed(reg, r.conf.name, Selection.SortStrings(FQDNs(r.resolved)));
    SeedKeepsValid(reg, r.conf.name, Selection.SortStrings(FQDNs(r.resolved)));
  }
}
