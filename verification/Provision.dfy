/** Config soundness: names unique ignoring case, ranges disjoint. Requests keep it; two racing adds do not. */
module Provision {
  import opened Text
  import opened Cidr
  import opened Config
  import opened ConfigWrite
  import opened Writes
  import opened Ranges
  import opened Requests

  // Entries whose range does not parse take no addresses.
  ghost predicate Beside(a: TailnetConf, b: TailnetConf) {
    ParseCIDR(a.cidr).Some? && ParseCIDR(b.cidr).Some?
    ==> ParseCIDR(a.cidr).value.ones <= 32 && ParseCIDR(b.cidr).value.ones <= 32
        && Disjoint(ParseCIDR(a.cidr).value, ParseCIDR(b.cidr).value)
  }

  ghost predicate RangesDisjoint(tailnets: seq<TailnetConf>) {
    forall i, j :: 0 <= i < j < |tailnets| ==> Beside(tailnets[i], tailnets[j])
  }

  ghost predicate ConfigOk(tailnets: seq<TailnetConf>) {
    UniqueNames(tailnets) && RangesDisjoint(tailnets)
  }

  lemma BesideIsSymmetric(a: TailnetConf, b: TailnetConf)
    ensures Beside(a, b) <==> Beside(b, a)
  {
    hide Contains, ParseCIDR;
  }

  lemma AcceptedIsBeside(cidr: string, tailnets: seq<TailnetConf>, exclude: string, conf: TailnetConf, i: nat)
    requires CheckCIDR(cidr, tailnets, exclude).Accepted? && conf.cidr == cidr
    requires i < |tailnets| && !Excluded(tailnets[i], exclude)
    ensures Beside(tailnets[i], conf) && Beside(conf, tailnets[i])
  {
    hide CheckCIDR, ParseCIDR, Contains;
    CheckAcceptsExactlyFreeBlocks(cidr, tailnets, exclude);
    ParsedIsWf(cidr);
    ParsedIsWf(tailnets[i].cidr);
    BesideIsSymmetric(tailnets[i], conf);
  }

  lemma ReplaceKeepsRanges(tailnets: seq<TailnetConf>, i: nat, tc: TailnetConf)
    requires RangesDisjoint(tailnets) && i < |tailnets|
    requires forall j :: 0 <= j < |tailnets| && j != i ==> Beside(tailnets[j], tc) && Beside(tc, tailnets[j])
    ensures RangesDisjoint(tailnets[i := tc])
  {
    hide Beside;
  }

  lemma SameRangeKeepsRanges(tailnets: seq<TailnetConf>, i: nat, tc: TailnetConf)
    requires RangesDisjoint(tailnets) && i < |tailnets| && tc.cidr == tailnets[i].cidr
    ensures RangesDisjoint(tailnets[i := tc])
  {
    forall j | 0 <= j < |tailnets| && j != i ensures Beside(tailnets[j], tc) && Beside(tc, tailnets[j]) {
      SameRangeBeside(tailnets, i, j, tc);
    }
    ReplaceKeepsRanges(tailnets, i, tc);
  }

  lemma SameRangeBeside(tailnets: seq<TailnetConf>, i: nat, j: nat, tc: TailnetConf)
    requires RangesDisjoint(tailnets) && i < |tailnets| && j < |tailnets| && i != j && tc.cidr == tailnets[i].cidr
    ensures Beside(tailnets[j], tc) && Beside(tc, tailnets[j])
  {
    hide ParseCIDR, Disjoint;
    BesideIsSymmetric(tailnets[j], tc);
    if i < j {
      assert Beside(tailnets[i], tailnets[j]);
    } else {
      assert Beside(tailnets[j], tailnets[i]);
    }
  }

  lemma {:induction false} RemoveNamedKeepsRanges(tailnets: seq<TailnetConf>, name: string)
    requires RangesDisjoint(tailnets)
    ensures RangesDisjoint(RemoveNamed(tailnets, name))
  {
    hide Beside;
    if tailnets != [] {
      var init, last := tailnets[..|tailnets| - 1], tailnets[|tailnets| - 1];
      RemoveNamedKeepsRanges(init, name);
      RemoveNamedMembers(init, name);
      var kept := RemoveNamed(init, name);
      forall j | 0 <= j < |kept| ensures Beside(kept[j], last) {
        assert kept[j] in init;
        var k :| 0 <= k < |init| && init[k] == kept[j];
        assert tailnets[k] == init[k];
      }
    }
  }

  lemma EditKeepsRange(conf: TailnetConf, edit: Edit, view: Option<View>, env: Env)
    requires EditOf(conf, edit, view, env).Some?
    ensures EditOf(conf, edit, view, env).value.cidr == if edit.Plain? then edit.cidr else conf.cidr
  {
    hide Known, AutoRuleFor, AutoOf, AddAllKnown;
  }

  lemma UpdateKeepsRanges(tailnets: seq<TailnetConf>, q: Request, env: Env)
    requires UniqueNames(tailnets) && RangesDisjoint(tailnets) && q.Update?
    ensures RangesDisjoint(Serve(tailnets, q, env))
  {
    hide EditOf, CheckCIDR, RangesDisjoint;
    var i := IndexByName(tailnets, q.tailnet);
    if i < |tailnets| && RangeAllowed(tailnets, tailnets[i], q.edit) && EditOf(tailnets[i], q.edit, q.view, env).Some? {
      var conf' := EditOf(tailnets[i], q.edit, q.view, env).value;
      EditKeepsRange(tailnets[i], q.edit, q.view, env);
      if conf'.cidr == tailnets[i].cidr {
        SameRangeKeepsRanges(tailnets, i, conf');
      } else {
        forall j | 0 <= j < |tailnets| && j != i ensures Beside(tailnets[j], conf') && Beside(conf', tailnets[j]) {
          NotExcluded(tailnets, i, j);
          AcceptedIsBeside(q.edit.cidr, tailnets, tailnets[i].name, conf', j);
        }
        ReplaceKeepsRanges(tailnets, i, conf');
      }
    }
  }

  lemma NotExcluded(tailnets: seq<TailnetConf>, i: nat, j: nat)
    requires UniqueNames(tailnets) && i < |tailnets| && j < |tailnets| && i != j
    ensures !Excluded(tailnets[j], tailnets[i].name)
  {
    assert i < j ==> !EqualFold(tailnets[i].name, tailnets[j].name);
  }

  // Every request, add and removal included, keeps names unique and ranges disjoint.
  lemma ServeKeepsConfigOk(tailnets: seq<TailnetConf>, q: Request, env: Env)
    requires ConfigOk(tailnets)
    ensures ConfigOk(Serve(tailnets, q, env))
  {
    hide EditOf, CheckCIDR, UniqueNames, RangesDisjoint;
    ServeKeepsUnique(tailnets, q, env);
    match q {
      case Update(tailnet, edit, view) => UpdateKeepsRanges(tailnets, q, env);
      case Add(conf) =>
        if IndexByName(tailnets, conf.name) == |tailnets| && CheckCIDR(conf.cidr, tailnets, "").Accepted? {
          AppendKeepsConfigOkIff(tailnets, Fresh(conf));
          forall i | 0 <= i < |tailnets| ensures Beside(tailnets[i], Fresh(conf)) {
            AcceptedIsBeside(conf.cidr, tailnets, "", Fresh(conf), i);
          }
        }
      case Reset(tailnet) =>
        var i := IndexByName(tailnets, tailnet);
        if i < |tailnets| { SameRangeKeepsRanges(tailnets, i, Revoked(tailnets[i])); }
      case Remove(tailnet, finished) =>
        var i := IndexByName(tailnets, tailnet);
        if i < |tailnets| {
          SameRangeKeepsRanges(tailnets, i, Revoked(tailnets[i]));
          RemoveNamedKeepsRanges(tailnets[i := Revoked(tailnets[i])], tailnets[i].name);
        }
    }
  }

  // Appending an entry is sound exactly when its name is new and its range is free at that moment.
  lemma AppendKeepsConfigOkIff(tailnets: seq<TailnetConf>, c: TailnetConf)
    requires ConfigOk(tailnets)
    ensures ConfigOk(tailnets + [c])
        <==> IndexByName(tailnets, c.name) == |tailnets| && forall i :: 0 <= i < |tailnets| ==> Beside(tailnets[i], c)
  {
    hide Beside;
    var all := tailnets + [c];
    assert forall i :: 0 <= i < |tailnets| ==> all[i] == tailnets[i];
    assert all[|tailnets|] == c;
    if ConfigOk(all) {
      forall i | 0 <= i < |tailnets| ensures Beside(tailnets[i], c) && !EqualFold(tailnets[i].name, c.name) {
        assert Beside(all[i], all[|tailnets|]) && !EqualFold(all[i].name, all[|tailnets|].name);
      }
    }
  }

  predicate Passes(tailnets: seq<TailnetConf>, c: TailnetConf) {
    IndexByName(tailnets, c.name) == |tailnets| && CheckCIDR(c.cidr, tailnets, "").Accepted?
  }

  lemma PassesMeansOk(tailnets: seq<TailnetConf>, c: TailnetConf)
    requires ConfigOk(tailnets) && Passes(tailnets, c)
    ensures ConfigOk(tailnets + [c])
    ensures forall i :: 0 <= i < |tailnets| ==> Beside(tailnets[i], c) && !EqualFold(tailnets[i].name, c.name)
  {
    hide CheckCIDR, Beside, RangesDisjoint, UniqueNames, EqualFold;
    forall i | 0 <= i < |tailnets| ensures Beside(tailnets[i], c) {
      AcceptedIsBeside(c.cidr, tailnets, "", c, i);
    }
    AppendKeepsConfigOkIff(tailnets, c);
  }

  // What the file says after an append that may be refused.
  function Appended(tailnets: seq<TailnetConf>, c: TailnetConf): seq<TailnetConf> {
    var out := Write(tailnets, tailnets, tailnets + [c]);
    if out.Some? then out.value else tailnets
  }

  // The daemon checks an add under one lock hold and appends it under another. Of two adds checked against
  // the same file the first is appended; the second is refused exactly when it has the first one's exact
  // name, and otherwise leaves a sound config exactly when the two differ in name, ignoring case, and range.
  // So two adds of different names that pick their own free range never do.
  lemma RacingAdds(tailnets: seq<TailnetConf>, a: TailnetConf, b: TailnetConf)
    requires ConfigOk(tailnets) && Passes(tailnets, a) && Passes(tailnets, b) && a.stateDir == b.stateDir == ""
    ensures Appended(tailnets, a) == tailnets + [a]
    ensures var both := Appended(Appended(tailnets, a), b);
      && both == (if a.name == b.name then tailnets + [a] else tailnets + [a] + [b])
      && (ConfigOk(both) <==> a.name == b.name || (!EqualFold(a.name, b.name) && Beside(a, b)))
      && (a.cidr == b.cidr && a.name != b.name ==> !ConfigOk(both))
  {
    hide CheckCIDR, Beside, RangesDisjoint, UniqueNames, EqualFold, Write, Has;
    PassesMeansOk(tailnets, a);
    PassesMeansOk(tailnets, b);
    var all := tailnets + [a];
    AppendKeepsConfigOkIff(all, b);
    assert forall i :: 0 <= i < |tailnets| ==> all[i] == tailnets[i];
    assert all[|tailnets|] == a;
    FoldedUniqueIsUnique(tailnets);
    FoldedUniqueIsUnique(all);
    NewNameIsNew(tailnets, a);
    NewNameIsNew(tailnets, b);
    HasOneMore(tailnets, a, b.name);
    AppendIsWritten(tailnets, a);
    AppendIsWritten(all, b);
    if a.cidr == b.cidr { SameRangeMeets(tailnets, a, b); }
  }

  lemma NewNameIsNew(tailnets: seq<TailnetConf>, c: TailnetConf)
    requires forall i :: 0 <= i < |tailnets| ==> !EqualFold(tailnets[i].name, c.name)
    ensures !Has(tailnets, c.name)
  {
    FoldsToItself(c.name);
  }

  lemma HasOneMore(tailnets: seq<TailnetConf>, c: TailnetConf, name: string)
    ensures Has(tailnets + [c], name) <==> Has(tailnets, name) || c.name == name
  {
    var all := tailnets + [c];
    assert all[|tailnets|] == c;
    if i :| 0 <= i < |tailnets| && tailnets[i].name == name { assert all[i].name == name; }
  }

  lemma SameRangeMeets(tailnets: seq<TailnetConf>, a: TailnetConf, b: TailnetConf)
    requires CheckCIDR(a.cidr, tailnets, "").Accepted? && a.cidr == b.cidr
    ensures !Beside(a, b)
  {
    hide CheckCIDR, ParseCIDR, Contains;
    CheckAcceptsExactlyFreeBlocks(a.cidr, tailnets, "");
    var blk := ParseCIDR(a.cidr).value;
    ParsedIsWf(a.cidr);
    ContainsIsInterval(blk, blk.base);
  }
}
