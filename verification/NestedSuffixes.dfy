/** How steering goes astray: a run of the daemon's own operations after which a name of one tailnet is
    answered with an address of another. */
module NestedSuffixes {
  import opened Text
  import opened Cidr
  import opened Config
  import opened Matching
  import opened Ranges
  import opened RegistrySpec
  import opened Steering

  function Conf(name: string, net: Block): TailnetConf {
    TailnetConf(name, "", name, Format(net), "tsm", "", "", None, false, false, [], [], [], false, false, "")
  }

  // Tailnet x learns its suffix "t" and gives "b.t" an address; then y joins and learns the suffix "b.t".
  const ADD_X: Op := AddOp(Conf("x", Candidate(0)))
  const X_LEARNS: Op := SuffixOp("x", "t")
  const X_GIVES: Op := AllocateOp("x", "b.t")
  const ADD_Y: Op := AddOp(Conf("y", Candidate(1)))
  const Y_LEARNS: Op := SuffixOp("y", "b.t")

  lemma Spelled()
    ensures Lower("x") == "x" && Lower("y") == "y" && Normal("t") == "t" && Normal("b.t") == "b.t" && Normal("") == ""
    ensures Conf("x", Candidate(0)).DomainName() == "x" && Conf("y", Candidate(1)).DomainName() == "y"
  {
    assert Lower("t") == "t" && Lower("b.t") == "b.t" && Lower("") == "";
  }

  lemma Nets()
    ensures Wf(Candidate(0)) && Wf(Candidate(1)) && Apart(Candidate(0), Candidate(1))
    ensures ParseCIDR(Format(Candidate(0))) == Some(Candidate(0))
      && ParseCIDR(Format(Candidate(1))) == Some(Candidate(1))
    ensures Size(24) == 256
  {
    hide ParseCIDR, Format;
    CandidateIsWf(0);
    CandidateIsWf(1);
    ParseOfFormat(Candidate(0));
    ParseOfFormat(Candidate(1));
    SizeOf24();
  }

  function EntryX(suffix: string, next: nat): Entry {
    Entry("x", "x", suffix, Candidate(0), Allocator(Candidate(0).base, next, 256))
  }

  function EntryY(suffix: string): Entry {
    Entry("y", "y", suffix, Candidate(1), Allocator(Candidate(1).base, 1, 256))
  }

  lemma NewEntries()
    ensures NewEntry(ADD_X.conf, Candidate(0)) == EntryX("", 1) && NewEntry(ADD_Y.conf, Candidate(1)) == EntryY("")
    ensures ParseCIDR(ADD_X.conf.cidr) == Some(Candidate(0)) && ParseCIDR(ADD_Y.conf.cidr) == Some(Candidate(1))
  {
    hide Lower, Normal, ParseCIDR, Format, Size, Slugify;
    Spelled();
    Nets();
    assert ADD_X.conf == Conf("x", Candidate(0)) && ADD_Y.conf == Conf("y", Candidate(1));
    assert 256 % ADDRESS_SPACE == 256;
  }

  // An add whose name is new appends its entry.
  lemma AddIs(s: State, conf: TailnetConf, net: Block)
    requires ParseCIDR(conf.cidr) == Some(net) && net.ones <= 32
    requires forall i :: 0 <= i < |s.entries| ==> s.entries[i].name != Lower(conf.name)
    ensures Apply(s, AddOp(conf)) == s.(entries := s.entries + [NewEntry(conf, net)], cidrs := s.cidrs + [net])
  {
    hide ParseCIDR, NewEntry, Lower;
  }

  // A suffix for the tailnet registered last.
  lemma SuffixIs(s: State, e: Entry, name: string, suffix: string)
    requires e.name == Lower(name) && Normal(suffix) == suffix && suffix != ""
    requires s.entries != [] && s.entries[|s.entries| - 1] == e
    requires forall i :: 0 <= i < |s.entries| - 1 ==> s.entries[i].name != e.name
    ensures Apply(s, SuffixOp(name, suffix)) == s.(entries := s.entries[..|s.entries| - 1] + [e.(suffix := suffix)])
  {
    hide Normal, Lower;
    assert IndexOf(s.entries, e.name) == |s.entries| - 1;
    assert s.entries[|s.entries| - 1 := e.(suffix := suffix)] == s.entries[..|s.entries| - 1] + [e.(suffix := suffix)];
  }

  lemma FirstSteps()
    ensures Apply(Apply(EMPTY, ADD_X), X_LEARNS) == State([EntryX("t", 1)], map[], map[], [Candidate(0)], {})
    ensures FitsBeside(EMPTY, ADD_X.conf)
  {
    hide Lower, Normal, ParseCIDR, Format, Size, NewEntry, Apply;
    Spelled();
    NewEntries();
    AddIs(EMPTY, ADD_X.conf, Candidate(0));
    var s1 := State([EntryX("", 1)], map[], map[], [Candidate(0)], {});
    assert Apply(EMPTY, ADD_X) == s1;
    SuffixIs(s1, EntryX("", 1), "x", "t");
    assert s1.entries[..0] + [EntryX("t", 1)] == [EntryX("t", 1)];
  }

  lemma GivenStep()
    ensures var ip := Candidate(0).base + 1;
      Apply(State([EntryX("t", 1)], map[], map[], [Candidate(0)], {}), X_GIVES)
      == State([EntryX("t", 2)], map["b.t" := ip], map[ip := "b.t"], [Candidate(0)], {})
  {
    var e := EntryX("t", 1);
    assert Take(e.alloc) == Some((Candidate(0).base + 1, EntryX("t", 2).alloc));
    assert [e][0 := EntryX("t", 2)] == [EntryX("t", 2)];
  }

  lemma LastSteps()
    ensures var ip := Candidate(0).base + 1;
      var s := State([EntryX("t", 2)], map["b.t" := ip], map[ip := "b.t"], [Candidate(0)], {});
      && FitsBeside(s, ADD_Y.conf)
      && Apply(Apply(s, ADD_Y), Y_LEARNS)
         == State([EntryX("t", 2), EntryY("b.t")], map["b.t" := ip], map[ip := "b.t"], [Candidate(0), Candidate(1)], {})
  {
    hide Lower, Normal, ParseCIDR, Format, Size, Apart, NewEntry, Apply;
    Spelled();
    Nets();
    NewEntries();
    var ip := Candidate(0).base + 1;
    var s := State([EntryX("t", 2)], map["b.t" := ip], map[ip := "b.t"], [Candidate(0)], {});
    AddIs(s, ADD_Y.conf, Candidate(1));
    var s' := State([EntryX("t", 2), EntryY("")], s.byName, s.byIP, [Candidate(0), Candidate(1)], {});
    assert Apply(s, ADD_Y) == s';
    SuffixIs(s', EntryY(""), "y", "b.t");
    assert s'.entries[..1] + [EntryY("b.t")] == [EntryX("t", 2), EntryY("b.t")];
  }

  lemma RunFive(a: Op, b: Op, c: Op, d: Op, e: Op)
    ensures Run(EMPTY, [a, b, c, d, e]) == Apply(Apply(Apply(Apply(Apply(EMPTY, a), b), c), d), e)
  {
    hide Apply;
    var r1, r2, r3, r4 := [a], [a, b], [a, b, c], [a, b, c, d];
    assert r1[..0] == [] && r2[..1] == r1 && r3[..2] == r2 && r4[..3] == r3 && [a, b, c, d, e][..4] == r4;
    assert Run(EMPTY, r1) == Apply(EMPTY, a);
    assert Run(EMPTY, r2) == Apply(Run(EMPTY, r1), b);
    assert Run(EMPTY, r3) == Apply(Run(EMPTY, r2), c);
    assert Run(EMPTY, r4) == Apply(Run(EMPTY, r3), d);
  }

  // After that run the registry is sound and every range apart, yet "b.t" matches y and is answered with the
  // address x gave it.
  lemma ReachesAstray()
    ensures var s := Run(EMPTY, [ADD_X, X_LEARNS, X_GIVES, ADD_Y, Y_LEARNS]);
      && Valid(s) && HeldBy(s, "b.t", "x")
      && MatchName(s.entries, "b.t") == Found("y", "b.t", true)
      && AllocateOf(s, "y", "b.t").1 == Some(Candidate(0).base + 1)
      && !HeldBy(AllocateOf(s, "y", "b.t").0, "b.t", "y")
  {
    hide Valid, MatchName, Run, Apply, FitsBeside, AllocateOf, HeldBy;
    RunFive(ADD_X, X_LEARNS, X_GIVES, ADD_Y, Y_LEARNS);
    FirstSteps();
    GivenStep();
    LastSteps();
    EveryStepIsSound();
    var s := Run(EMPTY, [ADD_X, X_LEARNS, X_GIVES, ADD_Y, Y_LEARNS]);
    EndsAstray(s);
  }

  lemma EveryStepIsSound()
    ensures var s := Run(EMPTY, [ADD_X, X_LEARNS, X_GIVES, ADD_Y, Y_LEARNS]); Valid(s)
  {
    hide Valid, Run, Apply, FitsBeside;
    RunFive(ADD_X, X_LEARNS, X_GIVES, ADD_Y, Y_LEARNS);
    FirstSteps();
    GivenStep();
    LastSteps();
    EmptyIsValid();
    ApplyKeepsValid(EMPTY, ADD_X);
    var s2 := Apply(Apply(EMPTY, ADD_X), X_LEARNS);
    ApplyKeepsValid(Apply(EMPTY, ADD_X), X_LEARNS);
    ApplyKeepsValid(s2, X_GIVES);
    var s3 := Apply(s2, X_GIVES);
    ApplyKeepsValid(s3, ADD_Y);
    ApplyKeepsValid(Apply(s3, ADD_Y), Y_LEARNS);
  }

  lemma EmptyIsValid()
    ensures Valid(EMPTY)
  {
  }

  ghost predicate IsEnd(s: State) {
    var ip := Candidate(0).base + 1;
    s == State([EntryX("t", 2), EntryY("b.t")], map["b.t" := ip], map[ip := "b.t"], [Candidate(0), Candidate(1)], {})
  }

  lemma EndsAstray(s: State)
    requires Valid(s) && IsEnd(s)
    ensures HeldBy(s, "b.t", "x") && MatchName(s.entries, "b.t") == Found("y", "b.t", true)
    ensures AllocateOf(s, "y", "b.t").1 == Some(Candidate(0).base + 1)
    ensures !HeldBy(AllocateOf(s, "y", "b.t").0, "b.t", "y")
  {
    hide Valid, MatchName, AllocateOf, Contains, HeldBy, IsEnd;
    EndsMatched(s);
    SteeredIff(s, "y", "b.t");
    OutsideIsNotHeld(s, 1, "b.t");
  }

  lemma EndsMatched(s: State)
    requires Valid(s) && IsEnd(s)
    ensures HeldBy(s, "b.t", "x") && MatchName(s.entries, "b.t") == Found("y", "b.t", true)
    ensures AllocateOf(s, "y", "b.t").1 == Some(Candidate(0).base + 1)
    ensures |s.entries| == 2 && s.entries[1].name == "y" && s.entries[1].ipnet.ones <= 32
    ensures "b.t" in s.byName && !Contains(s.entries[1].ipnet, s.byName["b.t"])
  {
    hide Valid, MatchName, AllocateOf, Contains, HeldBy;
    HeldByX(s);
    OnesBounded(s);
    NestedSuffixSteersAstray(s, s.entries[0], s.entries[1]);
  }

  lemma OutsideIsNotHeld(s: State, k: nat, f: string)
    requires Valid(s) && k < |s.entries| && s.entries[k].ipnet.ones <= 32
    requires f in s.byName && !Contains(s.entries[k].ipnet, s.byName[f])
    ensures !HeldBy(s, f, s.entries[k].name)
  {
    hide Contains, Owns, Inverse, HasOwner, EntryOk, Apart;
    forall i | 0 <= i < |s.entries| && s.entries[i].name == s.entries[k].name && s.entries[i].ipnet.ones <= 32
      ensures !Owns(s.entries[i], s.byName[f])
    {
      if Owns(s.entries[i], s.byName[f]) { OwnsIsInside(s, i, s.byName[f]); }
    }
  }

  lemma HeldByX(s: State)
    requires s.entries == [EntryX("t", 2), EntryY("b.t")] && s.byName == map["b.t" := Candidate(0).base + 1]
    ensures HeldBy(s, "b.t", "x")
  {
    hide Size;
    Nets();
    assert Owns(s.entries[0], s.byName["b.t"]);
  }
}
