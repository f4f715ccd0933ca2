/** Choosing synthetic ranges: the overlap check on a requested block and the scan for a free /24. */
module Ranges {
  import opened Text
  import opened Cidr
  import opened Config

  // 198.18.0.0/15, the benchmark space of RFC 6890 section 2.2.2.
  const SYNTHETIC: Block := Block(0xC612_0000, 15)
  const SYNTHETIC_END: nat := 0xC614_0000

  datatype CidrVerdict = Accepted | Invalid | Outside | Overlaps(tailnet: string)

  predicate Excluded(tc: TailnetConf, exclude: string) {
    exclude != "" && EqualFold(tc.name, exclude)
  }

  // Does the entry's range meet b, judged by the two base addresses alone?
  predicate Clashes(b: Block, tc: TailnetConf)
    requires b.ones <= 32
  {
    match ParseCIDR(tc.cidr)
    case None => false
    case Some(used) => Contains(used, b.base) || Contains(b, used.base)
  }

  function FirstClash(b: Block, tailnets: seq<TailnetConf>, exclude: string): CidrVerdict
    requires b.ones <= 32
  {
    if tailnets == [] then Accepted
    else if !Excluded(tailnets[0], exclude) && Clashes(b, tailnets[0]) then Overlaps(tailnets[0].name)
    else FirstClash(b, tailnets[1..], exclude)
  }

  // checkCIDR.
  function CheckCIDR(cidr: string, tailnets: seq<TailnetConf>, exclude: string): CidrVerdict {
    match ParseCIDR(cidr)
    case None => Invalid
    case Some(b) =>
      if !Contains(SYNTHETIC, b.base) then Outside else FirstClash(b, tailnets, exclude)
  }

  lemma {:induction false} NoClashMeansFree(b: Block, tailnets: seq<TailnetConf>, exclude: string)
    requires b.ones <= 32
    ensures FirstClash(b, tailnets, exclude).Accepted?
       <==> forall i :: 0 <= i < |tailnets| && !Excluded(tailnets[i], exclude) ==> !Clashes(b, tailnets[i])
  {
    if tailnets != [] {
      NoClashMeansFree(b, tailnets[1..], exclude);
      assert forall i :: 0 < i < |tailnets| ==> tailnets[i] == tailnets[1..][i - 1];
      assert forall i :: 0 <= i < |tailnets| - 1 ==> tailnets[1..][i] == tailnets[i + 1];
    }
  }

  lemma ConcretePowers()
    ensures Pow2(17) == 0x2_0000 && Pow2(18) == 0x4_0000 && Pow2(8) == 0x100
  {
    assert Pow2(4) == 16;
    Pow2Add(4, 4);
    Pow2Add(8, 8);
    Pow2Add(1, 16);
    Pow2Add(1, 17);
  }

  lemma MultipleOfMultiple(a: nat, d: nat, e: nat)
    requires d > 0 && e > 0 && a % (d * e) == 0
    ensures a % d == 0
  {
    var q := a / (d * e);
    assert a == (d * e) * q == d * (e * q);
    QuotientUnique(d, a, e * q, 0);
  }

  // A prefix shorter than /15 is aligned to a boundary the synthetic range does not start at.
  lemma ShortPrefixStartsElsewhere(b: Block)
    requires Wf(b) && b.ones < 15
    ensures !(SYNTHETIC.base <= b.base < SYNTHETIC_END)
  {
    ConcretePowers();
    Pow2Add(18, 14 - b.ones);
    MultipleOfMultiple(b.base, Pow2(18), Pow2(14 - b.ones));
  }

  // The same on plain numbers: windows of size d, boundaries every e * d.
  lemma WindowFitsBoundary(base: nat, d: nat, e: nat, m: nat)
    requires d > 0 && base % d == 0 && base < m * (e * d)
    ensures base + d <= m * (e * d)
  {
    assert m * (e * d) == (m * e) * d;
    assert base == d * (base / d);
    WindowFits(d, base / d, m * e, base);
  }

  // An aligned window that starts below a multiple of its own size ends by there.
  lemma NarrowWindowFits(b: Block, ones: nat, m: nat)
    requires Wf(b) && ones <= b.ones && b.base < m * Size(ones)
    ensures b.base + Size(b.ones) <= m * Size(ones)
  {
    Pow2Add(b.ones - ones, 32 - b.ones);
    WindowFitsBoundary(b.base, Size(b.ones), Pow2(b.ones - ones), m);
  }

  // An aligned block that starts in the synthetic range lies inside it: no shorter prefix can start there.
  lemma SyntheticHoldsWholeBlocks(b: Block)
    requires Wf(b)
    ensures Contains(SYNTHETIC, b.base)
       <==> SYNTHETIC.base <= b.base && b.base + Size(b.ones) <= SYNTHETIC_END
  {
    ConcretePowers();
    ContainsIsInterval(SYNTHETIC, b.base);
    if SYNTHETIC.base <= b.base < SYNTHETIC_END {
      if b.ones < 15 {
        ShortPrefixStartsElsewhere(b);
      }
      NarrowWindowFits(b, 15, 0x630A);
    }
  }

  // A requested range is accepted exactly when it lies inside the synthetic space and shares no address
  // with the range of any other configured tailnet.
  lemma CheckAcceptsExactlyFreeBlocks(cidr: string, tailnets: seq<TailnetConf>, exclude: string)
    ensures CheckCIDR(cidr, tailnets, exclude).Accepted? <==>
      && ParseCIDR(cidr).Some?
      && (var b := ParseCIDR(cidr).value;
          && (forall ip: nat :: Contains(b, ip) ==> SYNTHETIC.base <= ip < SYNTHETIC_END)
          && forall i :: 0 <= i < |tailnets| && !Excluded(tailnets[i], exclude) && ParseCIDR(tailnets[i].cidr).Some?
               ==> Disjoint(b, ParseCIDR(tailnets[i].cidr).value))
  {
    ParsedIsWf(cidr);
    if ParseCIDR(cidr).Some? {
      var b := ParseCIDR(cidr).value;
      NoClashMeansFree(b, tailnets, exclude);
      SyntheticHoldsWholeBlocks(b);
      ContainsIsInterval(b, b.base);
      ContainsIsInterval(b, b.base + Size(b.ones) - 1);
      forall ip: nat | Contains(b, ip) ensures b.base <= ip < b.base + Size(b.ones) {
        ContainsIsInterval(b, ip);
      }
      forall i | 0 <= i < |tailnets| && ParseCIDR(tailnets[i].cidr).Some?
        ensures Clashes(b, tailnets[i]) <==> !Disjoint(b, ParseCIDR(tailnets[i].cidr).value)
      {
        ParsedIsWf(tailnets[i].cidr);
        BaseTestsDecideOverlap(b, ParseCIDR(tailnets[i].cidr).value);
      }
    }
  }

  // ---- nextFreeCIDR ----

  const SCAN: nat := 512

  // The k-th /24 probed: 198.18.1.0, 198.18.2.0, … 198.19.255.0, then 198.20.0.0.
  function Candidate(k: nat): Block {
    Block(0xC612_0100 + 0x100 * k, 24)
  }

  lemma CandidateIsWf(k: nat)
    requires k < SCAN
    ensures Wf(Candidate(k))
  {
    ConcretePowers();
  }

  predicate Accepts(tailnets: seq<TailnetConf>, probe: Block) {
    CheckCIDR(Format(probe), tailnets, "").Accepted?
  }

  predicate Free(tailnets: seq<TailnetConf>, k: nat) {
    Accepts(tailnets, Candidate(k))
  }

  lemma CheckOfFormat(b: Block, tailnets: seq<TailnetConf>)
    requires Wf(b)
    ensures CheckCIDR(Format(b), tailnets, "")
         == if Contains(SYNTHETIC, b.base) then FirstClash(b, tailnets, "") else Outside
  {
    ParseOfFormat(b);
  }

  lemma CandidateInSynthetic(k: nat)
    requires k < SCAN
    ensures Contains(SYNTHETIC, Candidate(k).base) <==> k < 511
  {
    ConcretePowers();
    ContainsIsInterval(SYNTHETIC, Candidate(k).base);
  }

  lemma FreeMeansNoClash(tailnets: seq<TailnetConf>, k: nat)
    requires k < SCAN
    ensures Free(tailnets, k) <==> k < 511 && forall i :: 0 <= i < |tailnets| ==> !Clashes(Candidate(k), tailnets[i])
  {
    hide CheckCIDR, FirstClash, Clashes, Contains, Format;
    CandidateIsWf(k);
    CheckOfFormat(Candidate(k), tailnets);
    CandidateInSynthetic(k);
    NoClashMeansFree(Candidate(k), tailnets, "");
  }

  ghost predicate AllNarrow(tailnets: seq<TailnetConf>) {
    forall i :: 0 <= i < |tailnets| && ParseCIDR(tailnets[i].cidr).Some?
      ==> ParseCIDR(tailnets[i].cidr).value.ones >= 24
  }

  // The only /24 slot a narrow range can occupy.
  ghost function Slots(tailnets: seq<TailnetConf>): (s: set<int>)
    ensures |s| <= |tailnets|
  {
    if tailnets == [] then {}
    else
      var rest := Slots(tailnets[1..]);
      match ParseCIDR(tailnets[0].cidr)
      case None => rest
      case Some(used) => rest + {used.base / 0x100 - 0xC6_1201}
  }

  lemma NarrowClash(used: Block, k: nat)
    requires Wf(used) && used.ones >= 24 && k < SCAN
    requires Contains(used, Candidate(k).base) || Contains(Candidate(k), used.base)
    ensures used.base / 0x100 - 0xC6_1201 == k
  {
    hide Contains, Size;
    ConcretePowers();
    CandidateIsWf(k);
    assert Size(24) == 0x100 by { SizeOfSlot(); }
    ContainsIsInterval(used, Candidate(k).base);
    ContainsIsInterval(Candidate(k), used.base);
    NarrowWindowFits(used, 24, used.base / 0x100 + 1);
  }

  lemma SizeOfSlot()
    ensures Size(24) == 0x100
  {
    ConcretePowers();
  }

  lemma {:induction false} ClashTakesSlot(tailnets: seq<TailnetConf>, i: nat, k: nat)
    requires AllNarrow(tailnets) && i < |tailnets| && k < SCAN
    requires Clashes(Candidate(k), tailnets[i])
    ensures k in Slots(tailnets)
  {
    if i == 0 {
      ParsedIsWf(tailnets[0].cidr);
      NarrowClash(ParseCIDR(tailnets[0].cidr).value, k);
    } else {
      assert AllNarrow(tailnets[1..]) by {
        assert forall j :: 0 <= j < |tailnets| - 1 ==> tailnets[1..][j] == tailnets[j + 1];
      }
      ClashTakesSlot(tailnets[1..], i - 1, k);
    }
  }

  // A set with fewer than n elements misses some number below n.
  lemma {:induction false} Pigeonhole(s: set<int>, n: nat) returns (k: nat)
    requires |s| < n
    ensures k < n && k !in s
    decreases n
  {
    if n - 1 !in s {
      k := n - 1;
    } else {
      k := Pigeonhole(s - {n - 1}, n - 1);
    }
  }

  // With fewer than 511 ranges, all /24 or narrower, some slot is free.
  lemma FewRangesLeaveASlot(tailnets: seq<TailnetConf>) returns (k: nat)
    requires |tailnets| < 511 && AllNarrow(tailnets)
    ensures k < 511 && Free(tailnets, k)
  {
    k := Pigeonhole(Slots(tailnets), 511);
    forall i | 0 <= i < |tailnets| ensures !Clashes(Candidate(k), tailnets[i]) {
      if Clashes(Candidate(k), tailnets[i]) {
        ClashTakesSlot(tailnets, i, k);
      }
    }
    FreeMeansNoClash(tailnets, k);
  }

  // The probe's second and third address bytes wrap as the source's byte arithmetic does.
  method NextFreeCIDR(tailnets: seq<TailnetConf>) returns (r: Option<string>)
    ensures r.Some? ==> exists k: nat :: k < 511 && r.value == Format(Candidate(k)) && Free(tailnets, k)
                                         && forall j: nat :: j < k ==> !Free(tailnets, j)
    ensures r.None? ==> forall k: nat :: k < 511 ==> !Free(tailnets, k)
    ensures |tailnets| < 511 && AllNarrow(tailnets) ==> r.Some?
  {
    hide Accepts, Format;
    var ip1, ip2 := 18, 1;
    for i := 0 to SCAN
      invariant 0 <= ip1 < 256 && 0 <= ip2 < 256
      invariant ip1 * 0x100 + ip2 == 0x1201 + i
      invariant forall j: nat :: j < i ==> !Free(tailnets, j)
    {
      var probe := Block(0xC600_0000 + ip1 * 0x1_0000 + ip2 * 0x100, 24);
      assert probe == Candidate(i);
      if Accepts(tailnets, probe) {
        FreeMeansNoClash(tailnets, i);
        return Some(Format(probe));
      }
      ip2 := (ip2 + 1) % 256;
      if ip2 == 0 {
        ip1 := (ip1 + 1) % 256;
      }
    }
    if |tailnets| < 511 && AllNarrow(tailnets) {
      var k := FewRangesLeaveASlot(tailnets);
    }
    return None;
  }
}
