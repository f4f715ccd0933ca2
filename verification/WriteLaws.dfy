/** The laws of a write: what it leaves of each name, when it is exact, and when it goes through. */
module WriteLaws {
  import opened Text
  import opened Config
  import opened ConfigWrite

  // ---- the entries of one name ----

  function Namesakes(confs: seq<TailnetConf>, x: string): seq<TailnetConf> {
    if confs == [] then []
    else
      var init, last := confs[..|confs| - 1], confs[|confs| - 1];
      if last.name == x then Namesakes(init, x) + [last] else Namesakes(init, x)
  }

  lemma {:induction false} NamedMembers(confs: seq<TailnetConf>, x: string)
    ensures forall tc :: tc in Namesakes(confs, x) <==> tc in confs && tc.name == x
  {
    if confs != [] {
      var init, last := confs[..|confs| - 1], confs[|confs| - 1];
      NamedMembers(init, x);
      assert confs == init + [last];
    }
  }

  lemma NamedOne(a: seq<TailnetConf>, tc: TailnetConf, x: string)
    ensures Namesakes(a + [tc], x) == if tc.name == x then Namesakes(a, x) + [tc] else Namesakes(a, x)
  {
    assert (a + [tc])[..|a|] == a;
  }

  lemma {:induction false} NamedConcat(a: seq<TailnetConf>, b: seq<TailnetConf>, x: string)
    ensures Namesakes(a + b, x) == Namesakes(a, x) + Namesakes(b, x)
  {
    if b == [] {
      assert a + b == a;
    } else {
      var init, last := b[..|b| - 1], b[|b| - 1];
      hide Namesakes;
      NamedConcat(a, init, x);
      assert a + b == (a + init) + [last] && b == init + [last];
      NamedOne(a + init, last, x);
      NamedOne(init, last, x);
    }
  }

  lemma NoneNamed(confs: seq<TailnetConf>, x: string)
    ensures Namesakes(confs, x) == [] <==> !Has(confs, x)
  {
    hide Namesakes;
    NamedMembers(confs, x);
    if i :| 0 <= i < |confs| && confs[i].name == x { assert confs[i] in Namesakes(confs, x); }
    if Namesakes(confs, x) != [] {
      var tc := Namesakes(confs, x)[0];
      assert tc in confs && tc.name == x;
    }
  }

  lemma {:induction false} OldIsLast(prev: seq<TailnetConf>, x: string)
    ensures var p := Namesakes(prev, x); OldOf(prev, x) == if p == [] then None else Some(p[|p| - 1])
  {
    if prev != [] { OldIsLast(prev[..|prev| - 1], x); }
  }

  // Around the first entry of a name, seen by name.
  lemma AroundPlace(confs: seq<TailnetConf>, i: nat, tc: TailnetConf, x: string)
    requires i < |confs| && tc.name == confs[i].name
    ensures Namesakes(confs, x)
         == Namesakes(confs[..i], x) + (if confs[i].name == x then [confs[i]] else []) + Namesakes(confs[i + 1..], x)
    ensures Namesakes(confs[i := tc], x)
         == Namesakes(confs[..i], x) + (if confs[i].name == x then [tc] else []) + Namesakes(confs[i + 1..], x)
    ensures Namesakes(confs[..i] + confs[i + 1..], x) == Namesakes(confs[..i], x) + Namesakes(confs[i + 1..], x)
  {
    var a, b := confs[..i], confs[i + 1..];
    assert confs == (a + [confs[i]]) + b && confs[i := tc] == (a + [tc]) + b;
    NamedConcat(a + [confs[i]], b, x);
    NamedConcat(a + [tc], b, x);
    NamedConcat(a, b, x);
    NamedOne(a, confs[i], x);
    NamedOne(a, tc, x);
  }

  lemma FirstNamed(confs: seq<TailnetConf>, x: string)
    ensures var i := Place(confs, x);
      if i == |confs| then Namesakes(confs, x) == []
      else Namesakes(confs[..i], x) == [] && Namesakes(confs, x) != [] && Namesakes(confs, x)[0] == confs[i]
  {
    var i := Place(confs, x);
    NoneNamed(confs[..i], x);
    if i == |confs| {
      assert confs[..i] == confs;
    } else {
      AroundPlace(confs, i, confs[i], x);
    }
  }

  lemma WithoutNamed(confs: seq<TailnetConf>, y: string, x: string)
    ensures Namesakes(Without(confs, y), x)
         == if x == y && Namesakes(confs, x) != [] then Namesakes(confs, x)[1..] else Namesakes(confs, x)
  {
    var i := Place(confs, y);
    FirstNamed(confs, y);
    if i < |confs| {
      AroundPlace(confs, i, confs[i], x);
    }
  }

  lemma {:induction false} RemoveGoneNamed(file: seq<TailnetConf>, olds: seq<TailnetConf>, next: seq<TailnetConf>,
                                           x: string)
    requires Has(next, x)
    ensures Namesakes(RemoveGone(file, olds, next), x) == Namesakes(file, x)
  {
    hide Has, Namesakes, Without;
    if olds != [] {
      var init, o := olds[..|olds| - 1], olds[|olds| - 1];
      RemoveGoneNamed(file, init, next, x);
      WithoutNamed(RemoveGone(file, init, next), o.name, x);
    }
  }

  // The first entry of a name after all diffs of that name.
  function Folded(f: TailnetConf, o: TailnetConf, ns: seq<TailnetConf>): TailnetConf {
    if ns == [] then f else Rewritten(Folded(f, o, ns[..|ns| - 1]), o, ns[|ns| - 1])
  }

  function Bare(ns: seq<TailnetConf>): (r: seq<TailnetConf>)
    ensures |r| == |ns| && forall i :: 0 <= i < |ns| ==> r[i] == ns[i].(stateDir := "")
  {
    seq(|ns|, i requires 0 <= i < |ns| => ns[i].(stateDir := ""))
  }

  lemma {:induction false} FoldedName(f: TailnetConf, o: TailnetConf, ns: seq<TailnetConf>)
    requires forall n :: n in ns ==> n.name == f.name
    ensures Folded(f, o, ns).name == f.name
  {
    if ns != [] { FoldedName(f, o, ns[..|ns| - 1]); }
  }

  // Replacing the first entry of a name touches that name only.
  lemma ReplacedNamed(file: seq<TailnetConf>, tc: TailnetConf, x: string)
    requires Place(file, tc.name) < |file|
    ensures var was := Namesakes(file, x);
      Namesakes(file[Place(file, tc.name) := tc], x) == if tc.name != x || was == [] then was else [tc] + was[1..]
    ensures Namesakes(file, tc.name) != [] && Namesakes(file, tc.name)[0] == file[Place(file, tc.name)]
  {
    hide Namesakes;
    var i := Place(file, tc.name);
    FirstNamed(file, tc.name);
    AroundPlace(file, i, tc, x);
    if tc.name == x {
      assert Namesakes(file, x) == [file[i]] + Namesakes(file[i + 1..], x);
    }
  }

  lemma WriteOneNamed(file: seq<TailnetConf>, n: TailnetConf, prev: seq<TailnetConf>, x: string)
    requires WriteOne(file, n, prev).Some?
    ensures var out, was := WriteOne(file, n, prev).value, Namesakes(file, x);
      Namesakes(out, x) ==
        if n.name != x then was
        else if OldOf(prev, x).None? then was + [n.(stateDir := "")]
        else if was == [] then [] else [Rewritten(was[0], OldOf(prev, x).value, n)] + was[1..]
    ensures n.name == x && OldOf(prev, x).Some? ==> Namesakes(file, x) != []
  {
    hide OldOf, Merged, Structural, Namesakes;
    match OldOf(prev, n.name) {
      case None => NamedOne(file, n.(stateDir := ""), x);
      case Some(o) =>
        var i := Place(file, n.name);
        RewrittenName(file[i], o, n);
        ReplacedNamed(file, Rewritten(file[i], o, n), x);
    }
  }

  lemma RewrittenName(f: TailnetConf, o: TailnetConf, n: TailnetConf)
    requires f.name == n.name
    ensures Rewritten(f, o, n).name == n.name
  {
  }

  lemma FoldedOne(now: seq<TailnetConf>, n: TailnetConf)
    ensures Bare(now + [n]) == Bare(now) + [n.(stateDir := "")]
    ensures forall f, o :: Folded(f, o, now + [n]) == Rewritten(Folded(f, o, now), o, n)
    ensures forall f, o :: Folded(f, o, []) == f
  {
    assert (now + [n])[..|now|] == now;
  }

  // The entries of one name after the diffs to ns.
  function NamedAfter(was: seq<TailnetConf>, prior: Option<TailnetConf>, now: seq<TailnetConf>): seq<TailnetConf> {
    match prior
    case None => was + Bare(now)
    case Some(o) => if now == [] || was == [] then was else [Folded(was[0], o, now)] + was[1..]
  }

  lemma NamedAfterOne(was: seq<TailnetConf>, prior: Option<TailnetConf>, now: seq<TailnetConf>, n: TailnetConf)
    ensures var after := NamedAfter(was, prior, now);
      NamedAfter(was, prior, now + [n]) ==
        if prior.None? then after + [n.(stateDir := "")]
        else if after == [] then [] else [Rewritten(after[0], prior.value, n)] + after[1..]
    ensures prior.Some? && was == [] ==> NamedAfter(was, prior, now) == []
  {
    hide Rewritten, Bare, Folded;
    FoldedOne(now, n);
  }

  lemma NothingAfter(was: seq<TailnetConf>, prior: Option<TailnetConf>)
    ensures NamedAfter(was, prior, []) == was
  {
    assert Bare([]) == [];
  }

  // What an edit pass does to the entries of one name.
  lemma {:induction false} WriteAllNamed(file: seq<TailnetConf>, ns: seq<TailnetConf>, prev: seq<TailnetConf>,
                                         x: string)
    requires WriteAll(file, ns, prev).Some?
    ensures Namesakes(WriteAll(file, ns, prev).value, x)
         == NamedAfter(Namesakes(file, x), OldOf(prev, x), Namesakes(ns, x))
    ensures OldOf(prev, x).Some? && Namesakes(ns, x) != [] ==> Namesakes(file, x) != []
  {
    hide OldOf, Namesakes, Rewritten, WriteOne, NamedAfter;
    if ns == [] {
      assert Namesakes(ns, x) == [] by { NoneNamed(ns, x); }
      NothingAfter(Namesakes(file, x), OldOf(prev, x));
    } else {
      var init, n := ns[..|ns| - 1], ns[|ns| - 1];
      WriteAllNamed(file, init, prev, x);
      WriteOneNamed(WriteAll(file, init, prev).value, n, prev, x);
      assert ns == init + [n];
      NamedOne(init, n, x);
      NamedAfterOne(Namesakes(file, x), OldOf(prev, x), Namesakes(init, x), n);
    }
  }

  // ---- the order of names ----

  function NameSeq(confs: seq<TailnetConf>): (r: seq<string>)
    ensures |r| == |confs|
  {
    seq(|confs|, i requires 0 <= i < |confs| => confs[i].name)
  }

  lemma NameSeqOne(a: seq<TailnetConf>, tc: TailnetConf)
    ensures NameSeq(a + [tc]) == NameSeq(a) + [tc.name]
  {
  }

  lemma NameSeqLast(a: seq<TailnetConf>, b: seq<TailnetConf>)
    requires NameSeq(a) == NameSeq(b) && a != []
    ensures |a| == |b|
    ensures NameSeq(a[..|a| - 1]) == NameSeq(b[..|b| - 1]) && a[|a| - 1].name == b[|b| - 1].name
  {
    assert |NameSeq(a)| == |NameSeq(b)|;
    var n := |a| - 1;
    assert NameSeq(a[..n]) == NameSeq(a)[..n] && NameSeq(b[..n]) == NameSeq(b)[..n];
    assert NameSeq(a)[n] == a[n].name && NameSeq(b)[n] == b[n].name;
  }

  ghost predicate AgreeOn(a: seq<TailnetConf>, b: seq<TailnetConf>, x: string) {
    |a| == |b| && forall k :: 0 <= k < |a| && a[k].name == x ==> a[k] == b[k]
  }

  lemma AgreeOneMore(a: seq<TailnetConf>, s: TailnetConf, b: seq<TailnetConf>, t: TailnetConf, x: string)
    requires |a| == |b|
    ensures AgreeOn(a + [s], b + [t], x) <==> AgreeOn(a, b, x) && (s.name == x ==> s == t)
  {
    assert forall k :: 0 <= k < |a| ==> (a + [s])[k] == a[k] && (b + [t])[k] == b[k];
    assert (a + [s])[|a|] == s && (b + [t])[|a|] == t;
  }

  lemma EqualOneMore<T>(a: seq<T>, s: T, b: seq<T>, t: T)
    requires |a| == |b|
    ensures a + [s] == b + [t] <==> a == b && s == t
  {
    assert a == (a + [s])[..|a|] && b == (b + [t])[..|b|];
    assert (a + [s])[|a|] == s && (b + [t])[|b|] == t;
  }

  // Entries of one name, with the same names all along, agree place by place.
  lemma {:induction false} SameNamedSameEntries(a: seq<TailnetConf>, b: seq<TailnetConf>, x: string)
    requires NameSeq(a) == NameSeq(b)
    ensures |a| == |b| && |Namesakes(a, x)| == |Namesakes(b, x)|
    ensures Namesakes(a, x) == Namesakes(b, x) <==> AgreeOn(a, b, x)
  {
    assert |NameSeq(a)| == |NameSeq(b)|;
    if a == [] {
      assert b == [];
    } else {
      hide Namesakes, NameSeq, AgreeOn;
      var n := |a| - 1;
      NameSeqLast(a, b);
      SameNamedSameEntries(a[..n], b[..n], x);
      assert a == a[..n] + [a[n]] && b == b[..n] + [b[n]];
      AgreeOneMore(a[..n], a[n], b[..n], b[n], x);
      EqualOneMore(Namesakes(a[..n], x), a[n], Namesakes(b[..n], x), b[n]);
      NamedOne(a[..n], a[n], x);
      NamedOne(b[..n], b[n], x);
    }
  }

  lemma SameNamedAll(a: seq<TailnetConf>, b: seq<TailnetConf>)
    requires NameSeq(a) == NameSeq(b)
    ensures a == b <==> forall k :: 0 <= k < |a| ==> Namesakes(a, a[k].name) == Namesakes(b, a[k].name)
  {
    hide Namesakes, NameSeq;
    assert |NameSeq(a)| == |NameSeq(b)|;
    if forall k :: 0 <= k < |a| ==> Namesakes(a, a[k].name) == Namesakes(b, a[k].name) {
      forall k | 0 <= k < |a| ensures a[k] == b[k] { SameNamedSameEntries(a, b, a[k].name); }
    }
  }

  lemma SameButKeysNames(a: seq<TailnetConf>, b: seq<TailnetConf>)
    requires SameButKeys(a, b)
    ensures NameSeq(a) == NameSeq(b)
  {
    forall i | 0 <= i < |a| ensures a[i].name == b[i].name {
      assert Keyless(a[i]).name == Keyless(b[i]).name;
    }
  }

  lemma {:induction false} SameButKeysNamed(a: seq<TailnetConf>, b: seq<TailnetConf>, x: string)
    requires SameButKeys(a, b)
    ensures SameButKeys(Namesakes(a, x), Namesakes(b, x))
  {
    if a != [] {
      var n := |a| - 1;
      hide Namesakes;
      SameButKeysNamed(a[..n], b[..n], x);
      assert a == a[..n] + [a[n]] && b == b[..n] + [b[n]];
      assert Keyless(a[n]).name == Keyless(b[n]).name;
      NamedOne(a[..n], a[n], x);
      NamedOne(b[..n], b[n], x);
    }
  }

  // ---- what a write says of one name ----

  // The file, as it was read, is what the diff starts from.
  lemma WriteByName(file: seq<TailnetConf>, prev: seq<TailnetConf>, next: seq<TailnetConf>, x: string)
    requires Write(file, prev, next).Some? && Has(next, x)
    ensures var out := Write(file, prev, next).value;
      && Namesakes(out, x) == NamedAfter(Namesakes(file, x), OldOf(prev, x), Namesakes(next, x))
      && SameButKeys(Namesakes(out, x), Namesakes(next, x)) && Namesakes(next, x) != []
      && (OldOf(prev, x).Some? ==> Namesakes(file, x) != [])
  {
    hide Namesakes, NamedAfter, OldOf, SameButKeys, WriteAll, RemoveGone, Has;
    WriteAllNamed(RemoveGone(file, prev, next), next, prev, x);
    RemoveGoneNamed(file, prev, next, x);
    SameButKeysNamed(Write(file, prev, next).value, next, x);
    NoneNamed(next, x);
  }

  // A name that is on file keeps its number of entries, or loses them all: a second entry of a name that is
  // there is never added.
  lemma NamesakesStand(file: seq<TailnetConf>, next: seq<TailnetConf>, x: string)
    requires Write(file, file, next).Some? && Has(file, x) && Has(next, x)
    ensures |Namesakes(next, x)| == |Namesakes(file, x)|
  {
    hide Namesakes, OldOf, Write, Has, Folded;
    WriteByName(file, file, next, x);
    NoneNamed(file, x);
    OldIsLast(file, x);
  }

  lemma BareIsSame(ns: seq<TailnetConf>)
    requires SameButKeys(Bare(ns), ns)
    ensures Bare(ns) == ns
  {
    forall i | 0 <= i < |ns| ensures Bare(ns)[i] == ns[i] {
      assert Keyless(Bare(ns)[i]).stateDir == Keyless(ns[i]).stateDir;
    }
  }

  lemma RewrittenInPlace(f: TailnetConf, n: TailnetConf)
    requires f.name == n.name && Keyless(Rewritten(f, f, n)) == Keyless(n)
    ensures Rewritten(f, f, n) == n
  {
    if Structural(f, n) { assert Keyless(n.(stateDir := "")).stateDir == Keyless(n).stateDir; }
  }

  // A name that the file has at most once, as the record had it, is written exactly, key and all.
  lemma LoneNameIsExact(file: seq<TailnetConf>, prev: seq<TailnetConf>, next: seq<TailnetConf>, x: string)
    requires Write(file, prev, next).Some? && Has(next, x)
    requires |Namesakes(file, x)| <= 1 && Namesakes(prev, x) == Namesakes(file, x)
    ensures Namesakes(Write(file, prev, next).value, x) == Namesakes(next, x)
  {
    hide Namesakes, OldOf, Write, Has, Rewritten;
    WriteByName(file, prev, next, x);
    OldIsLast(prev, x);
    var was, now := Namesakes(file, x), Namesakes(next, x);
    if was == [] {
      assert [] + Bare(now) == Bare(now);
      BareIsSame(now);
    } else {
      assert |now| == 1 && now == [now[0]];
      NamedMembers(file, x);
      NamedMembers(next, x);
      assert was[0] in was && now[0] in now;
      FoldedOne([], now[0]);
      assert [] + [now[0]] == now;
      RewrittenInPlace(was[0], now[0]);
    }
  }

  // So is every entry of such a name, in its place; and a file that has every name once is written exactly.
  lemma LoneEntryIsExact(file: seq<TailnetConf>, prev: seq<TailnetConf>, next: seq<TailnetConf>, k: nat)
    requires Write(file, prev, next).Some? && k < |next|
    requires var x := next[k].name; |Namesakes(file, x)| <= 1 && Namesakes(prev, x) == Namesakes(file, x)
    ensures |Write(file, prev, next).value| == |next| && Write(file, prev, next).value[k] == next[k]
  {
    hide Namesakes, Write, WriteAll, RemoveGone;
    var out := Write(file, prev, next).value;
    WrittenAlike(file, prev, next);
    SameButKeysNames(out, next);
    assert Has(next, next[k].name);
    LoneNameIsExact(file, prev, next, next[k].name);
    SameNamedSameEntries(next, out, next[k].name);
  }

  lemma WrittenAlike(file: seq<TailnetConf>, prev: seq<TailnetConf>, next: seq<TailnetConf>)
    requires Write(file, prev, next).Some?
    ensures SameButKeys(Write(file, prev, next).value, next)
  {
    hide WriteAll, RemoveGone;
  }

  lemma {:induction false} UniqueIsLone(confs: seq<TailnetConf>, x: string)
    requires NamesUnique(confs)
    ensures |Namesakes(confs, x)| <= 1
  {
    if confs != [] {
      var n := |confs| - 1;
      UniqueIsLone(confs[..n], x);
      if confs[n].name == x {
        NoneNamed(confs[..n], x);
        assert forall i :: 0 <= i < n ==> confs[..n][i].name != x;
      }
    }
  }

  lemma UniqueWriteIsExact(file: seq<TailnetConf>, next: seq<TailnetConf>)
    requires NamesUnique(file) && Write(file, file, next).Some?
    ensures Write(file, file, next).value == next
  {
    hide NamesUnique, Namesakes, Write;
    var out := Write(file, file, next).value;
    WrittenAlike(file, file, next);
    forall k | 0 <= k < |next| ensures out[k] == next[k] {
      UniqueIsLone(file, next[k].name);
      LoneEntryIsExact(file, file, next, k);
    }
  }

  // ---- when the record and the file come apart ----

  // The auth key the first entry of a name is left with: that of the last entry in ns whose diff touches it.
  function KeyLeft(f: TailnetConf, o: TailnetConf, ns: seq<TailnetConf>): string {
    if ns == [] then f.authKey
    else
      var n := ns[|ns| - 1];
      if Structural(o, n) || n.authKey != o.authKey then n.authKey else KeyLeft(f, o, ns[..|ns| - 1])
  }

  // The entries of one name were `was` and are meant to be `now`: every key gets there.
  predicate KeysReach(was: seq<TailnetConf>, now: seq<TailnetConf>) {
    was == [] || now == [] ||
    (KeyLeft(was[0], was[|was| - 1], now) == now[0].authKey
     && forall k :: 1 <= k < |was| && k < |now| ==> was[k].authKey == now[k].authKey)
  }

  lemma {:induction false} FoldedKey(f: TailnetConf, o: TailnetConf, ns: seq<TailnetConf>)
    ensures Folded(f, o, ns).authKey == KeyLeft(f, o, ns)
  {
    if ns != [] { FoldedKey(f, o, ns[..|ns| - 1]); }
  }

  lemma SameKeysToo(a: seq<TailnetConf>, b: seq<TailnetConf>)
    requires SameButKeys(a, b)
    ensures a == b <==> forall k :: 0 <= k < |a| ==> a[k].authKey == b[k].authKey
  {
    if forall k :: 0 <= k < |a| ==> a[k].authKey == b[k].authKey {
      forall k | 0 <= k < |a| ensures a[k] == b[k] {
        assert a[k] == Keyless(a[k]).(authKey := a[k].authKey) && b[k] == Keyless(b[k]).(authKey := b[k].authKey);
      }
    }
  }

  lemma NameExactIff(file: seq<TailnetConf>, next: seq<TailnetConf>, x: string)
    requires Write(file, file, next).Some? && Has(next, x)
    ensures Namesakes(Write(file, file, next).value, x) == Namesakes(next, x)
       <==> KeysReach(Namesakes(file, x), Namesakes(next, x))
  {
    hide Namesakes, OldOf, Write, Has, Folded, KeyLeft;
    WriteByName(file, file, next, x);
    OldIsLast(file, x);
    var was, now := Namesakes(file, x), Namesakes(next, x);
    var out := Namesakes(Write(file, file, next).value, x);
    SameKeysToo(out, now);
    if was == [] {
      assert [] + Bare(now) == Bare(now);
      BareIsSame(now);
    } else {
      FoldedKey(was[0], was[|was| - 1], now);
      assert forall k :: 1 <= k < |was| ==> out[k] == was[k];
    }
  }

  // A written file is exactly the intended record if and only if every key reaches its entry; and it can
  // fail to only where a name is on file twice.
  lemma WriteIsExactIff(file: seq<TailnetConf>, next: seq<TailnetConf>)
    requires Write(file, file, next).Some?
    ensures Write(file, file, next).value == next
       <==> forall k :: 0 <= k < |next| ==> KeysReach(Namesakes(file, next[k].name), Namesakes(next, next[k].name))
  {
    hide Namesakes, Write, KeysReach, NameSeq;
    var out := Write(file, file, next).value;
    WrittenAlike(file, file, next);
    SameButKeysNames(out, next);
    SameNamedAll(next, out);
    forall k | 0 <= k < |next|
      ensures Namesakes(next, next[k].name) == Namesakes(out, next[k].name)
         <==> KeysReach(Namesakes(file, next[k].name), Namesakes(next, next[k].name))
    {
      assert Has(next, next[k].name);
      NameExactIff(file, next, next[k].name);
    }
  }

  // Two entries of one name, the first edited from a to c.
  lemma TwinWrite(a: TailnetConf, b: TailnetConf, c: TailnetConf)
    requires a.name == b.name == c.name
    ensures Write([a, b], [a, b], [c, b])
         == if Keyless(Rewritten(a, b, c)) == Keyless(c) then Some([Rewritten(a, b, c), b]) else None
    ensures Rewritten(a, b, c).authKey == if Structural(b, c) || b.authKey != c.authKey then c.authKey else a.authKey
  {
    var file, next, x := [a, b], [c, b], Rewritten(a, b, c);
    FoldedKey(a, b, [c]);
    assert [c][..0] == [];
    RewrittenName(a, b, c);
    RewrittenByNothing(x, b);
    hide Rewritten, Structural;
    assert next[0].name == a.name;
    assert Has(next, a.name);
    NothingGone(file, file, next);
    assert next[..1] == [c];
    assert file[0 := x] == [x, b] && [x, b][0 := x] == [x, b];
    assert WriteAll(file, [], file) == Some(file);
    assert WriteAll(file, [c], file) == WriteOne(file, c, file) == Some([x, b]);
    assert WriteOne([x, b], b, file) == Some([x, b]);
  }

  // So the edited record is missing from the file afterwards exactly when the second entry has the key it was
  // to get and the first does not, and it is neither written out whole nor the second entry itself.
  lemma TwinHasRecordIff(a: TailnetConf, b: TailnetConf, c: TailnetConf)
    requires a.name == b.name == c.name && Write([a, b], [a, b], [c, b]).Some?
    ensures c in Write([a, b], [a, b], [c, b]).value
       <==> Structural(b, c) || b.authKey != c.authKey || a.authKey == c.authKey || b == c
  {
    hide Write, Merged, Structural;
    TwinWrite(a, b, c);
    SameKeysToo([Rewritten(a, b, c)], [c]);
  }

  lemma RewrittenByNothing(f: TailnetConf, o: TailnetConf)
    ensures Rewritten(f, o, o) == f
  {
  }

  lemma {:induction false} NothingGone(file: seq<TailnetConf>, olds: seq<TailnetConf>, next: seq<TailnetConf>)
    requires forall o :: o in olds ==> Has(next, o.name)
    ensures RemoveGone(file, olds, next) == file
  {
    hide Has;
    if olds != [] { NothingGone(file, olds[..|olds| - 1], next); }
  }

  // ---- when a write goes through ----

  lemma {:induction false} WriteAllNames(file: seq<TailnetConf>, ns: seq<TailnetConf>, prev: seq<TailnetConf>)
    requires forall n :: n in ns ==> Has(prev, n.name) && Has(file, n.name)
    ensures WriteAll(file, ns, prev).Some? && NameSeq(WriteAll(file, ns, prev).value) == NameSeq(file)
  {
    hide Rewritten, OldOf, Has;
    if ns != [] {
      var init, n := ns[..|ns| - 1], ns[|ns| - 1];
      WriteAllNames(file, init, prev);
      var done := WriteAll(file, init, prev).value;
      OldIsLast(prev, n.name);
      NoneNamed(prev, n.name);
      HasByNames(file, done, n.name);
      PlaceOfHas(done, n.name);
      RewrittenName(done[Place(done, n.name)], OldOf(prev, n.name).value, n);
    }
  }

  lemma HasByNames(a: seq<TailnetConf>, b: seq<TailnetConf>, x: string)
    requires NameSeq(a) == NameSeq(b)
    ensures Has(a, x) <==> Has(b, x)
  {
    assert |NameSeq(a)| == |NameSeq(b)|;
    forall i | 0 <= i < |a| ensures a[i].name == b[i].name {
      assert NameSeq(a)[i] == a[i].name && NameSeq(b)[i] == b[i].name;
    }
  }

  lemma PlaceOfHas(confs: seq<TailnetConf>, x: string)
    ensures Has(confs, x) <==> Place(confs, x) < |confs|
  {
  }

  lemma ByNames(a: seq<TailnetConf>, b: seq<TailnetConf>)
    requires NameSeq(a) == NameSeq(b)
    requires forall k :: 0 <= k < |a| ==> SameButKeys(Namesakes(a, a[k].name), Namesakes(b, a[k].name))
    ensures SameButKeys(a, b)
  {
    hide Namesakes, NameSeq, SameButKeys;
    KeylessNames(a);
    KeylessNames(b);
    var c, d := AllKeyless(a), AllKeyless(b);
    forall k | 0 <= k < |c| ensures Namesakes(c, c[k].name) == Namesakes(d, c[k].name) {
      KeylessNamed(a, a[k].name);
      KeylessNamed(b, a[k].name);
      KeylessSame(Namesakes(a, a[k].name), Namesakes(b, a[k].name));
    }
    SameNamedAll(c, d);
    KeylessSame(a, b);
  }

  function AllKeyless(confs: seq<TailnetConf>): (r: seq<TailnetConf>)
    ensures |r| == |confs| && forall k :: 0 <= k < |r| ==> r[k] == Keyless(confs[k])
  {
    seq(|confs|, k requires 0 <= k < |confs| => Keyless(confs[k]))
  }

  lemma KeylessNames(confs: seq<TailnetConf>)
    ensures NameSeq(AllKeyless(confs)) == NameSeq(confs)
  {
    forall k | 0 <= k < |confs| ensures AllKeyless(confs)[k].name == confs[k].name {}
  }

  lemma KeylessSame(a: seq<TailnetConf>, b: seq<TailnetConf>)
    ensures SameButKeys(a, b) <==> AllKeyless(a) == AllKeyless(b)
  {
    if AllKeyless(a) == AllKeyless(b) {
      assert |AllKeyless(a)| == |AllKeyless(b)|;
      forall k | 0 <= k < |a| ensures Keyless(a[k]) == Keyless(b[k]) {
        assert AllKeyless(a)[k] == AllKeyless(b)[k];
      }
    }
  }

  lemma {:induction false} KeylessNamed(confs: seq<TailnetConf>, x: string)
    ensures Namesakes(AllKeyless(confs), x) == AllKeyless(Namesakes(confs, x))
  {
    if confs == [] {
      assert AllKeyless(confs) == [] && AllKeyless([]) == [];
    } else {
      hide Namesakes, AllKeyless;
      var init, last := confs[..|confs| - 1], confs[|confs| - 1];
      KeylessNamed(init, x);
      assert confs == init + [last];
      KeylessOne(init, last);
      KeylessOne(Namesakes(init, x), last);
      NamedOne(init, last, x);
      NamedOne(AllKeyless(init), Keyless(last), x);
    }
  }

  lemma KeylessOne(confs: seq<TailnetConf>, tc: TailnetConf)
    ensures AllKeyless(confs + [tc]) == AllKeyless(confs) + [Keyless(tc)]
  {
  }

  // When the removals leave the intended names in order, a write goes through exactly when, name by name, the
  // diffs lead to the intended entries, keys aside.
  lemma WrittenIff(file: seq<TailnetConf>, prev: seq<TailnetConf>, next: seq<TailnetConf>)
    requires NameSeq(RemoveGone(file, prev, next)) == NameSeq(next)
    requires forall n :: n in next ==> Has(prev, n.name)
    ensures Write(file, prev, next).Some?
       <==> forall k :: 0 <= k < |next| ==>
              var x := next[k].name;
              SameButKeys(NamedAfter(Namesakes(file, x), OldOf(prev, x), Namesakes(next, x)), Namesakes(next, x))
  {
    hide Namesakes, NamedAfter, OldOf, SameButKeys, WriteAll, RemoveGone, Has, NameSeq;
    var left := RemoveGone(file, prev, next);
    forall n | n in next ensures Has(left, n.name) {
      HasAt(next, n);
      HasByNames(next, left, n.name);
    }
    WriteAllNames(left, next, prev);
    var out := WriteAll(left, next, prev).value;
    forall k | 0 <= k < |next|
      ensures var x := next[k].name;
        Namesakes(out, x) == NamedAfter(Namesakes(file, x), OldOf(prev, x), Namesakes(next, x))
      ensures SameButKeys(out, next) ==> SameButKeys(Namesakes(out, next[k].name), Namesakes(next, next[k].name))
    {
      HasAt(next, next[k]);
      WriteAllNamed(left, next, prev, next[k].name);
      RemoveGoneNamed(file, prev, next, next[k].name);
      if SameButKeys(out, next) { SameButKeysNamed(out, next, next[k].name); }
    }
    if forall k :: 0 <= k < |next| ==> SameButKeys(Namesakes(out, next[k].name), Namesakes(next, next[k].name)) {
      SameNamesAt(out, next);
      ByNames(out, next);
    }
  }

  lemma HasAt(confs: seq<TailnetConf>, tc: TailnetConf)
    requires tc in confs
    ensures Has(confs, tc.name)
  {
    var i :| 0 <= i < |confs| && confs[i] == tc;
  }

  lemma SameNamesAt(a: seq<TailnetConf>, b: seq<TailnetConf>)
    requires NameSeq(a) == NameSeq(b)
    ensures |a| == |b| && forall k :: 0 <= k < |a| ==> a[k].name == b[k].name
  {
    assert |NameSeq(a)| == |NameSeq(b)|;
    forall k | 0 <= k < |a| ensures a[k].name == b[k].name {
      assert NameSeq(a)[k] == a[k].name && NameSeq(b)[k] == b[k].name;
    }
  }
}
