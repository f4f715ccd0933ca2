/** The daemon's own changes as writes: which go through, and what the file says of them afterwards. */
module Writes {
  import opened Text
  import opened Config
  import opened ConfigWrite
  import opened WriteLaws
  import opened Requests

  // ---- files that have each exact name once ----

  lemma FoldedUniqueIsUnique(confs: seq<TailnetConf>)
    requires UniqueNames(confs)
    ensures NamesUnique(confs)
  {
    forall i, j | 0 <= i < j < |confs| ensures confs[i].name != confs[j].name {
      assert !EqualFold(confs[i].name, confs[j].name);
    }
  }

  lemma SoleNamed(confs: seq<TailnetConf>, k: nat)
    requires NamesUnique(confs) && k < |confs|
    ensures Namesakes(confs, confs[k].name) == [confs[k]]
  {
    hide NamesUnique, Namesakes;
    UniqueIsLone(confs, confs[k].name);
    NamedMembers(confs, confs[k].name);
    assert confs[k] in confs;
  }

  lemma SameNamesUnique(a: seq<TailnetConf>, b: seq<TailnetConf>)
    requires NamesUnique(a) && NameSeq(a) == NameSeq(b)
    ensures NamesUnique(b)
  {
    hide NameSeq;
    SameNamesAt(a, b);
  }

  lemma EditedNames(file: seq<TailnetConf>, i: nat, tc: TailnetConf)
    requires i < |file| && tc.name == file[i].name
    ensures NameSeq(file[i := tc]) == NameSeq(file)
  {
  }

  // Editing one entry in place is refused only when it would have to write out a state directory, and is
  // exact otherwise.
  lemma EditIsWritten(file: seq<TailnetConf>, i: nat, tc: TailnetConf)
    requires NamesUnique(file) && i < |file| && tc.name == file[i].name
    ensures Write(file, file, file[i := tc])
         == if Structural(file[i], tc) && tc.stateDir != "" then None else Some(file[i := tc])
  {
    hide NamesUnique, Namesakes, NameSeq, Rewritten, Structural, Write, NamedAfter, OldOf, Keyless;
    var next := file[i := tc];
    EditedNames(file, i, tc);
    SameNamesUnique(file, next);
    SameNamesAt(file, next);
    forall o | o in file ensures Has(next, o.name) {
      HasAt(file, o);
      HasByNames(file, next, o.name);
    }
    forall n | n in next ensures Has(file, n.name) {
      HasAt(next, n);
      HasByNames(next, file, n.name);
    }
    NothingGone(file, file, next);
    WrittenIff(file, file, next);
    forall k | 0 <= k < |next|
      ensures var x := next[k].name;
        SameButKeys(NamedAfter(Namesakes(file, x), OldOf(file, x), Namesakes(next, x)), Namesakes(next, x))
        <==> Keyless(Rewritten(file[k], file[k], next[k])) == Keyless(next[k])
    {
      SoleNamed(file, k);
      SoleNamed(next, k);
      OldIsLast(file, next[k].name);
      SoleAfter(file[k], next[k]);
    }
    assert next[i] == tc;
    forall k | 0 <= k < |next| && k != i ensures Rewritten(file[k], file[k], next[k]) == next[k] {
      RewrittenByNothing(file[k], file[k]);
    }
    RewrittenReads(file[i], tc);
    if Write(file, file, next).Some? { UniqueWriteIsExact(file, next); }
  }

  lemma SoleAfter(f: TailnetConf, n: TailnetConf)
    ensures SameButKeys(NamedAfter([f], Some(f), [n]), [n]) <==> Keyless(Rewritten(f, f, n)) == Keyless(n)
  {
    hide Rewritten;
    FoldedOne([], n);
    assert [] + [n] == [n];
    assert NamedAfter([f], Some(f), [n]) == [Rewritten(f, f, n)];
  }

  lemma RewrittenReads(f: TailnetConf, n: TailnetConf)
    requires f.name == n.name
    ensures Keyless(Rewritten(f, f, n)) == Keyless(n) <==> !(Structural(f, n) && n.stateDir != "")
  {
    if Structural(f, n) {
      assert Keyless(n.(stateDir := "")).stateDir == "" && Keyless(n).stateDir == n.stateDir;
    }
  }

  lemma RevokeIsWritten(file: seq<TailnetConf>, i: nat)
    requires NamesUnique(file) && i < |file|
    ensures Write(file, file, file[i := Revoked(file[i])]) == Some(file[i := Revoked(file[i])])
  {
    hide Write;
    EditIsWritten(file, i, Revoked(file[i]));
  }

  // Of two entries of one name, the first can be switched off in the file exactly when it is off already, or
  // the second does not say off; or, where they differ in structure, when it has no state directory.
  lemma TwinRevokeIff(a: TailnetConf, b: TailnetConf)
    requires a.name == b.name
    ensures Write([a, b], [a, b], [Revoked(a), b]).Some?
       <==> if Structural(b, a) then a.stateDir == ""
            else a.enabledFlag == Some(false) || b.enabledFlag != Some(false)
  {
    hide Write;
    var c := Revoked(a);
    TwinWrite(a, b, c);
    if Structural(b, a) {
      BareReads(c);
    } else {
      assert Keyless(Merged(a, b, c)) == Keyless(c) <==> Merged(a, b, c).enabledFlag == c.enabledFlag by {
        var m := Merged(a, b, c);
        assert m == c.(authKey := m.authKey, enabledFlag := m.enabledFlag);
        assert Keyless(m).enabledFlag == m.enabledFlag && Keyless(c).enabledFlag == c.enabledFlag;
      }
    }
  }

  // A lock holds in the file just when it holds in the record that was written.
  lemma WrittenHolds(file: seq<TailnetConf>, prev: seq<TailnetConf>, next: seq<TailnetConf>, name: string, l: string)
    requires Write(file, prev, next).Some?
    ensures Held(Write(file, prev, next).value, name, l) <==> Held(next, name, l)
  {
    hide Write, Held;
    var out := Write(file, prev, next).value;
    WrittenAlike(file, prev, next);
    HeldAt(out, name, l);
    HeldAt(next, name, l);
    forall k | 0 <= k < |out| ensures Holder(out[k], name, l) == Holder(next[k], name, l) {
      assert Keyless(out[k]) == Keyless(next[k]);
      assert out[k] == Keyless(out[k]).(authKey := out[k].authKey);
    }
  }

  // ---- appending ----

  // A second entry of a name the file has is never written, whatever else the file says.
  lemma NamesakeIsRefused(file: seq<TailnetConf>, n: TailnetConf)
    requires Has(file, n.name)
    ensures Write(file, file, file + [n]).None?
  {
    hide Write, Has, Namesakes;
    if Write(file, file, file + [n]).Some? {
      HasAt(file + [n], n);
      NamesakesStand(file, file + [n], n.name);
      NamedOne(file, n, n.name);
    }
  }

  // With each exact name once, an entry of a new name is written exactly, unless it has a state directory.
  lemma AppendIsWritten(file: seq<TailnetConf>, n: TailnetConf)
    requires NamesUnique(file)
    ensures Write(file, file, file + [n])
         == if Has(file, n.name) || n.stateDir != "" then None else Some(file + [n])
  {
    hide Write, Has, Namesakes, Keyless, NamesUnique, WriteAll;
    if Has(file, n.name) {
      NamesakeIsRefused(file, n);
    } else {
      var next := file + [n];
      forall o | o in file ensures Has(next, o.name) { HasAt(next, o); }
      NothingGone(file, file, next);
      UnchangedPass(file);
      NoneNamed(file, n.name);
      OldIsLast(file, n.name);
      assert next[..|file|] == file;
      AppendReads(file, n);
    }
  }

  lemma AppendReads(file: seq<TailnetConf>, n: TailnetConf)
    requires RemoveGone(file, file, file + [n]) == file && WriteAll(file, file, file) == Some(file)
    requires OldOf(file, n.name).None?
    ensures Write(file, file, file + [n]) == if n.stateDir != "" then None else Some(file + [n])
  {
    hide OldOf, RemoveGone, Keyless;
    var next := file + [n];
    assert next[..|next| - 1] == file;
    var out := file + [n.(stateDir := "")];
    assert WriteAll(file, next, file) == Some(out);
    assert out[|file|] == n.(stateDir := "") && next[|file|] == n;
    assert Keyless(n.(stateDir := "")) == Keyless(n) <==> n.stateDir == "" by { BareReads(n); }
    forall k | 0 <= k < |file| ensures out[k] == next[k] {}
    if n.stateDir == "" { assert out == next; }
  }

  lemma BareReads(n: TailnetConf)
    ensures Keyless(n.(stateDir := "")) == Keyless(n) <==> n.stateDir == ""
  {
    assert Keyless(n.(stateDir := "")).stateDir == "" && Keyless(n).stateDir == n.stateDir;
  }

  // An edit pass over a file that is as intended already.
  lemma UnchangedPass(file: seq<TailnetConf>)
    requires NamesUnique(file)
    ensures WriteAll(file, file, file) == Some(file)
  {
    hide NamesUnique, Namesakes, NameSeq, Has, WriteAll, Rewritten;
    forall n | n in file ensures Has(file, n.name) { HasAt(file, n); }
    WriteAllNames(file, file, file);
    var out := WriteAll(file, file, file).value;
    SameNamesAt(out, file);
    forall k | 0 <= k < |file| ensures Namesakes(file, file[k].name) == Namesakes(out, file[k].name) {
      SoleNamed(file, k);
      OldIsLast(file, file[k].name);
      WriteAllNamed(file, file, file, file[k].name);
      SoleUnchanged(file[k]);
    }
    SameNamedAll(file, out);
  }

  lemma SoleUnchanged(f: TailnetConf)
    ensures NamedAfter([f], Some(f), [f]) == [f]
  {
    hide Rewritten;
    FoldedOne([], f);
    assert [] + [f] == [f];
    RewrittenByNothing(f, f);
  }

  // ---- the two writes of a delete ----

  ghost predicate OnlyGone(prev: seq<TailnetConf>, next: seq<TailnetConf>, x: string) {
    forall o :: o in prev ==> (Has(next, o.name) <==> o.name != x)
  }

  // After k removals: the first k entries without the name, then the rest.
  lemma {:induction false} NameGone(file: seq<TailnetConf>, prev: seq<TailnetConf>, next: seq<TailnetConf>, x: string,
                                    k: nat)
    requires NameSeq(file) == NameSeq(prev) && k <= |prev| && |file| == |prev| && OnlyGone(prev, next, x)
    ensures RemoveGone(file, prev[..k], next) == RemoveNamed(file[..k], x) + file[k..]
  {
    if k == 0 {
      assert file[..0] == [] && file[0..] == file;
    } else {
      hide Has, Without, RemoveNamed, NameSeq, RemoveGone;
      var n := k - 1;
      NameGone(file, prev, next, x, n);
      RemoveGoneOne(file, prev, next, n);
      SameNamesAt(file, prev);
      assert prev[n] in prev;
      OneMoreGone(file, x, n);
    }
  }

  lemma RemoveGoneOne(file: seq<TailnetConf>, prev: seq<TailnetConf>, next: seq<TailnetConf>, n: nat)
    requires n < |prev|
    ensures var rest := RemoveGone(file, prev[..n], next);
      RemoveGone(file, prev[..n + 1], next) == if Has(next, prev[n].name) then rest else Without(rest, prev[n].name)
  {
    hide Has, Without;
    assert prev[..n + 1][..n] == prev[..n];
  }

  lemma OneMoreGone(file: seq<TailnetConf>, x: string, n: nat)
    requires n < |file|
    ensures var done, more := RemoveNamed(file[..n], x) + file[n..], RemoveNamed(file[..n + 1], x) + file[n + 1..];
      more == if file[n].name == x then Without(done, x) else done
  {
    hide Without, RemoveNamed;
    var head, tc, rest := RemoveNamed(file[..n], x), file[n], file[n + 1..];
    RemoveNamedOne(file[..n], tc, x);
    assert file[..n + 1] == file[..n] + [tc] && file[n..] == [tc] + rest;
    assert head + file[n..] == head + [tc] + rest;
    if tc.name == x {
      RemoveNamedMembers(file[..n], x);
      DropsFirst(head, tc, rest);
    }
  }

  lemma RemoveNamedOne(a: seq<TailnetConf>, tc: TailnetConf, x: string)
    ensures RemoveNamed(a + [tc], x) == if tc.name == x then RemoveNamed(a, x) else RemoveNamed(a, x) + [tc]
  {
    assert (a + [tc])[..|a|] == a;
  }

  lemma DropsFirst(head: seq<TailnetConf>, tc: TailnetConf, rest: seq<TailnetConf>)
    requires forall h :: h in head ==> h.name != tc.name
    ensures Without(head + [tc] + rest, tc.name) == head + rest
  {
    var all := head + [tc] + rest;
    var i := Place(all, tc.name);
    assert all[|head|] == tc;
    assert forall j :: 0 <= j < |head| ==> all[j] == head[j] && head[j] in head;
    assert i == |head|;
    assert all[..i] == head && all[i + 1..] == rest;
  }

  lemma {:induction false} RemovedNames(a: seq<TailnetConf>, b: seq<TailnetConf>, x: string)
    requires NameSeq(a) == NameSeq(b)
    ensures NameSeq(RemoveNamed(a, x)) == NameSeq(RemoveNamed(b, x))
  {
    assert |NameSeq(a)| == |NameSeq(b)|;
    if a == [] {
      assert b == [];
    } else {
      hide NameSeq, RemoveNamed;
      var n := |a| - 1;
      NameSeqLast(a, b);
      RemovedNames(a[..n], b[..n], x);
      assert a == a[..n] + [a[n]] && b == b[..n] + [b[n]];
      RemoveNamedOne(a[..n], a[n], x);
      RemoveNamedOne(b[..n], b[n], x);
      NameSeqOne(RemoveNamed(a[..n], x), a[n]);
      NameSeqOne(RemoveNamed(b[..n], x), b[n]);
    }
  }

  lemma {:induction false} OthersNamed(confs: seq<TailnetConf>, x: string, y: string)
    ensures Namesakes(RemoveNamed(confs, x), y) == if y == x then [] else Namesakes(confs, y)
  {
    if confs != [] {
      hide Namesakes, RemoveNamed;
      var init, last := confs[..|confs| - 1], confs[|confs| - 1];
      OthersNamed(init, x, y);
      assert confs == init + [last];
      RemoveNamedOne(init, last, x);
      NamedOne(init, last, y);
      NamedOne(RemoveNamed(init, x), last, y);
    }
  }

  lemma ReplacedNames(confs: seq<TailnetConf>, i: nat, tc: TailnetConf, y: string)
    requires i < |confs| && tc.name == confs[i].name && y != tc.name
    ensures Namesakes(confs[i := tc], y) == Namesakes(confs, y)
  {
    hide Namesakes;
    AroundPlace(confs, i, tc, y);
  }

  // What the diffs lead to does not depend on the auth keys they start from.
  lemma {:induction false} FoldedKeyless(f: TailnetConf, g: TailnetConf, o: TailnetConf, ns: seq<TailnetConf>)
    requires Keyless(f) == Keyless(g)
    ensures Keyless(Folded(f, o, ns)) == Keyless(Folded(g, o, ns))
  {
    hide Merged, Structural;
    if ns != [] {
      var init, n := ns[..|ns| - 1], ns[|ns| - 1];
      FoldedKeyless(f, g, o, init);
      MergedKeyless(Folded(f, o, init), Folded(g, o, init), o, n);
    }
  }

  lemma MergedKeyless(f: TailnetConf, g: TailnetConf, o: TailnetConf, n: TailnetConf)
    requires Keyless(f) == Keyless(g)
    ensures Keyless(Merged(f, o, n)) == Keyless(Merged(g, o, n))
  {
    assert f == g.(authKey := f.authKey);
  }

  // When the first write of a delete went through, so does the second, over whatever the first left.
  lemma SecondWrite(file: seq<TailnetConf>, i: nat, out: seq<TailnetConf>)
    requires i < |file| && Write(file, file, file[i := Revoked(file[i])]) == Some(out)
    ensures var off := file[i := Revoked(file[i])]; Write(out, off, RemoveNamed(off, file[i].name)).Some?
  {
    hide Write, Namesakes, NamedAfter, OldOf, Revoked, RemoveNamed, NameSeq, Has, SameButKeys, RemoveGone;
    var x, off := file[i].name, file[i := Revoked(file[i])];
    RevokedName(file[i]);
    EditedNames(file, i, Revoked(file[i]));
    WrittenAlike(file, file, off);
    SameButKeysNames(out, off);
    SameNamesAt(out, off);
    var next := RemoveNamed(off, x);
    RemoveNamedMembers(off, x);
    forall o | o in off ensures Has(next, o.name) <==> o.name != x { LeftIffOther(off, x, o); }
    NameGone(out, off, next, x, |off|);
    assert off[..|off|] == off && out[..|off|] == out && RemoveNamed(out, x) + out[|off|..] == RemoveNamed(out, x);
    RemovedNames(out, off, x);
    forall n | n in next ensures Has(off, n.name) { HasAt(off, n); }
    WrittenIff(out, off, next);
    forall k | 0 <= k < |next|
      ensures var y := next[k].name;
        SameButKeys(NamedAfter(Namesakes(out, y), OldOf(off, y), Namesakes(next, y)), Namesakes(next, y))
    {
      assert next[k] in next;
      SecondByName(file, i, out, next[k].name);
    }
  }

  lemma RevokedName(tc: TailnetConf)
    ensures Revoked(tc).name == tc.name
  {
  }

  lemma LeftIffOther(off: seq<TailnetConf>, x: string, o: TailnetConf)
    requires o in off
    ensures Has(RemoveNamed(off, x), o.name) <==> o.name != x
  {
    hide RemoveNamed, Has;
    RemoveNamedMembers(off, x);
    if o.name != x { HasAt(RemoveNamed(off, x), o); }
    NoneNamed(RemoveNamed(off, x), x);
    OthersNamed(off, x, x);
  }

  lemma SecondByName(file: seq<TailnetConf>, i: nat, out: seq<TailnetConf>, y: string)
    requires i < |file| && Write(file, file, file[i := Revoked(file[i])]) == Some(out) && y != file[i].name
    requires Has(file[i := Revoked(file[i])], y)
    ensures var off := file[i := Revoked(file[i])];
      var next := RemoveNamed(off, file[i].name);
      SameButKeys(NamedAfter(Namesakes(out, y), OldOf(off, y), Namesakes(next, y)), Namesakes(next, y))
  {
    hide Write, Namesakes, OldOf, Revoked, RemoveNamed, Has, Folded;
    var off := file[i := Revoked(file[i])];
    RevokedName(file[i]);
    ReplacedNames(file, i, Revoked(file[i]), y);
    OthersNamed(off, file[i].name, y);
    OldIsLast(file, y);
    OldIsLast(off, y);
    WriteByName(file, file, off, y);
    var now := Namesakes(off, y);
    var was := Namesakes(out, y);
    FoldedKeyless(now[0], was[0], now[|now| - 1], now);
  }

  // A diff repeated over its own result finds the auth key where it left it.
  lemma {:induction false} KeyLeftAgain(f: TailnetConf, g: TailnetConf, o: TailnetConf, ns: seq<TailnetConf>)
    requires g.authKey == KeyLeft(f, o, ns)
    ensures KeyLeft(g, o, ns) == KeyLeft(f, o, ns)
  {
    if ns != [] {
      var init, n := ns[..|ns| - 1], ns[|ns| - 1];
      if !(Structural(o, n) || n.authKey != o.authKey) { KeyLeftAgain(f, g, o, init); }
    }
  }

  // The second write of a delete takes out the entries of that name and touches nothing else the first left.
  lemma SecondWriteIs(file: seq<TailnetConf>, i: nat, out: seq<TailnetConf>)
    requires i < |file| && Write(file, file, file[i := Revoked(file[i])]) == Some(out)
    ensures var off, x := file[i := Revoked(file[i])], file[i].name;
      Write(out, off, RemoveNamed(off, x)) == Some(RemoveNamed(out, x))
  {
    hide Write, Namesakes, OldOf, Revoked, RemoveNamed, NameSeq, SameButKeys;
    var x, off := file[i].name, file[i := Revoked(file[i])];
    SecondWrite(file, i, out);
    var next := RemoveNamed(off, x);
    var again := Write(out, off, next).value;
    WrittenAlike(out, off, next);
    SameButKeysNames(again, next);
    WrittenAlike(file, file, off);
    SameButKeysNames(out, off);
    RemovedNames(out, off, x);
    SameNamesAt(RemoveNamed(out, x), next);
    RemoveNamedMembers(off, x);
    var left := RemoveNamed(out, x);
    forall k | 0 <= k < |left| ensures Namesakes(left, left[k].name) == Namesakes(again, left[k].name) {
      assert next[k] in next;
      SecondKeepsName(file, i, out, left[k].name);
    }
    SameNamedAll(left, again);
  }

  lemma SecondKeepsName(file: seq<TailnetConf>, i: nat, out: seq<TailnetConf>, y: string)
    requires i < |file| && Write(file, file, file[i := Revoked(file[i])]) == Some(out) && y != file[i].name
    requires var off := file[i := Revoked(file[i])];
      Has(RemoveNamed(off, file[i].name), y) && Write(out, off, RemoveNamed(off, file[i].name)).Some?
    ensures var off := file[i := Revoked(file[i])];
      Namesakes(Write(out, off, RemoveNamed(off, file[i].name)).value, y)
      == Namesakes(RemoveNamed(out, file[i].name), y)
  {
    hide Write, Namesakes, OldOf, Revoked, RemoveNamed, Has, Folded, KeyLeft;
    var x, off := file[i].name, file[i := Revoked(file[i])];
    var next := RemoveNamed(off, x);
    RevokedName(file[i]);
    ReplacedNames(file, i, Revoked(file[i]), y);
    OthersNamed(off, x, y);
    OthersNamed(out, x, y);
    OldIsLast(file, y);
    OldIsLast(off, y);
    NoneNamed(off, y);
    NoneNamed(next, y);
    WriteByName(file, file, off, y);
    WriteByName(out, off, next, y);
    var now, was := Namesakes(off, y), Namesakes(out, y);
    var o := now[|now| - 1];
    assert was == [Folded(now[0], o, now)] + now[1..];
    FoldedKey(now[0], o, now);
    FoldedKey(was[0], o, now);
    KeyLeftAgain(now[0], was[0], o, now);
    FoldedKeyless(now[0], was[0], o, now);
    SameKeysToo([Folded(was[0], o, now)], [was[0]]);
    FoldedKeyless(was[0], now[0], o, now);
  }

  // Every key on file came from an entry of that very name.
  lemma WrittenKeys(file: seq<TailnetConf>, prev: seq<TailnetConf>, next: seq<TailnetConf>, tc: TailnetConf)
    requires Write(file, prev, next).Some? && tc in Write(file, prev, next).value
    ensures exists src :: src in file + next && src.name == tc.name && src.authKey == tc.authKey
  {
    hide Write, Namesakes, OldOf, Has, KeyLeft, Folded, SameButKeys;
    var out, x := Write(file, prev, next).value, tc.name;
    WrittenAlike(file, prev, next);
    SameButKeysNames(out, next);
    HasAt(out, tc);
    HasByNames(out, next, x);
    WriteByName(file, prev, next, x);
    NamedMembers(out, x);
    NamedMembers(file, x);
    NamedMembers(next, x);
    var was, now := Namesakes(file, x), Namesakes(next, x);
    assert tc in Namesakes(out, x);
    if OldOf(prev, x).Some? {
      var o := OldOf(prev, x).value;
      var head := Folded(was[0], o, now);
      FoldedKey(was[0], o, now);
      KeyLeftIsFound(was[0], o, now);
      if tc == head {
        var src :| (src == was[0] || src in now) && src.authKey == head.authKey;
        assert src in file + next;
      } else {
        assert tc in was;
        assert tc in file + next;
      }
    } else {
      var k :| 0 <= k < |was + Bare(now)| && (was + Bare(now))[k] == tc;
      var src := if k < |was| then was[k] else now[k - |was|];
      assert src in file + next;
    }
  }

  lemma {:induction false} KeyLeftIsFound(f: TailnetConf, o: TailnetConf, ns: seq<TailnetConf>)
    ensures exists src :: (src == f || src in ns) && src.authKey == KeyLeft(f, o, ns)
  {
    if ns != [] {
      KeyLeftIsFound(f, o, ns[..|ns| - 1]);
      var src :| (src == f || src in ns[..|ns| - 1]) && src.authKey == KeyLeft(f, o, ns[..|ns| - 1]);
    }
  }
}
