/** Which tailnet a queried name belongs to, and the canonical name it stands for. */
module Matching {
  import opened Text
  import opened Cidr

  // Sequential host addresses of one range; the broadcast address is never handed out.
  datatype Allocator = Allocator(base: nat, next: nat, size: nat)

  datatype Entry = Entry(name: string, domain: string, suffix: string, ipnet: Block, alloc: Allocator)

  datatype Match = NoMatch | Found(tailnet: string, realFQDN: string, authoritative: bool)

  // Is name the suffix itself, or something below it at a dot boundary?
  predicate Under(name: string, sfx: string) {
    name == sfx || HasSuffix(name, "." + sfx)
  }

  // One spelling a tailnet answers to. The real suffix is authoritative, the aliases are not.
  datatype Key = Key(tailnet: string, suffix: string, key: string, auth: bool)

  // The spellings of one entry in the order they are tried; none until the real suffix is known.
  function Keys(e: Entry): seq<Key> {
    if e.suffix == "" then []
    else
      [Key(e.name, e.suffix, e.suffix, true)]
      + (if e.name == "" then [] else [Key(e.name, e.suffix, e.name, false)])
      + (if e.domain == e.name || e.domain == "" then [] else [Key(e.name, e.suffix, e.domain, false)])
  }

  function AllKeys(entries: seq<Entry>): seq<Key> {
    if entries == [] then [] else AllKeys(entries[..|entries| - 1]) + Keys(entries[|entries| - 1])
  }

  // One comparison of the scan: only a strictly longer spelling replaces the best so far.
  function Better(best: Option<Key>, k: Key, name: string): Option<Key> {
    if Under(name, k.key) && (best.None? || |best.value.key| < |k.key|) then Some(k) else best
  }

  function Best(ks: seq<Key>, name: string): Option<Key> {
    if ks == [] then None else Better(Best(ks[..|ks| - 1], name), ks[|ks| - 1], name)
  }

  // The canonical spelling of name under the key it matched.
  function Canonical(name: string, k: Key): string {
    if k.auth then name
    else
      var short := TrimSuffix(name, "." + k.key);
      if short == name || short == "" then k.suffix else short + "." + k.suffix
  }

  function Answer(best: Option<Key>, name: string): Match {
    match best
    case None => NoMatch
    case Some(k) => Found(k.tailnet, Canonical(name, k), k.auth)
  }

  function MatchName(entries: seq<Entry>, name: string): Match {
    Answer(Best(AllKeys(entries), Normal(name)), Normal(name))
  }

  // ---- the scan finds the longest spelling, the first one on a tie ----

  ghost predicate IsLongest(ks: seq<Key>, name: string, i: nat)
  {
    && i < |ks| && Under(name, ks[i].key)
    && (forall j :: 0 <= j < |ks| && Under(name, ks[j].key) ==> |ks[j].key| <= |ks[i].key|)
    && (forall j :: 0 <= j < i && Under(name, ks[j].key) ==> |ks[j].key| < |ks[i].key|)
  }

  lemma {:induction false} BestMisses(ks: seq<Key>, name: string)
    ensures Best(ks, name).None? <==> forall j :: 0 <= j < |ks| ==> !Under(name, ks[j].key)
  {
    hide Under;
    if ks != [] {
      var init := ks[..|ks| - 1];
      BestMisses(init, name);
      assert forall j :: 0 <= j < |init| ==> init[j] == ks[j];
    }
  }

  // The scan returns the first of the longest spellings that name lies under.
  lemma {:induction false} BestIsLongest(ks: seq<Key>, name: string) returns (i: nat)
    requires Best(ks, name).Some?
    ensures IsLongest(ks, name, i) && ks[i] == Best(ks, name).value
  {
    hide Under;
    var init, k := ks[..|ks| - 1], ks[|ks| - 1];
    assert forall j :: 0 <= j < |init| ==> init[j] == ks[j];
    if Best(init, name).None? {
      BestMisses(init, name);
      i := |init|;
    } else {
      i := BestIsLongest(init, name);
      if Under(name, k.key) && |init[i].key| < |k.key| {
        i := |init|;
      }
    }
  }

  // Two spellings of one length that both end a name are the same spelling.
  lemma SameLengthSameKey(name: string, a: string, b: string)
    requires Under(name, a) && Under(name, b) && |a| == |b|
    ensures a == b
  {
    if name != a && name != b {
      assert ("." + a)[1..] == name[|name| - |a|..] == ("." + b)[1..];
    }
  }

  // Of two spellings that both end a name, the longer lies under the shorter.
  lemma LongerIsUnderShorter(name: string, a: string, b: string)
    requires Under(name, a) && Under(name, b) && |a| < |b|
    ensures Under(b, a)
  {
    if name != b {
      assert name[|name| - |b| - 1..] == "." + b;
      assert name[|name| - |a| - 1..] == "." + a;
      assert name[|name| - |b|..] == b;
      assert b[|b| - |a| - 1..] == "." + a;
    }
  }

  lemma {:induction false} KeyHasEntry(entries: seq<Entry>, k: Key)
    ensures k in AllKeys(entries) <==> exists e :: e in entries && k in Keys(e)
  {
    hide Keys;
    if entries != [] {
      var init, last := entries[..|entries| - 1], entries[|entries| - 1];
      KeyHasEntry(init, k);
      assert entries == init + [last];
      if k in Keys(last) { assert last in entries; }
      if e :| e in init && k in Keys(e) { assert e in entries; }
    }
  }

  // No spelling is shared between two different entries.
  ghost predicate KeysApart(entries: seq<Entry>) {
    forall e, f, a, b :: e in entries && f in entries && e != f && a in Keys(e) && b in Keys(f) ==> a.key != b.key
  }

  lemma {:induction false} AllKeysAt(entries: seq<Entry>, i: nat) returns (j: nat, e: Entry, o: nat)
    requires i < |AllKeys(entries)|
    ensures e in entries && j <= i && o == i - j && o < |Keys(e)|
    ensures j + |Keys(e)| <= |AllKeys(entries)|
    ensures AllKeys(entries)[j..j + |Keys(e)|] == Keys(e)
  {
    hide Keys;
    var init, last := entries[..|entries| - 1], entries[|entries| - 1];
    if i < |AllKeys(init)| {
      j, e, o := AllKeysAt(init, i);
      assert AllKeys(entries)[j..j + |Keys(e)|] == AllKeys(init)[j..j + |Keys(e)|];
    } else {
      j, e, o := |AllKeys(init)|, last, i - |AllKeys(init)|;
    }
  }

  // The winning spelling is authoritative whenever it is the entry's real suffix.
  lemma WinnerPrefersRealSuffix(entries: seq<Entry>, name: string, i: nat)
    requires IsLongest(AllKeys(entries), name, i)
    ensures var k := AllKeys(entries)[i]; k.auth <==> k.key == k.suffix
  {
    hide Under, AllKeys;
    var ks := AllKeys(entries);
    var j, e, o := AllKeysAt(entries, i);
    assert ks[i] == ks[j..j + |Keys(e)|][o] == Keys(e)[o];
    assert ks[j] == ks[j..j + |Keys(e)|][0] == Keys(e)[0];
  }

  // A hit: an entry's spelling that name lies under and that no spelling of any entry beats.
  ghost predicate Wins(entries: seq<Entry>, name: string, e: Entry, k: Key) {
    && e in entries && k in Keys(e) && Under(name, k.key)
    && (forall f, a :: f in entries && a in Keys(f) && Under(name, a.key) ==> |a.key| <= |k.key|)
    && (k.auth <==> k.key == k.suffix)
  }

  lemma KeyOf(e: Entry, k: Key)
    requires k in Keys(e)
    ensures k.tailnet == e.name && k.suffix == e.suffix && e.suffix != ""
  {
  }

  // The scan's result in terms of the entries alone, their order aside.
  lemma BestWins(entries: seq<Entry>, name: string) returns (e: Entry)
    requires Best(AllKeys(entries), name).Some?
    ensures Wins(entries, name, e, Best(AllKeys(entries), name).value)
  {
    hide Under, AllKeys, Best, Keys;
    var ks := AllKeys(entries);
    var i := BestIsLongest(ks, name);
    WinnerPrefersRealSuffix(entries, name, i);
    KeyHasEntry(entries, ks[i]);
    e :| e in entries && ks[i] in Keys(e);
    forall f, a | f in entries && a in Keys(f) && Under(name, a.key) ensures |a.key| <= |ks[i].key| {
      KeyHasEntry(entries, a);
    }
  }

  lemma BestMissesEntries(entries: seq<Entry>, name: string)
    ensures Best(AllKeys(entries), name).None?
       <==> forall e, k :: e in entries && k in Keys(e) ==> !Under(name, k.key)
  {
    hide Under, AllKeys, Best, Keys;
    var ks := AllKeys(entries);
    BestMisses(ks, name);
    if Best(ks, name).None? {
      forall e, k | e in entries && k in Keys(e) ensures !Under(name, k.key) {
        KeyHasEntry(entries, k);
        var j :| 0 <= j < |ks| && ks[j] == k;
        assert !Under(name, ks[j].key);
      }
    } else {
      var i := BestIsLongest(ks, name);
      KeyHasEntry(entries, ks[i]);
    }
  }

  lemma WinnerIsUnique(entries: seq<Entry>, name: string, e: Entry, k: Key, f: Entry, a: Key)
    requires KeysApart(entries)
    requires Wins(entries, name, e, k) && Wins(entries, name, f, a)
    ensures e == f && k == a
  {
    hide Under, Keys;
    SameLengthSameKey(name, k.key, a.key);
    KeyOf(e, k);
    KeyOf(f, a);
  }

  // With no spelling shared between entries, only the set of entries matters, not their order.
  lemma MatchIgnoresOrder(entries: seq<Entry>, entries': seq<Entry>, name: string)
    requires KeysApart(entries)
    requires forall e :: e in entries <==> e in entries'
    ensures MatchName(entries, name) == MatchName(entries', name)
  {
    hide Under, AllKeys, Best, Keys, Normal, Canonical;
    var n := Normal(name);
    BestMissesEntries(entries, n);
    BestMissesEntries(entries', n);
    var b, b' := Best(AllKeys(entries), n), Best(AllKeys(entries'), n);
    if b.Some? {
      var e := BestWins(entries, n);
      var f := BestWins(entries', n);
      WinnerIsUnique(entries, n, e, b.value, f, b'.value);
    }
  }

  // ---- matching is a canonicalisation ----

  // Suffixes are stored lower case without a trailing dot.
  predicate StoredSuffix(s: string) {
    s == "" || (Lower(s) == s && s[|s| - 1] != '.')
  }

  ghost predicate WellStored(entries: seq<Entry>) {
    forall e :: e in entries ==> StoredSuffix(e.suffix)
  }

  lemma NormalOfSuffixed(s: string, sfx: string)
    requires sfx != "" && StoredSuffix(sfx) && Under(s, sfx) && Lower(s) == s
    ensures Normal(s) == s
  {
    assert s[|s| - 1] == sfx[|sfx| - 1];
    assert Lower(s)[|s| - 1..] == [s[|s| - 1]];
  }

  lemma LowerOfNormal(s: string)
    ensures Lower(Normal(s)) == Normal(s)
  {
    assert forall i :: 0 <= i < |Normal(s)| ==> Normal(s)[i] == LowerChar(s[i]);
  }

  lemma LowerPrefix(s: string, n: nat)
    requires Lower(s) == s && n <= |s|
    ensures Lower(s[..n]) == s[..n]
  {
    assert forall i :: 0 <= i < n ==> s[..n][i] == s[i] == Lower(s)[i];
  }

  lemma LowerDotted(a: string, b: string)
    requires Lower(a) == a && Lower(b) == b
    ensures Lower(a + "." + b) == a + "." + b
  {
    var c := a + "." + b;
    forall i | 0 <= i < |c| ensures LowerChar(c[i]) == c[i] {
      if i < |a| {
        assert c[i] == a[i] == Lower(a)[i];
      } else if i > |a| {
        assert c[i] == b[i - |a| - 1] == Lower(b)[i - |a| - 1];
      }
    }
  }

  lemma TrimIsPrefix(s: string, t: string)
    ensures TrimSuffix(s, t) == s[..|TrimSuffix(s, t)|] && |TrimSuffix(s, t)| <= |s|
  {
  }

  // The canonical name lies under the real suffix of the entry that won, and is already normal.
  lemma CanonicalIsUnderSuffix(e: Entry, k: Key, name: string)
    requires k in Keys(e) && Under(name, k.key) && Lower(name) == name
    requires StoredSuffix(e.suffix)
    ensures Under(Canonical(name, k), e.suffix)
    ensures Normal(Canonical(name, k)) == Canonical(name, k)
  {
    hide Under, Lower, TrimSuffix, Normal;
    KeyOf(e, k);
    if k.auth { AuthIsSuffix(e, k); }
    var short := TrimSuffix(name, "." + k.key);
    if !k.auth {
      if short == name || short == "" {
        UnderItself(e.suffix);
      } else {
        TrimIsPrefix(name, "." + k.key);
        LowerPrefix(name, |short|);
        LowerDotted(short, e.suffix);
        DottedIsUnder(short, e.suffix);
      }
    }
    NormalOfSuffixed(Canonical(name, k), e.suffix);
  }

  lemma AuthIsSuffix(e: Entry, k: Key)
    requires k in Keys(e) && k.auth
    ensures k.key == e.suffix
  {
  }

  lemma UnderItself(s: string)
    ensures Under(s, s)
  {
  }

  // Matching a canonical name again gives the same tailnet and name, authoritatively, exactly when no
  // known spelling longer than that tailnet's real suffix also ends the canonical name.
  lemma CanonicalNameIsStable(entries: seq<Entry>, name: string, e: Entry)
    requires WellStored(entries) && KeysApart(entries)
    requires forall f, g :: f in entries && g in entries && f.name == g.name ==> f == g
    requires MatchName(entries, name).Found? && e in entries && e.name == MatchName(entries, name).tailnet
    ensures var fqdn := MatchName(entries, name).realFQDN;
      MatchName(entries, fqdn) == Found(e.name, fqdn, true)
      <==> forall f, a :: f in entries && a in Keys(f) && Under(fqdn, a.key) ==> |a.key| <= |e.suffix|
  {
    hide Under, AllKeys, Best, Lower, Canonical, Keys;
    var n := Normal(name);
    var k := Best(AllKeys(entries), n).value;
    var e' := BestWins(entries, n);
    KeyOf(e', k);
    LowerOfNormal(name);
    CanonicalIsUnderSuffix(e, k, n);
    RealSuffixWins(entries, Canonical(n, k), e);
  }

  // A host h asked for under any spelling k of tailnet e, in any letter case, with or without a trailing dot,
  // is the host h of e under its canonical name, when no longer spelling ends the name.
  lemma SpellingIsCanonical(entries: seq<Entry>, e: Entry, k: Key, h: string, query: string)
    requires KeysApart(entries) && e in entries && k in Keys(e)
    requires h != "" && Normal(query) == h + "." + k.key
    requires forall f, a :: f in entries && a in Keys(f) && Under(Normal(query), a.key) ==> |a.key| <= |k.key|
    ensures var m := MatchName(entries, query);
      m.Found? && m.tailnet == e.name && m.realFQDN == h + "." + e.suffix
  {
    hide AllKeys, Best, Normal, Keys, Under, Canonical;
    var n := Normal(query);
    assert Under(n, k.key) by { DottedIsUnder(h, k.key); }
    BestMissesEntries(entries, n);
    var b := Best(AllKeys(entries), n).value;
    var g := BestWins(entries, n);
    SameLengthSameKey(n, b.key, k.key);
    KeyOf(g, b);
    CanonicalOfSpelling(h, b);
  }

  lemma DottedIsUnder(h: string, key: string)
    ensures Under(h + "." + key, key)
  {
    assert (h + "." + key)[|h|..] == "." + key;
  }

  lemma CanonicalOfSpelling(h: string, k: Key)
    requires h != "" && (k.auth <==> k.key == k.suffix)
    ensures Canonical(h + "." + k.key, k) == h + "." + k.suffix
  {
    var n := h + "." + k.key;
    assert n == h + ("." + k.key);
    assert n[|h|..] == "." + k.key && n[..|h|] == h;
  }

  // A normal name under an entry's real suffix matches that entry authoritatively exactly when no longer
  // spelling ends it.
  lemma RealSuffixWins(entries: seq<Entry>, fqdn: string, e: Entry)
    requires KeysApart(entries) && e in entries && e.suffix != ""
    requires forall f, g :: f in entries && g in entries && f.name == g.name ==> f == g
    requires Normal(fqdn) == fqdn && Under(fqdn, e.suffix)
    ensures MatchName(entries, fqdn) == Found(e.name, fqdn, true)
      <==> forall f, a :: f in entries && a in Keys(f) && Under(fqdn, a.key) ==> |a.key| <= |e.suffix|
  {
    hide Under, AllKeys, Best, Normal, Keys;
    var own := RealKey(e);
    BestMissesEntries(entries, fqdn);
    var again := Best(AllKeys(entries), fqdn).value;
    var g := BestWins(entries, fqdn);
    KeyOf(g, again);
    if forall f, a :: f in entries && a in Keys(f) && Under(fqdn, a.key) ==> |a.key| <= |e.suffix| {
      assert Wins(entries, fqdn, e, own);
      WinnerIsUnique(entries, fqdn, e, own, g, again);
    }
  }

  lemma RealKey(e: Entry) returns (k: Key)
    requires e.suffix != ""
    ensures k in Keys(e) && k == Key(e.name, e.suffix, e.suffix, true)
  {
    k := Keys(e)[0];
  }

  // In particular no key may properly extend a real suffix.
  ghost predicate NoKeyExtendsASuffix(entries: seq<Entry>) {
    forall e, f, a :: e in entries && f in entries && a in Keys(f) && e.suffix != "" && Under(a.key, e.suffix)
      ==> a.key == e.suffix
  }

  lemma MatchIsCanonicalisation(entries: seq<Entry>, name: string)
    requires WellStored(entries) && KeysApart(entries) && NoKeyExtendsASuffix(entries)
    requires forall f, g :: f in entries && g in entries && f.name == g.name ==> f == g
    requires MatchName(entries, name).Found?
    ensures var m := MatchName(entries, name); MatchName(entries, m.realFQDN) == Found(m.tailnet, m.realFQDN, true)
  {
    hide Under, AllKeys, Best, Lower, Canonical, Keys;
    var n := Normal(name);
    var k := Best(AllKeys(entries), n).value;
    var e := BestWins(entries, n);
    var fqdn := Canonical(n, k);
    KeyOf(e, k);
    LowerOfNormal(name);
    CanonicalIsUnderSuffix(e, k, n);
    forall f, a | f in entries && a in Keys(f) && Under(fqdn, a.key) ensures |a.key| <= |e.suffix| {
      if |a.key| > |e.suffix| {
        LongerIsUnderShorter(fqdn, e.suffix, a.key);
      }
    }
    CanonicalNameIsStable(entries, name, e);
  }

  // Without that condition it fails: "b.t" is what the alias of one tailnet stands for, and the real
  // suffix of another.
  lemma ExtendedSuffixBreaksCanonicalisation(x: Entry, y: Entry)
    requires x.name == x.domain == "x" && x.suffix == "t"
    requires y.name == y.domain == "y" && y.suffix == "b.t"
    ensures MatchName([x, y], "b.x") == Found("x", "b.t", false)
    ensures MatchName([x, y], "b.t") == Found("y", "b.t", true)
  {
    hide AllKeys, Best, Better, Normal;
    KeysOfTwo(x, y);
    var t, xx, bt, yy := Key("x", "t", "t", true), Key("x", "t", "x", false), Key("y", "b.t", "b.t", true),
      Key("y", "b.t", "y", false);
    assert Keys(x) == [t, xx] && Keys(y) == [bt, yy];
    BestOfFour(t, xx, bt, yy, "b.x");
    BestOfFour(t, xx, bt, yy, "b.t");
    TwoScans(t, xx, bt, yy);
    NormalSpelling("b.x");
    NormalSpelling("b.t");
    assert TrimSuffix("b.x", ".x") == "b";
  }

  lemma TwoScans(t: Key, xx: Key, bt: Key, yy: Key)
    requires t.key == "t" && xx.key == "x" && bt.key == "b.t" && yy.key == "y"
    ensures Better(Better(Better(Better(None, t, "b.x"), xx, "b.x"), bt, "b.x"), yy, "b.x") == Some(xx)
    ensures Better(Better(Better(Better(None, t, "b.t"), xx, "b.t"), bt, "b.t"), yy, "b.t") == Some(bt)
  {
    assert Under("b.x", "x") && Under("b.t", "t");
    assert !Under("b.x", "t") && !Under("b.x", "b.t") && !Under("b.x", "y");
  }

  lemma NormalSpelling(s: string)
    requires s != "" && s[|s| - 1] != '.'
    requires forall i :: 0 <= i < |s| ==> LowerChar(s[i]) == s[i]
    ensures Normal(s) == s
  {
    assert Lower(s) == s;
    assert s[|s| - 1..] == [s[|s| - 1]];
  }

  lemma KeysOfTwo(x: Entry, y: Entry)
    ensures AllKeys([x, y]) == Keys(x) + Keys(y)
  {
    hide Keys;
    assert [x, y][..1] == [x];
    assert [x][..0] == [];
    assert AllKeys([x]) == Keys(x);
  }

  lemma BestStep(ks: seq<Key>, k: Key, name: string)
    ensures Best(ks + [k], name) == Better(Best(ks, name), k, name)
  {
    assert (ks + [k])[..|ks|] == ks;
  }

  lemma BestOfFour(a: Key, b: Key, c: Key, d: Key, name: string)
    ensures Best([a, b] + [c, d], name) == Better(Better(Better(Better(None, a, name), b, name), c, name), d, name)
  {
    hide Better, Best;
    assert Best([], name) == None by { EmptyBest(name); }
    BestStep([], a, name);
    BestStep([a], b, name);
    BestStep([a, b], c, name);
    BestStep([a, b, c], d, name);
    assert [] + [a] == [a] && [a] + [b] == [a, b] && [a, b] + [c] == [a, b, c];
    assert [a, b, c] + [d] == [a, b] + [c, d];
  }

  lemma EmptyBest(name: string)
    ensures Best([], name) == None
  {
  }
}
