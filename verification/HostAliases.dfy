/** The name each hosts entry is written under: bare, qualified by its domain, or the full name. */
module HostAliases {
  import opened Hosts

  // Some tailnet writes the bare name.
  ghost predicate Claims(es: seq<HostsEntry>, alias: string, tailnet: string) {
    exists i :: 0 <= i < |es| && !es[i].forceDomain && es[i].alias == alias && es[i].tailnet == tailnet
  }

  // Two different tailnets write the same bare name.
  ghost predicate Contested(es: seq<HostsEntry>, alias: string) {
    exists t, u :: t != u && Claims(es, alias, t) && Claims(es, alias, u)
  }

  ghost function Qualified(es: seq<HostsEntry>, e: HostsEntry): string {
    if e.forceDomain || Contested(es, e.alias) then e.alias + "." + e.domain else e.alias
  }

  // Two entries would write the qualified name with different addresses.
  ghost predicate Collides(es: seq<HostsEntry>, name: string) {
    exists i, j :: 0 <= i < |es| && 0 <= j < |es| && Qualified(es, es[i]) == name && Qualified(es, es[j]) == name
                   && es[i].ip != es[j].ip
  }

  ghost function FinalAlias(es: seq<HostsEntry>, e: HostsEntry): string {
    if Collides(es, Qualified(es, e)) then e.fqdn else Qualified(es, e)
  }

  // qualifyHostsAliases: three passes over the entries, in place.
  method QualifyHostsAliases(a: array<HostsEntry>)
    modifies a
    ensures var es := old(a[..]);
      forall i :: 0 <= i < a.Length ==> a[i] == es[i].(alias := FinalAlias(es, es[i]))
  {
    ghost var es := a[..];
    var claims := CollectClaims(a);
    for i := 0 to a.Length
      invariant forall j :: 0 <= j < i ==> a[j] == es[j].(alias := Qualified(es, es[j]))
      invariant forall j :: i <= j < a.Length ==> a[j] == es[j]
    {
      var e := a[i];
      if e.forceDomain || (e.alias in claims && |claims[e.alias]| > 1) {
        a[i] := e.(alias := e.alias + "." + e.domain);
      }
      ContestedIffTwoClaims(es, claims, e.alias);
    }
    var collide := CollectCollisions(a, es);
    for i := 0 to a.Length
      invariant forall j :: 0 <= j < i ==> a[j] == es[j].(alias := FinalAlias(es, es[j]))
      invariant forall j :: i <= j < a.Length ==> a[j] == es[j].(alias := Qualified(es, es[j]))
    {
      if a[i].alias in collide {
        a[i] := a[i].(alias := a[i].fqdn);
      }
    }
  }

  predicate Recorded(claims: map<string, set<string>>, alias: string, tailnet: string) {
    alias in claims && tailnet in claims[alias]
  }

  method CollectClaims(a: array<HostsEntry>) returns (claims: map<string, set<string>>)
    ensures forall x, t :: Recorded(claims, x, t) <==> Claims(a[..], x, t)
  {
    claims := map[];
    for i := 0 to a.Length
      invariant forall x, t :: Recorded(claims, x, t) <==> Claims(a[..i], x, t)
    {
      var e := a[i];
      ghost var before := claims;
      if !e.forceDomain {
        if e.alias !in claims {
          claims := claims[e.alias := {}];
        }
        claims := claims[e.alias := claims[e.alias] + {e.tailnet}];
      }
      assert a[..i + 1] == a[..i] + [e];
      forall x, t ensures Recorded(claims, x, t) <==> Claims(a[..i + 1], x, t) {
        ClaimsStep(a[..i], e, x, t);
        assert Recorded(before, x, t) <==> Claims(a[..i], x, t);
      }
    }
    assert a[..a.Length] == a[..];
  }

  lemma ClaimsStep(es: seq<HostsEntry>, e: HostsEntry, x: string, t: string)
    ensures Claims(es + [e], x, t) <==> Claims(es, x, t) || (!e.forceDomain && e.alias == x && e.tailnet == t)
  {
    if Claims(es, x, t) {
      var i :| 0 <= i < |es| && !es[i].forceDomain && es[i].alias == x && es[i].tailnet == t;
      assert (es + [e])[i] == es[i];
    }
    if !e.forceDomain && e.alias == x && e.tailnet == t {
      assert (es + [e])[|es|] == e;
    }
  }

  lemma ContestedIffTwoClaims(es: seq<HostsEntry>, claims: map<string, set<string>>, x: string)
    requires forall x, t :: Recorded(claims, x, t) <==> Claims(es, x, t)
    ensures Contested(es, x) <==> x in claims && |claims[x]| > 1
  {
    if x in claims && |claims[x]| > 1 {
      var t :| t in claims[x];
      var rest := claims[x] - {t};
      assert |rest| > 0;
      var u :| u in rest;
      assert Claims(es, x, t) && Claims(es, x, u);
    }
    if Contested(es, x) {
      var t, u :| t != u && Claims(es, x, t) && Claims(es, x, u);
      assert {t, u} <= claims[x];
      SubsetSize({t, u}, claims[x]);
    }
  }

  lemma SubsetSize<T>(a: set<T>, b: set<T>)
    requires a <= b
    ensures |a| <= |b|
  {
    assert b == a + (b - a);
  }

  // Some entry carries x with that address, or with another one.
  ghost predicate Saw(q: seq<HostsEntry>, x: string, ip: string, other: bool) {
    exists i :: 0 <= i < |q| && q[i].alias == x && (q[i].ip == ip) != other
  }

  lemma SawStep(q: seq<HostsEntry>, e: HostsEntry, x: string, ip: string, other: bool)
    ensures Saw(q + [e], x, ip, other) <==> Saw(q, x, ip, other) || (e.alias == x && (e.ip == ip) != other)
  {
    if Saw(q, x, ip, other) {
      var i :| 0 <= i < |q| && q[i].alias == x && (q[i].ip == ip) != other;
      assert (q + [e])[i] == q[i];
    }
    if e.alias == x && (e.ip == ip) != other {
      assert (q + [e])[|q|] == e;
    }
  }

  // The third pass's table: the first address seen for each name, and the names seen with another one.
  method CollectCollisions(a: array<HostsEntry>, ghost es: seq<HostsEntry>) returns (collide: set<string>)
    requires |es| == a.Length && forall j :: 0 <= j < a.Length ==> a[j] == es[j].(alias := Qualified(es, es[j]))
    ensures forall x :: x in collide <==> Collides(es, x)
  {
    hide Qualified;
    var seen: map<string, string> := map[];
    collide := {};
    for i := 0 to a.Length
      invariant forall x :: x in seen ==> Saw(a[..i], x, seen[x], false)
      invariant forall x, ip :: Saw(a[..i], x, ip, false) ==> x in seen
      invariant forall x :: x in collide <==> x in seen && Saw(a[..i], x, seen[x], true)
    {
      hide Saw;
      var e := a[i];
      assert a[..i + 1] == a[..i] + [e];
      forall x, ip, other
        ensures Saw(a[..i + 1], x, ip, other) <==> Saw(a[..i], x, ip, other) || (e.alias == x && (e.ip == ip) != other)
      {
        SawStep(a[..i], e, x, ip, other);
      }
      OtherNeedsSeen(a[..i], e.alias, e.ip);
      if e.alias in seen && seen[e.alias] != e.ip {
        collide := collide + {e.alias};
      } else if e.alias !in seen {
        seen := seen[e.alias := e.ip];
      }
      ghost var q := a[..i + 1];
      forall x, ip ensures Saw(q, x, ip, false) ==> x in seen {
        assert Saw(q, x, ip, false) ==> Saw(a[..i], x, ip, false) || e.alias == x;
      }
    }
    assert a[..a.Length] == a[..];
    forall x ensures x in collide <==> Collides(es, x) {
      CollisionIsTwoSaw(a[..], es, seen, x);
    }
  }

  lemma OtherNeedsSeen(q: seq<HostsEntry>, x: string, ip: string)
    ensures Saw(q, x, ip, true) ==> exists ip' :: Saw(q, x, ip', false)
  {
    if Saw(q, x, ip, true) {
      var i :| 0 <= i < |q| && q[i].alias == x && q[i].ip != ip;
      assert Saw(q, x, q[i].ip, false);
    }
  }

  lemma CollisionIsTwoSaw(q: seq<HostsEntry>, es: seq<HostsEntry>, seen: map<string, string>, x: string)
    requires |es| == |q| && forall j :: 0 <= j < |q| ==> q[j] == es[j].(alias := Qualified(es, es[j]))
    requires x in seen ==> Saw(q, x, seen[x], false)
    requires forall ip :: Saw(q, x, ip, false) ==> x in seen
    ensures Collides(es, x) <==> x in seen && Saw(q, x, seen[x], true)
  {
    hide Qualified;
    if Collides(es, x) {
      var i, j :| 0 <= i < |es| && 0 <= j < |es| && Qualified(es, es[i]) == x && Qualified(es, es[j]) == x
        && es[i].ip != es[j].ip;
      assert q[i].alias == x && q[j].alias == x;
      assert Saw(q, x, q[i].ip, false);
    }
  }

  // ---- what the written names guarantee ----

  // The entry as it is rendered.
  ghost function Final(es: seq<HostsEntry>, e: HostsEntry): HostsEntry {
    e.(alias := FinalAlias(es, e))
  }

  // Entry i puts the name on its line.
  ghost predicate Writes(es: seq<HostsEntry>, i: nat, name: string)
    requires i < |es|
  {
    name in WrittenNames(Final(es, es[i]))
  }

  // No name in the block, full names on native lines included, stands for two addresses.
  ghost predicate SameNameSameAddress(es: seq<HostsEntry>) {
    forall i, j, name :: 0 <= i < |es| && 0 <= j < |es| && Writes(es, i, name) && Writes(es, j, name)
                         ==> es[i].ip == es[j].ip
  }

  // The name is kept as the entry's alias.
  ghost predicate Keeps(es: seq<HostsEntry>, i: nat, name: string)
    requires i < |es|
  {
    name == Qualified(es, es[i]) && !Collides(es, name)
  }

  // The full name is written: as the fallback of a collision, or beside the alias on a native line.
  ghost predicate WritesFull(es: seq<HostsEntry>, i: nat)
    requires i < |es|
  {
    Collides(es, Qualified(es, es[i])) || (es[i].native && es[i].fqdn != "")
  }

  // One entry writes its full name, which another keeps as an alias for another address.
  ghost predicate FullNameClash(es: seq<HostsEntry>, i: nat, j: nat)
    requires i < |es| && j < |es|
  {
    WritesFull(es, i) && Keeps(es, j, es[i].fqdn) && es[i].ip != es[j].ip
  }

  lemma WrittenIsKeptOrFull(es: seq<HostsEntry>, i: nat, name: string)
    requires i < |es|
    ensures Writes(es, i, name) <==> Keeps(es, i, name) || (WritesFull(es, i) && name == es[i].fqdn)
  {
    hide Qualified, Collides;
  }

  // When full names determine addresses, no written name stands for two addresses exactly when no full
  // name that is written meets an alias that was kept.
  lemma NamesAreUnambiguousIff(es: seq<HostsEntry>)
    requires forall i, j :: 0 <= i < |es| && 0 <= j < |es| && es[i].fqdn == es[j].fqdn ==> es[i].ip == es[j].ip
    ensures SameNameSameAddress(es) <==> forall i, j :: 0 <= i < |es| && 0 <= j < |es| ==> !FullNameClash(es, i, j)
  {
    hide Qualified, Collides, Writes, WritesFull;
    if forall i, j :: 0 <= i < |es| && 0 <= j < |es| ==> !FullNameClash(es, i, j) {
      forall i, j, name | 0 <= i < |es| && 0 <= j < |es| && Writes(es, i, name) && Writes(es, j, name)
        ensures es[i].ip == es[j].ip
      {
        WrittenIsKeptOrFull(es, i, name);
        WrittenIsKeptOrFull(es, j, name);
        assert !FullNameClash(es, i, j) && !FullNameClash(es, j, i);
        if Keeps(es, i, name) && Keeps(es, j, name) { NoCollisionMeansOneAddress(es, i, j); }
      }
    }
    if SameNameSameAddress(es) {
      forall i, j | 0 <= i < |es| && 0 <= j < |es| ensures !FullNameClash(es, i, j) {
        WrittenIsKeptOrFull(es, i, es[i].fqdn);
        WrittenIsKeptOrFull(es, j, es[i].fqdn);
      }
    }
  }

  lemma NoCollisionMeansOneAddress(es: seq<HostsEntry>, i: nat, j: nat)
    requires i < |es| && j < |es| && Qualified(es, es[i]) == Qualified(es, es[j])
    requires !Collides(es, Qualified(es, es[i]))
    ensures es[i].ip == es[j].ip
  {
  }

  // An entry is written bare, as assembled, unless its tailnet forces the domain, two tailnets claim the
  // bare name, or the bare name would carry two addresses; and the full name appears only on a collision.
  lemma BareUnlessNeeded(es: seq<HostsEntry>, i: nat)
    requires i < |es| && !es[i].forceDomain && !Contested(es, es[i].alias)
    ensures FinalAlias(es, es[i]) == es[i].alias || (FinalAlias(es, es[i]) == es[i].fqdn && Collides(es, es[i].alias))
  {
  }

  // Two tailnets that claim one bare name never both keep it.
  lemma ContestedNameIsNeverBare(es: seq<HostsEntry>, i: nat)
    requires i < |es| && Contested(es, es[i].alias) && es[i].fqdn != es[i].alias
    ensures FinalAlias(es, es[i]) != es[i].alias
  {
    assert |es[i].alias + "." + es[i].domain| > |es[i].alias|;
  }

  lemma UncontestedWhen(es: seq<HostsEntry>, alias: string, tailnet: string)
    requires forall i :: 0 <= i < |es| && es[i].alias == alias ==> es[i].tailnet == tailnet
    ensures !Contested(es, alias)
  {
  }

  // The guarantee does need the condition: a kept name can equal another entry's fallback.
  lemma FallbackCanCollide() returns (es: seq<HostsEntry>)
    ensures forall i, j :: 0 <= i < |es| && 0 <= j < |es| ==> (es[i].fqdn == es[j].fqdn <==> es[i].ip == es[j].ip)
    ensures forall i :: 0 <= i < |es| ==> !es[i].native
    ensures !SameNameSameAddress(es)
  {
    hide Contested, Writes, FinalAlias, Qualified, Collides;
    es := [HostsEntry("1", "a", "f", "t", false, "d", true), HostsEntry("2", "a", "g", "u", false, "d", true),
           HostsEntry("3", "f", "h", "v", false, "d", false)];
    TwoFallBack(es);
    WrittenIsKeptOrFull(es, 0, "f");
    WrittenIsKeptOrFull(es, 2, "f");
  }

  // The first two entries collide on "a.d", the third keeps "f".
  lemma TwoFallBack(es: seq<HostsEntry>)
    requires es == [HostsEntry("1", "a", "f", "t", false, "d", true), HostsEntry("2", "a", "g", "u", false, "d", true),
                    HostsEntry("3", "f", "h", "v", false, "d", false)]
    ensures Qualified(es, es[0]) == "a.d" && Qualified(es, es[2]) == "f"
    ensures Collides(es, "a.d") && !Collides(es, "f")
  {
    hide Contested;
    UncontestedWhen(es, "f", "v");
    assert Qualified(es, es[0]) == "a.d" && Qualified(es, es[1]) == "a.d" && Qualified(es, es[2]) == "f";
  }

  // So it can without any collision, through the full name on a native line.
  lemma NativeNameCanCollide() returns (es: seq<HostsEntry>)
    ensures forall i, j :: 0 <= i < |es| && 0 <= j < |es| ==> (es[i].fqdn == es[j].fqdn <==> es[i].ip == es[j].ip)
    ensures forall i :: 0 <= i < |es| ==> FinalAlias(es, es[i]) == es[i].alias
    ensures !SameNameSameAddress(es)
  {
    es := [HostsEntry("1", "a", "f", "t", true, "d", false), HostsEntry("2", "f", "g", "u", false, "d", false)];
    UncontestedWhen(es, "a", "t");
    UncontestedWhen(es, "f", "u");
    assert Qualified(es, es[0]) == "a" && Qualified(es, es[1]) == "f";
    assert !Collides(es, "a") && !Collides(es, "f");
    WrittenIsKeptOrFull(es, 0, "f");
    WrittenIsKeptOrFull(es, 1, "f");
  }
}
