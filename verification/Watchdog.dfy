/** The self-heal watchdog: when a tailnet is restarted, over any run of passes. */
module Watchdog {
  import opened Text

  // Seconds.
  const UNHEALTHY_AFTER: int := 90
  const RESTART_COOLDOWN: int := 300

  // A time not yet set is the zero time, which lies further back than any wait.
  datatype Health = Health(lastOnline: Option<int>, everOnline: bool, lastRestart: Option<int>)

  const UNKNOWN: Health := Health(None, false, None)

  // One probe of one tailnet during a pass.
  datatype Probe = Probe(name: string, online: bool, dead: bool, now: int, force: bool)

  predicate Within(t: Option<int>, now: int, wait: int) {
    t.Some? && now - t.value < wait
  }

  // needsRestart.
  predicate NeedsRestart(h: Health, forwarderDead: bool, now: int, force: bool) {
    if Within(h.lastRestart, now, RESTART_COOLDOWN) then false
    else if forwarderDead then true
    else if force then h.everOnline
    else h.everOnline && !Within(h.lastOnline, now, UNHEALTHY_AFTER + 1)
  }

  function HealthOf(hs: map<string, Health>, name: string): Health {
    if name in hs then hs[name] else UNKNOWN
  }

  function Seen(h: Health, p: Probe): Health {
    if p.online then h.(lastOnline := Some(p.now), everOnline := true) else h
  }

  // Does this probe restart its tailnet?
  predicate Fires(hs: map<string, Health>, p: Probe) {
    NeedsRestart(Seen(HealthOf(hs, p.name), p), p.dead, p.now, p.force)
  }

  function Observe(hs: map<string, Health>, p: Probe): map<string, Health> {
    var h := Seen(HealthOf(hs, p.name), p);
    hs[p.name := if Fires(hs, p) then h.(lastRestart := Some(p.now), lastOnline := Some(p.now)) else h]
  }

  function After(hs: map<string, Health>, ps: seq<Probe>): map<string, Health> {
    if ps == [] then hs else Observe(After(hs, ps[..|ps| - 1]), ps[|ps| - 1])
  }

  class Watch {
    var health: map<string, Health>

    constructor ()
      ensures health == map[]
    {
      health := map[];
    }

    // One pass over the live tailnets, in order. Restarting does not touch the watchdog's memory.
    method CheckHealth(pass: seq<Probe>) returns (restarted: seq<string>)
      modifies this
      ensures health == After(old(health), pass)
      ensures restarted == RestartedNames(old(health), pass)
    {
      restarted := [];
      for i := 0 to |pass|
        invariant health == After(old(health), pass[..i])
        invariant restarted == RestartedNames(old(health), pass[..i])
      {
        var p := pass[i];
        assert pass[..i + 1][..i] == pass[..i];
        var h := if p.name in health then health[p.name] else UNKNOWN;
        if p.online {
          h := h.(lastOnline := Some(p.now));
          h := h.(everOnline := true);
        }
        if !NeedsRestart(h, p.dead, p.now, p.force) {
          health := health[p.name := h];
        } else {
          h := h.(lastRestart := Some(p.now));
          h := h.(lastOnline := Some(p.now));
          health := health[p.name := h];
          restarted := restarted + [p.name];
        }
      }
      assert pass[..|pass|] == pass;
    }
  }

  function RestartedNames(hs: map<string, Health>, ps: seq<Probe>): seq<string> {
    if ps == [] then []
    else
      var init, last := ps[..|ps| - 1], ps[|ps| - 1];
      RestartedNames(hs, init) + if Fires(After(hs, init), last) then [last.name] else []
  }

  // ---- runs from a fresh daemon ----

  // The k-th probe of the run restarts its tailnet.
  predicate RestartsAt(ps: seq<Probe>, k: nat)
    requires k < |ps|
  {
    Fires(After(map[], ps[..k]), ps[k])
  }

  // Health of a name after the first m probes.
  function HealthAt(ps: seq<Probe>, m: nat, name: string): Health
    requires m <= |ps|
  {
    HealthOf(After(map[], ps[..m]), name)
  }

  predicate Of(ps: seq<Probe>, k: int, name: string) {
    0 <= k < |ps| && ps[k].name == name
  }

  ghost predicate RestartOf(ps: seq<Probe>, k: int, name: string) {
    Of(ps, k, name) && RestartsAt(ps, k)
  }

  ghost predicate ClockAdvances(ps: seq<Probe>) {
    forall i, j :: 0 <= i < j < |ps| ==> ps[i].now <= ps[j].now
  }

  // The effect of the m-th probe on a name's health.
  lemma HealthStep(ps: seq<Probe>, m: nat, name: string)
    requires m < |ps|
    ensures var h, p := HealthAt(ps, m, name), ps[m];
      HealthAt(ps, m + 1, name)
      == if p.name != name then h
         else if RestartsAt(ps, m) then Seen(h, p).(lastRestart := Some(p.now), lastOnline := Some(p.now))
         else Seen(h, p)
    ensures ps[m].name == name ==>
      (RestartsAt(ps, m) <==> NeedsRestart(Seen(HealthAt(ps, m, name), ps[m]), ps[m].dead, ps[m].now, ps[m].force))
  {
    hide NeedsRestart;
    assert ps[..m + 1][..m] == ps[..m];
  }

  ghost predicate EverOnline(ps: seq<Probe>, m: nat, name: string) {
    exists k :: Of(ps, k, name) && k < m && ps[k].online
  }

  // What the watchdog remembers of a name after m probes: whether it was ever online, and its latest restart.
  ghost predicate Remembers(ps: seq<Probe>, m: nat, name: string, h: Health) {
    && (h.everOnline <==> EverOnline(ps, m, name))
    && (forall k :: RestartOf(ps, k, name) && k < m ==> h.lastRestart.Some? && ps[k].now <= h.lastRestart.value)
    && (h.lastRestart.Some? ==> exists k :: RestartOf(ps, k, name) && k < m && ps[k].now == h.lastRestart.value)
  }

  lemma {:induction false} MemoryIsFaithful(ps: seq<Probe>, m: nat, name: string)
    requires ClockAdvances(ps) && m <= |ps|
    ensures Remembers(ps, m, name, HealthAt(ps, m, name))
  {
    hide NeedsRestart, RestartsAt, HealthAt;
    if m == 0 {
      assert HealthAt(ps, 0, name) == UNKNOWN by { NothingSeen(ps, name); }
    } else {
      var h := HealthAt(ps, m - 1, name);
      MemoryIsFaithful(ps, m - 1, name);
      HealthStep(ps, m - 1, name);
      assert Of(ps, m - 1, name) <==> ps[m - 1].name == name;
      assert EverOnline(ps, m, name) <==> EverOnline(ps, m - 1, name) || (Of(ps, m - 1, name) && ps[m - 1].online);
      assert RestartOf(ps, m - 1, name) <==> Of(ps, m - 1, name) && RestartsAt(ps, m - 1);
    }
  }

  lemma NothingSeen(ps: seq<Probe>, name: string)
    ensures HealthAt(ps, 0, name) == UNKNOWN
  {
  }

  // Two restarts of one name are at least the cooldown apart.
  lemma RestartsAreSpaced(ps: seq<Probe>, name: string, i: nat, j: nat)
    requires ClockAdvances(ps) && i < j && RestartOf(ps, i, name) && RestartOf(ps, j, name)
    ensures ps[j].now - ps[i].now >= RESTART_COOLDOWN
  {
    MemoryIsFaithful(ps, j, name);
    HealthStep(ps, j, name);
  }

  // The first m probes' restarts of the name, in order.
  ghost function RestartTimes(ps: seq<Probe>, m: nat, name: string): seq<nat>
    requires m <= |ps|
  {
    if m == 0 then []
    else RestartTimes(ps, m - 1, name) + if RestartOf(ps, m - 1, name) then [m - 1] else []
  }

  lemma {:induction false} RestartTimesAreRestarts(ps: seq<Probe>, m: nat, name: string)
    requires m <= |ps|
    ensures var ks := RestartTimes(ps, m, name);
      && (forall a :: 0 <= a < |ks| ==> RestartOf(ps, ks[a], name) && ks[a] < m)
      && (forall a, b :: 0 <= a < b < |ks| ==> ks[a] < ks[b])
      && (forall k: nat :: RestartOf(ps, k, name) && k < m ==> k in ks)
  {
    hide RestartOf;
    if m > 0 {
      RestartTimesAreRestarts(ps, m - 1, name);
    }
  }

  // In any span, from the a-th to the b-th restart of a name, there are at most 1 + T / cooldown of them.
  lemma {:induction false} RestartsAreRare(ps: seq<Probe>, name: string, a: nat, b: nat)
    requires ClockAdvances(ps) && a <= b < |RestartTimes(ps, |ps|, name)|
    ensures RestartTimes(ps, |ps|, name)[a] < |ps| && RestartTimes(ps, |ps|, name)[b] < |ps|
    ensures var ks := RestartTimes(ps, |ps|, name);
      b - a + 1 <= 1 + (ps[ks[b]].now - ps[ks[a]].now) / RESTART_COOLDOWN
    decreases b
  {
    RestartTimesAreRestarts(ps, |ps|, name);
    var ks := RestartTimes(ps, |ps|, name);
    if a < b {
      RestartsAreRare(ps, name, a, b - 1);
      RestartsAreSpaced(ps, name, ks[b - 1], ks[b]);
    }
  }

  // A name never seen online is restarted only because its forwarder died.
  lemma NeverOnlineNeedsDeadForwarder(ps: seq<Probe>, k: nat)
    requires ClockAdvances(ps) && k < |ps| && RestartsAt(ps, k) && !EverOnline(ps, k + 1, ps[k].name)
    ensures ps[k].dead
  {
    MemoryIsFaithful(ps, k, ps[k].name);
    HealthStep(ps, k, ps[k].name);
    assert Of(ps, k, ps[k].name);
  }

  // While a name is dark, the watchdog's last online time is that of the last sighting, or of a restart
  // made since.
  lemma {:induction false} DarkSince(ps: seq<Probe>, m: nat, name: string, i: nat)
    requires i < m <= |ps| && Of(ps, i, name) && ps[i].online
    requires forall k :: Of(ps, k, name) && i < k < m ==> !ps[k].online
    ensures var h := HealthAt(ps, m, name);
      h.everOnline && h.lastOnline.Some?
      && (h.lastOnline.value == ps[i].now
         || exists k :: RestartOf(ps, k, name) && k < m && ps[k].now == h.lastOnline.value)
  {
    hide NeedsRestart, RestartsAt, HealthAt;
    HealthStep(ps, m - 1, name);
    assert Of(ps, m - 1, name) <==> ps[m - 1].name == name;
    assert RestartOf(ps, m - 1, name) <==> Of(ps, m - 1, name) && RestartsAt(ps, m - 1);
    if i < m - 1 {
      DarkSince(ps, m - 1, name, i);
    }
  }

  // A name once online, not seen since for more than the grace period, and not restarted within the
  // cooldown, is restarted at this very probe, forced or not.
  lemma DarkNameIsRestarted(ps: seq<Probe>, i: nat, j: nat)
    requires ClockAdvances(ps) && i < j < |ps| && ps[i].name == ps[j].name && ps[i].online
    requires forall k :: Of(ps, k, ps[j].name) && i < k <= j ==> !ps[k].online
    requires ps[j].now - ps[i].now > UNHEALTHY_AFTER
    requires forall k :: RestartOf(ps, k, ps[j].name) && k < j ==> ps[j].now - ps[k].now >= RESTART_COOLDOWN
    ensures RestartsAt(ps, j)
  {
    hide RestartsAt, HealthAt;
    var name := ps[j].name;
    assert Of(ps, j, name);
    DarkSince(ps, j, name, i);
    MemoryIsFaithful(ps, j, name);
    HealthStep(ps, j, name);
  }
}
