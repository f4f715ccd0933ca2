/** The running set as a value: what sync, restart, retry, and every control request do to it. */
module LifecycleSpec {
  import opened Text
  import opened Cidr
  import opened Config
  import opened ConfigWrite
  import opened WriteLaws
  import opened RegistrySpec
  import opened Requests
  import opened Provision

  // A running tailnet. The id tells one start of it from the next.
  datatype Node = Node(id: nat, conf: TailnetConf)

  // disk is the config file as it parses.
  datatype Daemon = Daemon(live: seq<Node>, reg: State, disk: seq<TailnetConf>, nextId: nat)

  // How the starter answered, its quick busy retries included.
  datatype Start = Started | Busy | Failed

  // ---- one tailnet ----

  ghost function Dropped(reg: State, tailnet: string): State {
    if Sane(reg) then RemoveOf(reg, tailnet) else reg
  }

  // What a successful start leaves in the registry: suffix, domain and resolver of the tailnet.
  function Registered(reg: State, conf: TailnetConf): State {
    var named := DomainOf(SuffixOf(reg, conf.name, Normal(conf.suffix)), conf.name, conf.DomainName());
    named.(resolvers := named.resolvers + {Lower(conf.name)})
  }

  // startOne. A failed start takes its registry entry back.
  ghost function StartOne(d: Daemon, tc: TailnetConf, start: Start): (Daemon, bool) {
    match AddOf(d.reg, tc)
    case None => (d, false)
    case Some(reg) =>
      if start.Started? then
        (d.(live := d.live + [Node(d.nextId, tc)], reg := Registered(reg, tc), nextId := d.nextId + 1), true)
      else (d.(reg := Dropped(reg, tc.name)), false)
  }

  // stopTailnet.
  ghost function StopAt(d: Daemon, k: nat): Daemon
    requires k < |d.live|
  {
    d.(live := d.live[..k] + d.live[k + 1..], reg := Dropped(d.reg, d.live[k].conf.name))
  }

  // tailnetByName: the first running tailnet with that name, ignoring case.
  function LiveIndex(live: seq<Node>, name: string): (i: nat)
    ensures i <= |live|
    ensures i < |live| ==> EqualFold(live[i].conf.name, name)
    ensures forall j :: 0 <= j < i ==> !EqualFold(live[j].conf.name, name)
  {
    if |live| == 0 then 0
    else if EqualFold(live[0].conf.name, name) then 0
    else 1 + LiveIndex(live[1..], name)
  }

  // ---- syncTailnets ----

  // The last entry with that name, as a map by lower-case name keeps it.
  function WantOf(disk: seq<TailnetConf>, name: string): Option<TailnetConf> {
    if disk == [] then None
    else if Lower(disk[|disk| - 1].name) == Lower(name) then Some(disk[|disk| - 1])
    else WantOf(disk[..|disk| - 1], name)
  }

  predicate SameShape(a: TailnetConf, b: TailnetConf) {
    a.cidr == b.cidr && a.tun == b.tun && a.hostname == b.hostname && a.reportPosture == b.reportPosture
  }

  // The running tailnet survives a sync: still wanted, on, and of the same shape.
  predicate Keeps(node: Node, disk: seq<TailnetConf>) {
    var want := WantOf(disk, node.conf.name);
    want.Some? && want.value.Enabled() && SameShape(node.conf, want.value)
  }

  function Swapped(reg: State, was: TailnetConf, tc: TailnetConf): State {
    if was.domain != tc.domain then DomainOf(reg, tc.name, tc.DomainName()) else reg
  }

  // Takes over every setting that needs no restart.
  function SwapAt(d: Daemon, k: nat, tc: TailnetConf): Daemon
    requires k < |d.live|
  {
    d.(live := d.live[k := d.live[k].(conf := tc)], reg := Swapped(d.reg, d.live[k].conf, tc))
  }

  // The stop pass from node k on.
  ghost function StopPass(d: Daemon, k: nat): Daemon
    requires k <= |d.live|
    decreases |d.live| - k
  {
    if k == |d.live| then d
    else if Keeps(d.live[k], d.disk) then StopPass(SwapAt(d, k, WantOf(d.disk, d.live[k].conf.name).value), k + 1)
    else StopPass(StopAt(d, k), k)
  }

  function LiveNames(live: seq<Node>): set<string> {
    set i | 0 <= i < |live| :: Lower(live[i].conf.name)
  }

  // The start pass over the first n entries; names are those running when it began. The second result lists
  // the entries that did not start.
  ghost function StartPass(d: Daemon, n: nat, names: set<string>, starts: nat -> Start): (Daemon, seq<string>)
    requires n <= |d.disk|
  {
    if n == 0 then (d, [])
    else
      var (before, failed) := StartPass(d, n - 1, names, starts);
      var tc := d.disk[n - 1];
      if !tc.Enabled() || Lower(tc.name) in names then (before, failed)
      else
        var (after, ok) := StartOne(before, tc, starts(n - 1));
        (after, if ok then failed else failed + [tc.name])
  }

  ghost function SyncOf(d: Daemon, starts: nat -> Start): (r: (Daemon, seq<string>)) {
    var stopped := StopPass(d, 0);
    StopPassKeepsDisk(d, 0);
    StartPass(stopped, |stopped.disk|, LiveNames(stopped.live), starts)
  }

  lemma {:induction false} StopPassKeepsDisk(d: Daemon, k: nat)
    requires k <= |d.live|
    ensures StopPass(d, k).disk == d.disk
    decreases |d.live| - k
  {
    if k < |d.live| {
      if Keeps(d.live[k], d.disk) {
        StopPassKeepsDisk(SwapAt(d, k, WantOf(d.disk, d.live[k].conf.name).value), k + 1);
      } else {
        StopPassKeepsDisk(StopAt(d, k), k);
      }
    }
  }

  // ---- the other operations ----

  ghost function RestartOf(d: Daemon, name: string, start: Start): (Daemon, bool) {
    var k := LiveIndex(d.live, name);
    if k == |d.live| then (d, false) else StartOne(StopAt(d, k), d.live[k].conf, start)
  }

  // retryTailnet: reloads the entry, so nothing starts that was switched off meanwhile.
  ghost function RetryOf(d: Daemon, name: string, start: Start): (Daemon, bool) {
    var i := IndexByName(d.disk, name);
    if i == |d.disk| || !d.disk[i].Enabled() || LiveIndex(d.live, name) < |d.live| then (d, true)
    else StartOne(d, d.disk[i], start)
  }

  ghost function StopNamed(d: Daemon, name: string): Daemon {
    var k := LiveIndex(d.live, name);
    if k == |d.live| then d else StopAt(d, k)
  }

  // The record next goes to the file, and the daemon goes on with next itself, whatever the file came to
  // say. A refused write changes nothing.
  ghost function Put(d: Daemon, next: seq<TailnetConf>): Option<seq<TailnetConf>> {
    Write(d.disk, d.disk, next)
  }

  ghost function SyncTo(d: Daemon, next: seq<TailnetConf>, starts: nat -> Start, file: seq<TailnetConf>): Daemon {
    SyncOf(d.(disk := next), starts).0.(disk := file)
  }

  // One request. An edit is written, then synced; a reset or removal is written, stops the node, and is
  // synced only when its purge went through. Unreached says a refused edit, or a purge that failed. An add
  // only looks under this lock hold: what it found free is appended under a later one.
  ghost function ServeOf(d: Daemon, q: Request, env: Env, starts: nat -> Start, reached: bool): Daemon {
    match q
    case Update(_, _, _) =>
      var next := Serve(d.disk, q, env);
      var file := Put(d, next);
      if file.None? || (next == d.disk && !reached) then d else SyncTo(d, next, starts, file.value)
    case Add(_) => d
    case Reset(name) => ResetTailnetOf(d, name, starts, reached)
    case Remove(name, finished) => RemoveTailnetOf(d, name, starts, finished)
  }

  // The first write of a reset or removal, and the stop. The entry is the first of that name.
  ghost function SwitchOff(d: Daemon, i: nat): Option<Daemon>
    requires i < |d.disk|
  {
    var file := Put(d, d.disk[i := Revoked(d.disk[i])]);
    if d.disk[i].locked != [] || file.None? then None
    else Some(StopNamed(d.(disk := file.value), d.disk[i].name))
  }

  ghost function ResetTailnetOf(d: Daemon, name: string, starts: nat -> Start, reached: bool): Daemon {
    var i := IndexByName(d.disk, name);
    if i == |d.disk| then d
    else
      match SwitchOff(d, i)
      case None => d
      case Some(off) => if reached then SyncTo(off, d.disk[i := Revoked(d.disk[i])], starts, off.disk) else off
  }

  // The second write starts from the record in hand, over the file as the first write left it.
  ghost function RemoveTailnetOf(d: Daemon, name: string, starts: nat -> Start, finished: bool): Daemon {
    var i := IndexByName(d.disk, name);
    if i == |d.disk| then d
    else
      match SwitchOff(d, i)
      case None => d
      case Some(off) =>
        var hand := d.disk[i := Revoked(d.disk[i])];
        var next := RemoveNamed(hand, d.disk[i].name);
        var file := Write(off.disk, hand, next);
        if finished && file.Some? then SyncTo(off, next, starts, file.value) else off
  }

  // The second lock hold of an add: the entry goes into the file as it was made up, unchecked but for the
  // write itself.
  ghost function AppendOf(d: Daemon, conf: TailnetConf, starts: nat -> Start): Daemon {
    var next := d.disk + [Fresh(conf)];
    var file := Put(d, next);
    if file.None? then d else SyncTo(d, next, starts, file.value)
  }

  // Everything that happens to the daemon, one lock hold at a time. Touch is what name lookups, selection
  // and the status watchers do to the registry meanwhile; Boot is a fresh process after a stop or crash.
  datatype Op =
    | Reload(starts: nat -> Start)
    | Handle(q: Request, env: Env, starts: nat -> Start, reached: bool)
    | Append(conf: TailnetConf, starts: nat -> Start)
    | Restart(name: string, start: Start)
    | Retry(name: string, start: Start)
    | Touch(op: RegistrySpec.Op)
    | Boot(starts: nat -> Start)

  ghost function Step(d: Daemon, op: Op): Daemon {
    match op
    case Reload(starts) => SyncOf(d, starts).0
    case Handle(q, env, starts, reached) => ServeOf(d, q, env, starts, reached)
    case Append(conf, starts) => AppendOf(d, conf, starts)
    case Restart(name, start) => RestartOf(d, name, start).0
    case Retry(name, start) => RetryOf(d, name, start).0
    case Touch(op) => if op.AddOp? || op.RemoveOp? then d else d.(reg := Apply(d.reg, op))
    case Boot(starts) => SyncOf(d.(live := [], reg := EMPTY), starts).0
  }

  ghost function Steps(d: Daemon, run: seq<Op>): Daemon {
    if run == [] then d else Step(Steps(d, run[..|run| - 1]), run[|run| - 1])
  }

  // ---- the invariant ----

  // Entry i of the registry is the i-th running tailnet.
  ghost predicate Mirrors(e: Matching.Entry, node: Node) {
    e.name == Lower(node.conf.name) && ParseCIDR(node.conf.cidr) == Some(e.ipnet)
  }

  // The running set and the registry name the same tailnets with the same ranges, no name twice.
  ghost predicate Tracked(d: Daemon) {
    && Sane(d.reg)
    && |d.reg.entries| == |d.live|
    && (forall i :: 0 <= i < |d.live| ==> Mirrors(d.reg.entries[i], d.live[i]))
    && (forall i, j :: 0 <= i < j < |d.live| ==> d.reg.entries[i].name != d.reg.entries[j].name)
    && (forall i :: 0 <= i < |d.live| ==> d.live[i].id < d.nextId)
    && (forall i, j :: 0 <= i < j < |d.live| ==> d.live[i].id != d.live[j].id)
  }

  // Every running tailnet runs a record of the file, switched on.
  ghost predicate FromDisk(d: Daemon) {
    forall i :: 0 <= i < |d.live| ==> d.live[i].conf in d.disk && d.live[i].conf.Enabled()
  }

  // The running set, the registry and the record last synced to agree.
  ghost predicate Matches(d: Daemon) {
    Tracked(d) && FromDisk(d)
  }

  // The file has the record, if its exact name is there once, and otherwise has it but for the auth key.
  ghost predicate OnFile(tc: TailnetConf, disk: seq<TailnetConf>) {
    && (exists x :: x in disk && Keyless(x) == Keyless(tc))
    && (|Namesakes(disk, tc.name)| == 1 ==> tc in disk)
  }

  // What holds in every state at all, whatever the file says.
  ghost predicate Agrees(d: Daemon) {
    Tracked(d) && forall i :: 0 <= i < |d.live| ==> OnFile(d.live[i].conf, d.disk) && d.live[i].conf.Enabled()
  }

  ghost predicate Running(d: Daemon) {
    Tracked(d) && Valid(d.reg)
  }

  // What holds besides while the file names each tailnet once and its ranges are disjoint.
  ghost predicate Good(d: Daemon) {
    ConfigOk(d.disk) && Running(d) && FromDisk(d)
  }
}
