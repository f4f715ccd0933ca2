/** What the patcher leaves in the file, seen record by record. Names may repeat: the diff is taken against the
    last entry of a name and applied to the first. */
module ConfigWrite {
  import opened Text
  import opened Config

  predicate Has(confs: seq<TailnetConf>, name: string) {
    exists i :: 0 <= i < |confs| && confs[i].name == name
  }

  // The last entry with that name, as a map built in order keeps it.
  function OldOf(prev: seq<TailnetConf>, name: string): Option<TailnetConf> {
    if prev == [] then None
    else if prev[|prev| - 1].name == name then Some(prev[|prev| - 1])
    else OldOf(prev[..|prev| - 1], name)
  }

  // A change of range, device, suffix or state directory rewrites the whole element.
  predicate Structural(o: TailnetConf, n: TailnetConf) {
    o.cidr != n.cidr || o.tun != n.tun || o.suffix != n.suffix || o.stateDir != n.stateDir
  }

  // configsEqual: every field but the auth key.
  function Keyless(tc: TailnetConf): TailnetConf {
    tc.(authKey := "")
  }

  ghost predicate NamesUnique(confs: seq<TailnetConf>) {
    forall i, j :: 0 <= i < j < |confs| ==> confs[i].name != confs[j].name
  }

  // The first entry with that name, or the number of entries.
  function Place(confs: seq<TailnetConf>, name: string): (i: nat)
    ensures i <= |confs|
    ensures i < |confs| ==> confs[i].name == name
    ensures forall j :: 0 <= j < i ==> confs[j].name != name
  {
    if confs == [] then 0 else if confs[0].name == name then 0 else 1 + Place(confs[1..], name)
  }

  function Without(confs: seq<TailnetConf>, name: string): seq<TailnetConf> {
    var i := Place(confs, name);
    if i < |confs| then confs[..i] + confs[i + 1..] else confs
  }

  function RemoveGone(file: seq<TailnetConf>, olds: seq<TailnetConf>, next: seq<TailnetConf>): seq<TailnetConf> {
    if olds == [] then file
    else
      var rest, o := RemoveGone(file, olds[..|olds| - 1], next), olds[|olds| - 1];
      if Has(next, o.name) then rest else Without(rest, o.name)
  }

  // The entry f of the file after the diff from o to n.
  function Merged(f: TailnetConf, o: TailnetConf, n: TailnetConf): TailnetConf {
    f.(domain := if o.domain == n.domain then f.domain else n.domain,
       hostname := if o.hostname == n.hostname then f.hostname else n.hostname,
       allowAll := if o.allowAll == n.allowAll then f.allowAll else n.allowAll,
       nativeDNS := if o.nativeDNS == n.nativeDNS then f.nativeDNS else n.nativeDNS,
       domainHosts := if o.domainHosts == n.domainHosts then f.domainHosts else n.domainHosts,
       reportPosture := if o.reportPosture == n.reportPosture then f.reportPosture else n.reportPosture,
       authKey := if o.authKey == n.authKey then f.authKey else n.authKey,
       enabledFlag := if o.enabledFlag == n.enabledFlag then f.enabledFlag else n.enabledFlag,
       resources := if o.resources == n.resources then f.resources else n.resources,
       locked := if o.locked == n.locked then f.locked else n.locked,
       autoSelect := if o.autoSelect == n.autoSelect then f.autoSelect else n.autoSelect)
  }

  // An entry written out whole loses its state directory.
  function Rewritten(f: TailnetConf, o: TailnetConf, n: TailnetConf): TailnetConf {
    if Structural(o, n) then n.(stateDir := "") else Merged(f, o, n)
  }

  function WriteOne(file: seq<TailnetConf>, n: TailnetConf, prev: seq<TailnetConf>): Option<seq<TailnetConf>> {
    match OldOf(prev, n.name)
    case None => Some(file + [n.(stateDir := "")])
    case Some(o) =>
      var i := Place(file, n.name);
      if i == |file| then None else Some(file[i := Rewritten(file[i], o, n)])
  }

  function WriteAll(file: seq<TailnetConf>, ns: seq<TailnetConf>, prev: seq<TailnetConf>): Option<seq<TailnetConf>> {
    if ns == [] then Some(file)
    else
      match WriteAll(file, ns[..|ns| - 1], prev)
      case None => None
      case Some(done) => WriteOne(done, ns[|ns| - 1], prev)
  }

  predicate SameButKeys(a: seq<TailnetConf>, b: seq<TailnetConf>) {
    |a| == |b| && forall i :: 0 <= i < |a| ==> Keyless(a[i]) == Keyless(b[i])
  }

  // What the file reads as after the change from prev to next; None when the write is refused.
  function Write(file: seq<TailnetConf>, prev: seq<TailnetConf>, next: seq<TailnetConf>): Option<seq<TailnetConf>> {
    match WriteAll(RemoveGone(file, prev, next), next, prev)
    case None => None
    case Some(out) => if SameButKeys(out, next) then Some(out) else None
  }
}
