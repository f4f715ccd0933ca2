# A verified model of ts-multinet

One `ts-multinet` process keeps several tailnets up at once. What it must not let drift apart are the config
file, the tailnets actually running, the registry of synthetic addresses its DNS responder answers from, and
its block in `/etc/hosts`. The Dafny files here follow each of these through every operation, with starts that
fail and writes that break off, and prove over whole runs what stays true. The two hand-written DNS codecs of
the repository, in `ts-router` and in the example resolver, are covered as well.

To check everything: `dafny verify --resource-limit 2000000 --verification-time-limit 0 dfyconfig.toml`.

## How it is organised

Code that updates state in place is modelled by classes and methods; each method is proved against a
function of the same operation on values, and the guarantees are proved about those functions.

| part | specification and laws | code that changes state |
|---|---|---|
| lifecycle: sync, restart, retry, control requests | `LifecycleSpec`, `LifecycleLaws`, `LifecycleAgreement`, `LifecycleRanges`, `LifecycleAddresses` | `Lifecycle` |
| delete and reset as protocols that fail or crash | `Removal`, `RemovalLaws`, `RemovalQuiet`, `RemovalRetry` | `RemovalHost.Host` |
| which directory may be purged | `PurgeTarget` | `PurgeTarget` |
| address registry, DNS matching, steering | `Matching`, `RegistrySpec`, `Steering`, `NestedSuffixes` | `Registry` |
| synthetic ranges | `Cidr`, `Ranges`, `Provision` | `Ranges.NextFreeCIDR` |
| config file patching | `ConfigAst`, `ConfigPatch`, `PatchRefinement` | `ConfigFile` |
| what a write leaves in the file | `ConfigWrite`, `WriteLaws`, `Writes` | |
| selections, pins, rules | `Selection`, `SelectionLaws` | `Selector` |
| control requests, locks, listings | `Requests` | `Requests.Draft` |
| applying selections, the hosts file | `Applying`, `SteadySelection`, `HostAliases`, `Hosts` | `Applying`, `HostAliases`, `Hosts.HostsFile` |
| DNS messages | `DnsWire`, `DnsProxy`, `DnsResolver` | `DnsProxy`, `DnsResolver` |
| self-heal watchdog | `Watchdog` | `Watchdog.Watch` |

`Text` and `Config` hold what the others share. Strings are sequences of characters, addresses are numbers
below 2^32, a range is a base and a prefix length. Go map iteration is a sequence in arbitrary order, or a
set visited in arbitrary order. What the model cannot see comes in as a parameter: how a start ends, whether a
write reaches the disk, what the live status says, whether a glob matches, which port range a rule names.
One operation is one hold of the config lock, so an add is two of them, a check and a later append, with
anything in between; registry traffic between operations is a step of its own.
Every write of the config goes through `ConfigWrite`, which says record by record what the patcher leaves in the
file, or that it refuses; the tree patcher is proved to do that (`PatchRefinesWrite`). After an accepted write
the daemon goes on with the record in hand, not with what the file came to say. A write that fails is no step.

In `Removal` the stops and starts made by sync, restart and retry appear as single steps, guarded as
`LifecycleLaws` proves them to be: only an entry that is on the file, switched on and not running is started.
Directories there are real paths, so one can lie below another; `GuardIsTheWalk` ties the guard on them to the
climb through links of `PurgeTarget`.

## Where the code falls short of its promise

Each of these is proved with the exact condition, or with a concrete case, and the code is modelled as it is.

- The patcher never writes `state_dir` into an entry, so a change that inserts or rewrites such an entry is
  refused; `PatchRefinesUpdate` says exactly when. Its header comment lists four mutable keys; the code, which
  the model follows, edits eleven and rewrites whole entries.
- The patcher compares against the last entry of an exact name and edits the first. With a name on file twice an
  auth key can stay behind: the tailnet then runs under settings no entry holds (`FileMayLag`), or a reset reports a
  key cleared that the file keeps (`KeyOutlivesReset`). `WriteIsExactIff`, `TwinHasRecordIff` and
  `BeginClearsKeyIff` say exactly when; an entry that has its name alone is always written whole
  (`LoneEntryIsExact`).
- An add checks under one lock hold and appends under another. The agreement of the views survives any such
  race (`StepAgrees`). A second append of the same exact name is refused by the patcher; otherwise names stay
  unique and ranges disjoint if and only if the entry is still free at the append: `AppendIsGoodIff`, and
  `RacingAdds` for two adds.
- Reset and delete switch off the first entry of a name only. If another entry of that name, ignoring case, is on,
  the next start runs it, on the old identity if it shares the directory: `NamesakeRunsAgain`, with the exact
  condition in `StaysDownIff`. A delete drops all entries of the exact name and purges one directory:
  `LeavesPurgedIff`.
- A delete begun while its directory is missing can be refused on retry, once another start has made the
  directory: `BegunIsRetryableIff`, `StaysAcceptedIff`.
- A second pass of the selections over unchanged input can list a name more: `LateName`, exactly in the case that
  `ApplyIsIdempotentIff` names.
- Removing a tailnet from the registry goes by range, not by owner: `SharedRangeLosesNames`, with the exact
  conditions in `RemoveForgetsIff` and `RemoveDropsGuardIff`.
- `allocate` compares names letter for letter, so a tailnet configured with upper-case letters mints no
  address through selection: `FreshNameIsMintedIff`.
- A suffix of one tailnet below that of another breaks canonicalisation and steering:
  `ExtendedSuffixBreaksCanonicalisation`, `NestedSuffixSteersAstray`. `CanonicalNameIsStable` and `SteeredIff`
  give the conditions, and `ReachesAstray` a run from an empty registry.
- The comment on hosts aliases promises that no name appears twice with different addresses; the fallback to
  full names can break that, and so can the full name beside the alias on a native line:
  `NamesAreUnambiguousIff`, `FallbackCanCollide`, `NativeNameCanCollide`.
- The comment on the peers listing says checkbox and hosts block cannot disagree. They agree for peers under
  the tailnet's suffix (`PeerBoxIsWanted`) and can differ for others (`ForeignBoxDisagrees`). The services
  listing differs under `allow_all` in exactly one case: `ServiceBoxIsWantedIff`.
- With `allow_all` on, a forget leaves a live peer wanted: `ForgetUnselects`.
- A delete checks the locks of the first entry of a name and drops every entry of that exact name:
  `DeleteTakesTheNamesake`, provided the file can take the first write (`TwinRevokeIff`). `HeldIff` gives the
  exact condition for every request; with names unique ignoring case no delete can meet it (`ServeKeepsHeld`).
- A delete whose purge breaks off may have taken the selection pins and left the saved login, or the other way
  round: `BrokenDeleteLosesEither`.
- The purge check looks upward from the protected paths only, so a target inside another tailnet's
  `state_dir` passes: `TargetInsidePasses`.

## Model

| member | source | states |
|---|---|---|
| LifecycleAgreement.StepAgrees | cmd/ts-multinet/control.go:243-324 | every operation of the daemon (reload, any control request with its writes as the patcher makes them, the late append of an add, restart, background retry, registry traffic, a fresh boot), with any starts failing and any file, repeated names and overlapping ranges included, keeps the agreement of config file, running set and registry |
| LifecycleAgreement.StepsAgree | cmd/ts-multinet/control.go:373-431 | the same over any run of operations in any order |
| LifecycleAgreement.EveryReachableDaemonAgrees | cmd/ts-multinet/control.go:146-148 | every state reachable from a fresh daemon over any file, racing adds included, is in agreement |
| LifecycleAgreement.AgreementMeans | cmd/ts-multinet/control.go:243-299 | what the agreement is: registry entries are exactly those of the live tailnets, in order, live names differ ignoring case, and each live tailnet runs a record the file holds, switched on; its auth key may differ from the file, but only while the file has that exact name twice |
| LifecycleAgreement.FileMayLag | cmd/ts-multinet/control.go:567-592 | with two entries of one name an update can leave a tailnet running as a record no entry of the file holds |
| LifecycleLaws.SyncMatches | cmd/ts-multinet/control.go:243-299 | after a sync, whatever the record says, every live tailnet runs an entry of it, key and all, and the registry matches |
| LifecycleLaws.SyncConverges | cmd/ts-multinet/control.go:236-299 | with unique names and nothing else asked of the file: after a sync the live confs are exactly the enabled entries minus those reported, and only entries whose start failed or whose range does not parse are reported |
| LifecycleLaws.SyncKeepsInstances | cmd/ts-multinet/control.go:259-272 | a running instance survives a sync if and only if its entry is still there, on, and unchanged in cidr, tun, hostname and posture, and then runs under its new settings |
| LifecycleLaws.SecondSyncIsIdle | cmd/ts-multinet/control.go:239-241 | a second sync after an error-free one stops nothing, starts nothing and changes nothing |
| LifecycleAgreement.RestartAgrees | cmd/ts-multinet/control.go:1213-1230 | a restart in place keeps the agreement whether or not the start succeeds |
| LifecycleAgreement.RetryAgrees | cmd/ts-multinet/control.go:373-393 | a background retry reloads the entry, so it keeps the agreement even after a disable, reset or delete |
| LifecycleAgreement.HandleAgrees | cmd/ts-multinet/control.go:567-592 | every control request, refused, unwritten, half done or complete, keeps the agreement, whatever the file came to say after its writes |
| LifecycleLaws.StopPassTracks | cmd/ts-multinet/control.go:259-272 | the stop pass leaves exactly the kept nodes, in order, under their new settings, with a registry to match |
| LifecycleLaws.StartPassRuns | cmd/ts-multinet/control.go:274-292 | the start pass keeps every old node, starts only configured entries, and accounts for each enabled one as live or reported, never both |
| LifecycleRanges.StepIsGood | cmd/ts-multinet/control.go:243-324 | with disjoint ranges on file, every operation but a raced append also keeps the registry sound: its indexes mutual inverses, its ranges disjoint, its guard complete |
| LifecycleRanges.AppendIsGoodIff | cmd/ts-multinet/control.go:2279-2282 | the append of an add, made under a second lock hold, keeps file, running set and registry sound if and only if its name and range are still free then, or its exact name is taken, in which case nothing is written |
| LifecycleRanges.StepsAreGood | cmd/ts-multinet/control.go:373-431 | the same over any run, each append free when it is made |
| LifecycleRanges.EveryReachableDaemonIsGood | cmd/ts-multinet/control.go:146-148 | and so in every state such a run reaches from a fresh daemon over a sound file |
| LifecycleRanges.SoundMeans | cmd/ts-multinet/control.go:243-299 | what that adds: guard ranges are exactly those of the live tailnets, in order, and every address is stored for one name, in the range of a live tailnet |
| LifecycleAddresses.InstanceKeepsAddresses | cmd/ts-multinet/control.go:415-431 | over any run in which one instance keeps running, whatever happens to the other tailnets, its names keep their addresses and the addresses look up to the names |
| LifecycleAddresses.SyncHolds | cmd/ts-multinet/control.go:243-299 | a sync takes no address from a tailnet it keeps running, although it stops, starts and re-registers others |
| LifecycleAddresses.StepContinues | cmd/ts-multinet/control.go:310-325 | an instance, once gone, never comes back: whoever runs under an old id after a step ran before it |
| Lifecycle.Supervisor.SyncTailnets | cmd/ts-multinet/control.go:243-299 | the two loops over the snapshot and the file compute the specified sync, for any file, and leave the state matching it |
| Lifecycle.Supervisor.StopTailnet | cmd/ts-multinet/control.go:415-431 | removes exactly that node from the list and its tailnet from the registry |
| Lifecycle.Supervisor.StartOne | cmd/ts-multinet/control.go:310-325 | adds the registry entry first, takes it back when the start fails, appends the node when it succeeds |
| Lifecycle.Supervisor.RetryTailnet | cmd/ts-multinet/control.go:373-393 | starts the entry only if the file has it, on, and it is not running |
| Lifecycle.Supervisor.RestartTailnet | cmd/ts-multinet/control.go:1213-1230 | stops and starts one tailnet under the settings in force |
| RemovalQuiet.StaysDownIff | cmd/ts-multinet/control_identity.go:99-125 | from the first write of a delete or reset on, through failures, crashes, reboots, restarts and retries, nothing of that name starts until an explicit enable or a fresh add, if and only if no other entry of the name, ignoring case, is on |
| RemovalQuiet.BeginClearsKeyIff | cmd/ts-multinet/control_remove.go:114-127 | that write clears the enrollment key in the file if and only if the diffs of that exact name leave none; always, when the entry has its name alone |
| RemovalQuiet.KeylessUntilRekeyed | cmd/ts-multinet/control_identity.go:99-108 | once every entry of a name is keyless it stays so until somebody brings a key, whatever names repeat |
| RemovalQuiet.NamesakeRunsAgain | cmd/ts-multinet/control_identity.go:99-119 | two entries of one name on one directory: after a reset whose purge fails the next start runs the second on the old identity |
| RemovalQuiet.KeyOutlivesReset | cmd/ts-multinet/configpatch.go:121-127 | with a keyless namesake the file keeps the key a reset says it cleared |
| RemovalLaws.EntryLeavesPurged | cmd/ts-multinet/control_remove.go:133-147 | in any file, a name leaves only when nothing of it runs and the state directory of its first entry is gone |
| RemovalLaws.IdentityLostOnlyWhenStopped | cmd/ts-multinet/control_identity.go:112-118 | a saved identity is lost only to the purge of a delete or reset, from that directory or, by a delete, below it, with nobody running there and no entry of another name using it |
| RemovalLaws.PinsGoOnlyWithADelete | cmd/ts-multinet/control_identity.go:12-14 | selection pins, which any running node may write at any time, go only while a delete purges, even one that breaks off; a reset never takes them, whether it goes through, fails or crashes |
| RemovalLaws.BrokenDeleteLosesEither | cmd/ts-multinet/control_remove.go:128-133 | a delete whose purge breaks off may have lost the identity and kept the pins, or the other way round |
| RemovalLaws.PurgeKillsKey | cmd/ts-multinet/control_remove.go:128-133 | a purge, even one that breaks off after reaching the identity, leaves no node and no directory with it |
| RemovalLaws.PurgedKeyStaysGone | cmd/ts-multinet/control_remove.go:82-84 | a purged identity never runs again, whatever follows, re-adding and enabling included |
| RemovalRetry.StaysAcceptedIff | cmd/ts-multinet/control_remove.go:82-84 | the checks of a delete or reset keep passing through failures, crashes, reboots, starts and further attempts if and only if they pass now, every namesake that is on shares the directory and, should the directory be missing and others live in it, no entry that is on would make it |
| RemovalRetry.BegunIsRetryableIff | cmd/ts-multinet/control_remove.go:107-121 | exactly when a delete or reset that got under way may be tried again, on an existing directory or a missing one |
| RemovalRetry.RetryFinishes | cmd/ts-multinet/control_remove.go:85-149 | with nothing failing, a delete whose first write goes through removes the entries of that exact name, the nodes of the name and the directory with all below; every other entry stays, but for the key of a repeated one, and no directory of another name is lost |
| RemovalRetry.LeavesPurgedIff | cmd/ts-multinet/control_remove.go:133-147 | of the entries that leave with a delete, those leave purged whose directory is at or below that of the first |
| RemovalRetry.ForgetIsTheWrite | cmd/ts-multinet/control_remove.go:133-141 | the second write of a delete, made from the record in hand over the file as the first write left it, always goes through and takes out that exact name only |
| RemovalRetry.DeleteRefusedIff | cmd/ts-multinet/control_remove.go:103-107 | a delete of an unlocked tailnet in place is refused before anything changes if and only if its directory exists with a protected path, or the directory of an entry or node of another name, at it or below, or the patcher refuses the write |
| RemovalLaws.GuardIsTheWalk | cmd/ts-multinet/control_remove.go:33-71 | in any tree of links and directories, that guard says no exactly when the climb from some protected spelling meets the target |
| Removal.AfterKeeps | cmd/ts-multinet/control_remove.go:85-149 | over any run of steps and with any file, every node runs the identity of its directory, no identity is saved twice, no name runs twice, and a protocol under way has its entry off and unlocked and its directory fit to be purged |
| Removal.EveryReachableHost | cmd/ts-multinet/control_remove.go:85-149 | and so in every state reachable from a fresh process, whatever the file says |
| RemovalHost.Host.RemoveTailnet | cmd/ts-multinet/control_remove.go:85-149 | the handler, guarded by the judgement over all protected paths and broken off at any of its writes, leaves the state the protocol says, and reports success only with the entry gone |
| RemovalHost.Host.ResetIdentity | cmd/ts-multinet/control_identity.go:15-125 | likewise for the reset, which succeeds only with nothing of that name running |
| PurgeTarget.WalkMeets | cmd/ts-multinet/control_remove.go:46-71 | the climb from a protected path, links resolved on the way, meets the target exactly when the target is that path, or its nearest existing ancestor, or above it |
| PurgeTarget.WalkDecidesHome | cmd/ts-multinet/control_remove.go:46-71 | meeting the target tells where the path itself lies or would lie once made, although only its nearest existing ancestor is compared |
| PurgeTarget.Judge | cmd/ts-multinet/control_remove.go:15-77 | refused when a node of the tailnet runs elsewhere, when the target is a link or no directory, and when a protected path lies at it or below; a missing target is no obstacle and leaves nothing to purge; all others may be purged |
| PurgeTarget.PurgeSparesIff | cmd/ts-multinet/control_remove.go:12-14 | a purge spares a protected location and everything on the way to it if and only if the walk passes |
| PurgeTarget.TargetInsidePasses | cmd/ts-multinet/control_remove.go:40-45 | but a target inside a protected directory passes, and what lies in that directory survives exactly when the target is not inside: true of the shared base by design, and of another state_dir as well |
| RegistrySpec.RunKeepsValid | cmd/ts-multinet/dns.go:63-119 | over any run with disjoint ranges, names and addresses stay mutual inverses and every address lies strictly between network and broadcast address, below the next offset, of a live entry |
| Steering.EveryReachableRegistry | cmd/ts-multinet/dns.go:43-57 | everything reachable from an empty registry has mutually inverse indexes, an owner for every address, and names under the suffix of their owner once that is known |
| RegistrySpec.OwnerIsUnique | cmd/ts-multinet/dns.go:311-315 | exactly one live entry owns a stored address |
| RegistrySpec.TakeStaysInRange | cmd/ts-multinet/dns.go:336-345 | the allocator, in 32-bit arithmetic, hands out base + next until only the broadcast address is left |
| RegistrySpec.RemoveKeepsValid | cmd/ts-multinet/dns.go:94-119 | removal drops one entry, its guard range and exactly its addresses |
| RegistrySpec.FreshNameIsMintedIff | cmd/ts-multinet/dns.go:256-279 | a new name gets an address exactly when its tailnet string equals an entry name letter for letter and the range has one left; never under a name with upper-case letters |
| RegistrySpec.SharedRangeLosesNames | cmd/ts-multinet/dns.go:111-118 | with a shared range, removing one tailnet forgets another one's names and guard |
| RegistrySpec.RemoveForgetsIff | cmd/ts-multinet/dns.go:94-119 | in any registry a removal forgets a name if and only if its address lies in the range of the removed tailnet, whoever owns it |
| RegistrySpec.RemoveDropsGuardIff | cmd/ts-multinet/dns.go:94-119 | and drops a guard range if and only if it is that range |
| Registry.Registry.Add | cmd/ts-multinet/dns.go:63-89 | computes the specified add; a parse failure or a name already there changes nothing |
| Registry.Registry.Remove | cmd/ts-multinet/dns.go:94-119 | scrubs by visiting the address table in any order, with the specified result |
| Registry.Registry.MatchQuery | cmd/ts-multinet/dns.go:170-210 | the scan with its running best length computes the longest-spelling match |
| Registry.Registry.Allocate | cmd/ts-multinet/dns.go:256-279 | computes the specified allocation |
| Registry.Registry.RegisterDomain | cmd/ts-multinet/dns.go:140-153 | changes the domain of exactly one entry |
| Registry.Registry.RegisterSuffix | cmd/ts-multinet/dns.go:123-137 | changes the suffix of exactly one entry |
| Registry.Registry.IsSynthetic | cmd/ts-multinet/dns.go:291-301 | under the invariant, true exactly inside the range of a live tailnet, and for every stored address |
| Registry.Registry.Locate | cmd/ts-multinet/dns.go:229-252 | a bare name resolves under the first suffix where it exists, in entry order |
| Registry.Registry.ServeDNS | cmd/ts-multinet/dns.go:355-395 | the decision for one question, in every state: NXDOMAIN only for a miss under a real suffix, forwarding for alias misses and unclaimed names; in a sound registry an answered address looks up to the canonical name, and with suffixes that do not nest it is one of the matched tailnet |
| Registry.SpellingsShareAddress | cmd/ts-multinet/dns.go:254-256 | two questions for one host, each by real suffix, tailnet name or domain in any letter case, resolve to one canonical name and get one address, whatever happens in between, while the tailnet and its suffix stay |
| Steering.RunKeepsAddress | cmd/ts-multinet/dns.go:256-309 | until its tailnet is removed, a name keeps its address over any run: lookup returns it and allocate gives the same address |
| Steering.RemoveOwnerForgets | cmd/ts-multinet/dns.go:111-118 | removing the owner forgets the name and the address |
| Steering.SteeredToMatchedTailnet | cmd/ts-multinet/dns.go:355-395 | with suffixes that do not nest, the address answered for a name lies in the range of the tailnet the name matched |
| Steering.SteeredIff | cmd/ts-multinet/dns.go:256-279 | in any sound registry, an address granted for a name is one of the named tailnet if and only if the name had none or had one of that tailnet |
| Steering.SteadyRunKeepsHomed | cmd/ts-multinet/dns.go:170-210 | over runs that keep suffixes apart, every stored address lies in the range of the tailnet whose suffix its name has, names given out before the suffix was known included when it fits them |
| Steering.NestedSuffixSteersAstray | cmd/ts-multinet/dns.go:256-262 | with nested suffixes an address of one tailnet is handed out for a name of the other |
| NestedSuffixes.ReachesAstray | cmd/ts-multinet/dns.go:256-262 | and five ordinary steps from an empty registry lead there |
| Matching.BestIsLongest | cmd/ts-multinet/dns.go:165-170 | the scan returns the first of the longest spellings the name lies under |
| Matching.SpellingIsCanonical | cmd/ts-multinet/dns.go:156-170 | a host asked for under any spelling of a tailnet that no longer spelling overrides is that host of that tailnet, under its real suffix |
| Matching.MatchIgnoresOrder | cmd/ts-multinet/dns.go:170-210 | with no spelling shared between entries, the order of the entries does not matter |
| Matching.CanonicalNameIsStable | cmd/ts-multinet/dns.go:170-210 | matching a canonical name again gives the same tailnet and name, authoritatively, if and only if no longer known spelling ends it |
| Matching.MatchIsCanonicalisation | cmd/ts-multinet/dns.go:159-170 | so matching is a canonicalisation when no key properly extends a real suffix |
| Matching.ExtendedSuffixBreaksCanonicalisation | cmd/ts-multinet/dns.go:170-210 | and it is not when one does |
| Ranges.CheckAcceptsExactlyFreeBlocks | cmd/ts-multinet/control.go:2320-2340 | a range is accepted if and only if it lies inside 198.18.0.0/15 and shares no address with another parseable range, though only base addresses are compared |
| Ranges.SyntheticHoldsWholeBlocks | cmd/ts-multinet/control.go:2322-2329 | one test of the base address decides that the whole block lies in the synthetic space |
| Ranges.NextFreeCIDR | cmd/ts-multinet/control.go:2358-2372 | returns the first free /24 in scan order, and always one when fewer than 511 ranges, none wider than /24, are configured |
| Ranges.FewRangesLeaveASlot | cmd/ts-multinet/control.go:2360-2372 | the counting behind it: that many narrow ranges cannot cover every slot |
| Cidr.BaseTestsDecideOverlap | cmd/ts-multinet/control.go:2334-2336 | two aligned blocks overlap if and only if one contains the base of the other |
| Cidr.ParseOfFormat | cmd/ts-multinet/control.go:2362-2364 | printing a network and parsing it back gives the network |
| Cidr.ParsedIsWf | cmd/ts-multinet/dns.go:319-333 | a parsed range is aligned and inside the 32-bit space |
| Provision.ServeKeepsConfigOk | cmd/ts-multinet/control.go:2124-2138 | every request, range edits, adds and removals included, keeps names unique ignoring case and ranges disjoint |
| Provision.AppendKeepsConfigOkIff | cmd/ts-multinet/control.go:2279-2282 | appending an entry is sound if and only if its name is new and its range free at that moment |
| Provision.RacingAdds | cmd/ts-multinet/control.go:2239-2284 | of two adds checked under one lock hold and appended under others the second is refused exactly when it has the first one's exact name, and otherwise leaves a sound config if and only if they differ in name and range; two of different names that pick their own range never do |
| PatchRefinement.PatchRefinesWrite | cmd/ts-multinet/configpatch.go:25-183 | for any file, whatever names repeat: the patch is written if and only if tailnets is not null and the write specified record by record goes through, and the file then reads as that write says, auth_key included |
| ConfigPatch.PatchRefinesUpdate | cmd/ts-multinet/configpatch.go:25-183 | with unique names, the patch is written if and only if tailnets is not null and no entry with a state_dir is inserted or rewritten whole, and then the file reads as exactly the intended record, auth_key included |
| WriteLaws.WriteIsExactIff | cmd/ts-multinet/configpatch.go:44-168 | a written file holds exactly the intended record if and only if, name by name, every auth key reaches its entry |
| WriteLaws.LoneEntryIsExact | cmd/ts-multinet/configpatch.go:121-127 | an entry whose exact name the file has once is always written key and all |
| WriteLaws.TwinHasRecordIff | cmd/ts-multinet/configpatch.go:44-168 | with two entries of a name, exactly when the edited record is on file afterwards |
| WriteLaws.NamesakesStand | cmd/ts-multinet/configpatch.go:59-62 | a written change keeps the number of entries of every name it keeps, so a second entry of a name is never added |
| WriteLaws.WrittenIff | cmd/ts-multinet/configpatch.go:170-183 | when a write goes through, in terms of the diffs of each name |
| Writes.EditIsWritten | cmd/ts-multinet/configpatch.go:63-74 | with unique names an edit in place is refused exactly when it would write out a state_dir, and is exact otherwise |
| Writes.TwinRevokeIff | cmd/ts-multinet/configpatch.go:44-168 | of two entries of a name, exactly when the first can be switched off in the file at all |
| Writes.AppendIsWritten | cmd/ts-multinet/configpatch.go:59-62 | an append is written exactly when its exact name is new and it has no state_dir |
| Writes.WrittenHolds | cmd/ts-multinet/configpatch.go:242-263 | a lock holds in the written file exactly when it holds in the record |
| ConfigPatch.PatchedDocReads | cmd/ts-multinet/configpatch.go:36-168 | before the final check, the edited tree reads as the record, save the state_dir of entries written out whole |
| ConfigPatch.OnlyTheChangeIsWritten | cmd/ts-multinet/configpatch.go:170-183 | for any file and any change, nothing is written that does not read back as the change, keys aside |
| ConfigPatch.UntouchedGlobalsSurvive | cmd/ts-multinet/configpatch.go:189-238 | root members outside the diff keep value, comments and order |
| ConfigPatch.UntouchedEntriesSurvive | cmd/ts-multinet/configpatch.go:79-164 | kept entries keep the comments around them and, when edited in place, every member outside their diff |
| ConfigAst.EditAllLaw | cmd/ts-multinet/configpatch.go:409-430 | a list of edits sets exactly the changed keys and leaves every other key as it was |
| ConfigAst.UntouchedEditAll | cmd/ts-multinet/configpatch.go:407-409 | members the diff does not touch keep value, comments and relative order |
| ConfigAst.EditedElementParses | cmd/ts-multinet/configpatch.go:79-164 | an entry edited by the diff of two records reads as the second record |
| ConfigAst.NewElementParses | cmd/ts-multinet/configpatch.go:339-403 | a freshly written entry reads as its record without the state_dir |
| ConfigFile.ConfigFile.PatchConfigFile | cmd/ts-multinet/configpatch.go:25-183 | the tree is edited node by node, and the file changes only as a whole, to the specified text |
| ConfigFile.Tree.PatchTailnets | cmd/ts-multinet/configpatch.go:55-168 | removals first, then each entry of the new record in order, with the specified result |
| ConfigFile.Tree.PatchEntry | cmd/ts-multinet/configpatch.go:60-167 | one entry inserted, rewritten or edited in place |
| ConfigFile.Tree.RemoveTailnetElement | cmd/ts-multinet/configpatch.go:317-333 | deletes the first element of that name |
| ConfigFile.Tree.InsertTailnetElement | cmd/ts-multinet/configpatch.go:335-403 | appends one element in canonical member order |
| ConfigFile.Object.SetMember | cmd/ts-multinet/configpatch.go:407-419 | replaces a value in place or appends a bare member |
| ConfigFile.Object.SetGlobal | cmd/ts-multinet/configpatch.go:215-238 | replaces a value in place or inserts above the tailnets array |
| ConfigFile.Object.RemoveMember | cmd/ts-multinet/configpatch.go:422-430 | deletes the first member of that name |
| SelectionLaws.WantIsWanted | cmd/ts-multinet/selection.go:127-172 | the resolver wants exactly the selected, locked and rule-matched names: every lock and every rule match is wanted |
| SelectionLaws.EveryNameIsAccounted | cmd/ts-multinet/selection.go:174-217 | resolved plus problems accounts for every wanted name once |
| SelectionLaws.ResolvedPeersArePinned | cmd/ts-multinet/selection.go:183-215 | every resolved peer equals its pin, is live under its short name and is no Mullvad exit |
| SelectionLaws.PinsNeverMove | cmd/ts-multinet/selection.go:98-104 | over any run of resolutions with arbitrary statuses no pin is deleted and none changes its target |
| SelectionLaws.ResolvingAgainChangesNothing | cmd/ts-multinet/selection.go:98-105 | resolving again on the same inputs gives the same lists and writes no pin |
| SelectionLaws.SelectionIgnoresMapOrder | cmd/ts-multinet/selection.go:109-126 | with unique short names, any order of the peer and service maps gives the same wanted names, entries, problems and pins |
| SelectionLaws.ResolveAllChanged | cmd/ts-multinet/selection.go:199-214 | the change flag is raised if and only if some wanted name's pin is new or drifted |
| SelectionLaws.PeerRuleIff | cmd/ts-multinet/selection.go:320-335 | a rule is reported for a peer if and only if some rule matches it |
| SelectionLaws.SvcRuleIff | cmd/ts-multinet/selection.go:340-357 | a rule is reported for a service if and only if some rule matches it |
| Selector.PinStore.ResolveSelections | cmd/ts-multinet/selection.go:105-218 | the loops over peers, locks, rules and wanted names compute the specified resolution and pins |
| Selector.PinStore.Resolve | cmd/ts-multinet/selection.go:174-215 | one wanted name: outcome, pin added or refreshed, and whether one was written |
| Selector.ServiceHostTags | cmd/ts-multinet/selection.go:376-404 | through the index by address, every service gets exactly the tags of the peers routing one of its addresses alone |
| Selector.IndexPeers | cmd/ts-multinet/selection.go:109-125 | the first peer under each short name, in status order, Mullvad exits left out |
| Requests.LocksHoldOverRuns | cmd/ts-multinet/control.go:1640-1762 | over any run of requests locks stay selected, and a lock nobody releases keeps its tailnet configured, switched on and the name locked |
| Requests.EditKeepsLocks | cmd/ts-multinet/control.go:1724-1758 | no edit but an unlock takes a name out of the locks, none switches off an entry that has locks, all keep locks selected |
| Requests.SelectionEdits | cmd/ts-multinet/control.go:1640-1762 | what select, select-all, forget, lock and unlock do to the selected and locked names, and that they touch nothing else |
| Requests.SelectWants | cmd/ts-multinet/control.go:1640-1662 | a selected name is wanted, except under allow_all, where it must be a live peer, locked or rule-matched |
| Requests.HeldIff | cmd/ts-multinet/control_remove.go:98-101 | with duplicate names too: a lock that holds still holds after a request if and only if the request does not release it, by unlocking its only holder, or by a delete that finds an unlocked entry of that exact name first; no disable and no reset does |
| Requests.HeldThroughoutIff | cmd/ts-multinet/control.go:1640-1762 | over any run, a lock holds at every moment if and only if no request releases it in the state it meets |
| Requests.ServeKeepsHeld | cmd/ts-multinet/control_remove.go:98-101 | so with unique names only its own unlock ever releases a lock |
| Requests.DeleteTakesTheNamesake | cmd/ts-multinet/control_remove.go:138-138 | with two entries of one exact name a delete checks the locks of the first and drops both |
| Requests.ForgetUnselects | cmd/ts-multinet/control.go:1700-1718 | a successful forget leaves the name wanted if and only if allow_all still selects that live peer |
| Requests.ClearLeavesLocks | cmd/ts-multinet/control.go:1235-1250 | after a clear exactly the locked names are wanted |
| Requests.LocksAreWanted | cmd/ts-multinet/selection.go:133-140 | a locked name is wanted whatever is live |
| Requests.PeerBoxIsWanted | cmd/ts-multinet/control.go:839-859 | the peers checkbox is on if and only if the resolver wants the peer |
| Requests.ForeignBoxDisagrees | cmd/ts-multinet/control.go:855-859 | for a peer outside the tailnet's suffix, the exact cases in which the box and the resolver disagree |
| Requests.ServiceBoxIsWantedIff | cmd/ts-multinet/control.go:898-904 | the services checkbox agrees with the resolver except exactly for a service only listed, under allow_all |
| Requests.Draft.DoSelectAll | cmd/ts-multinet/control.go:1668-1695 | the loop adds each known name once, clears allow_all, and is refused on the first unknown name |
| Requests.Draft.DoForget | cmd/ts-multinet/control.go:1700-1718 | refused for a locked or rule-selected name, else removes it |
| Requests.Draft.DoLock | cmd/ts-multinet/control.go:1724-1758 | selects and locks a known name |
| Requests.Draft.DoAuto | cmd/ts-multinet/control.go:1782-1808 | adds or removes rules in canonical form, and is refused on the first malformed one |
| Requests.Draft.DoClear | cmd/ts-multinet/control.go:1235-1244 | whatever is live, exactly the names locked before are wanted afterwards, and locks, flag and name stay |
| Applying.ApplySelections | cmd/ts-multinet/control.go:438-509 | seeds, allocates, qualifies and writes, tailnet by tailnet, with the specified registry and hosts file |
| Applying.EntriesMatchRegistry | cmd/ts-multinet/control.go:470-500 | among the assembled entries one name has one address and one address one name, and each address looks up to the name beside it |
| Applying.HostsFileIsUnambiguousIff | cmd/ts-multinet/control.go:501-509 | so no name written on any line, as alias or as full name, has two addresses if and only if no written full name, by fallback or on a native line, is the kept alias of another address |
| Applying.AddressesIgnoreOrder | cmd/ts-multinet/control.go:470-481 | the addresses handed out do not depend on the order of the resolved names |
| Applying.ApplyIsIdempotentIff | cmd/ts-multinet/control.go:433-437 | applying the same selections again never changes the registry, and leaves list and hosts file as they are if and only if no name left out in its tailnet's turn got an address from another tailnet later |
| Applying.LateName | cmd/ts-multinet/control.go:470-486 | which can happen when one tailnet is spelled unlike its registry entry and another selects the same full name |
| SteadySelection.SelectionIsSteady | cmd/ts-multinet/selection.go:174-215 | every name a resolution yields lies under the suffix it was made for, so seeding and allocating it is a steady step of the registry |
| SteadySelection.ApplyKeepsHomed | cmd/ts-multinet/control.go:438-486 | a whole pass keeps every stored name under the suffix of the tailnet that owns its address |
| HostAliases.QualifyHostsAliases | cmd/ts-multinet/hosts.go:53-84 | the three passes over the array give every entry its specified alias |
| HostAliases.NamesAreUnambiguousIff | cmd/ts-multinet/hosts.go:49-53 | when full names determine addresses, equal written names, native lines included, mean equal addresses if and only if no written full name meets a kept alias |
| HostAliases.BareUnlessNeeded | cmd/ts-multinet/hosts.go:45-53 | an entry stays bare unless forced, claimed by two tailnets or colliding |
| HostAliases.ContestedNameIsNeverBare | cmd/ts-multinet/hosts.go:62-67 | a name two tailnets claim is never written bare |
| HostAliases.FallbackCanCollide | cmd/ts-multinet/hosts.go:79-83 | entries with distinct names and addresses that still share a written name |
| HostAliases.NativeNameCanCollide | cmd/ts-multinet/hosts.go:37-42 | and so can two entries that both keep their alias, when one of them is native |
| Hosts.WriteAbsorbsWrite | cmd/ts-multinet/hosts.go:90-122 | write(write(F, E1), E2) = write(F, E2) for every file content |
| Hosts.RemoveUndoesWrite | cmd/ts-multinet/hosts.go:175-202 | remove(write(F, E)) = remove(F) when F has a block, and the normalised F otherwise |
| Hosts.OutsideSurvives | cmd/ts-multinet/hosts.go:86-90 | lines outside the block survive in order up to trailing blanks, stray markers included |
| Hosts.WrittenSpan | cmd/ts-multinet/hosts.go:125-141 | the block just written is the block found next |
| Hosts.HostsFile.WriteBlock | cmd/ts-multinet/hosts.go:90-122 | the line loops compute the specified rewrite, and an unchanged file is not written |
| Hosts.HostsFile.RemoveBlock | cmd/ts-multinet/hosts.go:175-202 | the line loops compute the specified removal |
| DnsProxy.ReadsExactlyTheAddresses | cmd/ts-router/proxy.go:147-184 | from any one-question message whose owner names are plain labels or pure pointers, exactly the A data, in order |
| DnsProxy.AddressesAreSlices | cmd/ts-router/proxy.go:147-184 | from any bytes at all, four-byte slices of the message, no more than the header announces |
| DnsProxy.ParseAFromDNS | cmd/ts-router/proxy.go:147-184 | the nested loops stay in bounds on every byte string and compute that |
| DnsResolver.ParseUndoesEncode | cmd/examples/resolver/resolver.go:89-125 | parsing undoes encoding for all names with non-empty labels that fit a length byte |
| DnsResolver.ResponseCarriesTheAddress | cmd/examples/resolver/resolver.go:128-213 | the router's reader finds 192.0.2.1 in a built response if and only if the question asks for type A |
| DnsResolver.EncodeDomainName | cmd/examples/resolver/resolver.go:217-234 | the scan for dots computes the length-prefixed labels |
| DnsResolver.ParseDNSQuestion | cmd/examples/resolver/resolver.go:89-125 | the label loop computes name, type and length, or the empty answer on overrun |
| DnsResolver.BuildDNSResponse | cmd/examples/resolver/resolver.go:128-148 | built for a parsed query, the response echoes its number and question, announces one answer, and yields the router 192.0.2.1 exactly for type A |
| DnsResolver.BuildAnswer | cmd/examples/resolver/resolver.go:151-213 | pointer, type, class, lifetime and the data of each question type |
| Watchdog.Watch.CheckHealth | cmd/ts-multinet/control.go:1006-1039 | one pass restarts exactly the unhealthy tailnets and updates the memory as specified |
| Watchdog.MemoryIsFaithful | cmd/ts-multinet/control.go:54-61 | the memory of a name is exactly whether it was ever online and when it was last restarted |
| Watchdog.RestartsAreSpaced | cmd/ts-multinet/control.go:70-73 | restarts of one name are at least the cooldown apart, forced passes included |
| Watchdog.RestartsAreRare | cmd/ts-multinet/control.go:32-37 | in any span T at most 1 + T / cooldown restarts of one name |
| Watchdog.NeverOnlineNeedsDeadForwarder | cmd/ts-multinet/control.go:74-81 | a name never seen online restarts only on a dead forwarder |
| Watchdog.DarkNameIsRestarted | cmd/ts-multinet/control.go:63-81 | a once-online name dark past the grace period and the cooldown is restarted at the next probe |

## Left out

- CheckAcceptsExactlyFreeBlocks: range text is dotted IPv4 with a decimal prefix length; IPv6 and IPv4-mapped
  text count as unparseable here.
- PatchRefinesWrite: object keys match exactly and no object repeats a key; the decoder's case-insensitive
  key matching and the last-wins rule for repeated keys inside the reader are not part of the equivalence.
- PatchRefinesUpdate: names are unique here; repeated names are in `PatchRefinesWrite`.
- WriteAbsorbsWrite: asks of the entries that they start with a digit and hold no line break, as addresses and
  names do.
- SyncTailnets: a running tailnet is a value with an instance number, and a registry entry a value in a
  sequence, so aliasing between the daemon, its watchers and the registry is not modelled.
- StepAgrees: the config file is changed by the daemon alone; a manual edit is a new starting state.
- StepIsGood: asks that an append finds its name and range free, without which disjoint ranges are lost;
  `StepAgrees` does not ask it.
- SyncConverges: with one name twice in the file the stop pass goes by the last of them and the start pass tries each
  in turn; only the agreement (`SyncMatches`) is claimed then.
- HeldIff: speaks of the record a handler writes; a refused write leaves the file as it was, and a written one holds
  the same locks (`WrittenHolds`).
- InstanceKeepsAddresses: needs disjoint ranges, as a removal forgets by range.
- SteeredToMatchedTailnet: asks that the tailnet a name's address came from knows its suffix; `SteeredIff` is the
  exact statement without it.
- ResolveSelections: reading and writing the pin file is left out; the pins are the state of one object.
- WalkMeets: a path whose status cannot be read, which makes the code refuse, does not occur.
- RetryFinishes: other processes creating files in the directory during the purge are not modelled.
- StaysAcceptedIff: edits of the file between two attempts are excluded, since one may lock the tailnet or
  move another one into its directory.
- ResetIdentity: the refusal when the identity store exists but is not a regular file.
- ApplyIsIdempotentIff: names of tailnets, hosts and domains have no line break in them.
- Removal.AfterKeeps: the enrollment key an entry starts with plays no part in which identity a start takes up.
- Case folding is that of ASCII letters; slugs and names are sequences of characters, not of bytes.
- Comments and spacing of the config file are kept as opaque text; its lexing and printing are not modelled.
- Glob matching, port-range parsing and the validation of auto_select rules are parameters.
- Choosing and checking TUN device names, resolver configuration, device cleanup and routes.
- The pass of applySelections over tailnets that are not running or whose status fails, and its logging.
- Timers, retry schedules and goroutines below the config lock; a retry may come at any time.
- File modes, temporary files and partial writes: a write happens or it does not.
- HTTP plumbing, JSON shapes, error texts, login, status and config listings, the web UI and the command line.
- Packet forwarding, socket splicing, SNI peeking, probes of peers, and the other commands of the repository.
