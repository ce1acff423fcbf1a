# wicked: a verified model

wicked configures network interfaces. This project models the parts of it that carry the most
state, branching and arithmetic, and proves what they promise:

- **Link-local claims** (`autoip4/`, with the ARP probing of `src/arp.c`): the RFC 3927 machine that
  selects, probes, claims, defends and releases an IPv4 link-local address.
- **Lease updates** (`src/addrconf.c`): a table of actions that is worked off over many calls, with
  deferral, a deadline, a background timer and one outcome event.
- **SMBIOS and Redfish** (`client/redfish.c`): the entry point, the structure table, the string sets,
  the host interface records and the network devices they share.
- **Addresses** (`src/address.c`): equality, prefix match, netmasks, lifetimes and in-place
  deduplication.
- **Reload marking** (`client/ifreload.c`): which workers go down and which come up.
- **Policy ownership** (`nanny/`): reference counts and an intrusive list shared by a registry, D-Bus
  objects and devices.

Objects that the source updates in place are classes (`Device`, `LeaseUpdater`, `AddrconfLease`,
`Reader`, `Decoder`, `Node`, `Reload`, `PolicyList`, `Registry`). Where a component is a machine that
runs for a long time, its operations are also functions on values, the class methods are proved to
compute those functions, and the theorems speak about every sequence of inputs. `Device.Serve` and
`AddrconfLease.Serve` carry the theorems over to the objects: they handle any sequence of inputs, end
where the run of the functions ends, and keep the runs' invariant as the class invariant. What happens outside
(packets, timers, random draws, failing calls, action bodies, sysfs) is an input or a choice, so the
theorems hold whatever it does. `dafny verify dfyconfig.toml` checks everything.

How the run theorems are stated: a run leaves a log of what happened. `Observe` summarises a log up to
some entry and `Allowed` says, from that summary alone, whether an entry may follow. `Allowed` knows
nothing about the machine's own variables, so it is an independent statement of the protocol. Beside
what may happen, further theorems say what must: for every run that leads up to a packet, a timer, a
request or an execute call, what it adds to the log and where it leaves the object, from the log and the
input alone (AutoipAnswers.dfy, `UpdaterRuns.EveryExecuteAnswered`). In the same way the plans of a
reload, the checks of a policy and the decoded fields are stated again from the workers' fields, the
version numbers and the bytes on the wire.

## Where the code and its promises differ

- Timers run as soon as less than one millisecond is left. The rate limit of 60000 ms is therefore
  kept only up to 999 microseconds. `MinDelay` is the exact bound: `EveryEntryAllowed` proves it and
  `MinDelayIsReached` gives a run that probes at exactly that time, for every number of conflicts.
  When the clock advances by whole milliseconds the full interval holds (`RateLimitOnTheGrid`).
- A device that was asked for a lease can wait for nothing: no timer is armed after the ARP socket
  could not be opened, nor for a pause of 0 ms between probes. `StalledIff` states from the log exactly
  when that is so, `NeverStalls` gives a condition on the inputs that excludes it, and
  `StallsAreReached` a run for each cause.
- The conflict counter has 32 bits. After 2^32 conflicts without a claim it starts again at 0, and so
  does the rate limit. The model keeps the wrap-around.
- The defence interval of 10000 is compared with seconds, although the constants around it are
  milliseconds and section 2.5 of RFC 3927 asks for 10 seconds. The model follows the code.
- A candidate can be claimed with fewer probes than configured: a send error after the first probe
  ends the probing as complete. `EveryEntryAllowed` proves that the probes were all sent exactly when
  no probe failed, and `ClaimedWithOneProbe` gives a run that claims after one probe of many.
- An updater does not always work off the table it began with. A forwarded drop puts two more actions
  into the list of a live updater. The prefix theorem is therefore about the table as armed, which
  without those two actions is the table it began with (`CompletedInTableOrder`).
- An updater's deadline counts as come when the clock has not moved since the updater started, because
  the lifetime left is computed so (`DeadlineMeans`).
- Rebasing a lifetime and asking what is left of it disagree in some cases. `RebaseAgreesIff` is the
  exact condition; well-formed lifetimes and later times satisfy it (`RebaseInOrder`).
- At full length prefix match is equality, except that two addresses without a family are equal and
  match on no prefix (`FullPrefixIsEquality`).
- The length byte of the SMBIOS entry point is not protected by the checksum.
  `AlteredLengthAcceptedIff` is the exact condition. A length of 0 is accepted in every entry point
  that is accepted (`ZeroLengthAccepted`).
- While a reload marks the slaves of a worker, the worker's own target can change. The set of workers
  shut down is exact only with that taken into account (`GoesDown`).
- A device that goes away keeps its reference to the policy it selected. A policy's count is thus at
  least its registration plus the devices selecting it, and equal exactly when neither the trash can
  nor a lost device holds it (`Registry.LiveIffHeld`). `LosesReference` is a run that loses one, and
  `Registry.DeleteAndCollect` says what that means: a deleted policy is gone after the next collection
  exactly when no device selects it and none was lost with it.

## Model

| member | source | states |
|---|---|---|
| `AutoipTheorems.EveryEntryAllowed` | autoip4/fsm.c:59-328 | in every run of requests, releases, timers, packets and clock steps: each candidate is link-local; no candidate is probed before its shortest delay, before the pause after the last probe is over, after a match, after a failure, more often than configured or after more missing buffers than configured; pauses lie in the configured range; packets match only the candidate; each acquired lease is for the selected candidate, probed, unmatched, past the last pause, and fully probed exactly when no probe failed; defences of one claim are apart; no error branch is reached |
| `AutoipTheorems.ProbesOfNewCandidatesApart` | autoip4/fsm.c:103-127 | in every run, while more than ten conflicts are counted, probes of different candidates are 60000 ms apart on the timers' millisecond grid, however conflicts and new requests interleave |
| `AutoipTheorems.ProbesOfOneCandidateApart` | src/arp.c:430-518 | in every run, the next probe of a candidate and the claim come no sooner than the drawn pause, which is no shorter than configured, on the timers' millisecond grid |
| `AutoipTheorems.TimersDue` | autoip4/fsm.c:288-300 | in every reachable state a claim timer is due at the end of the last pause, or within a second of the selection, or 60 seconds after it beyond ten conflicts |
| `AutoipClock.RateLimitOnTheGrid` | autoip4/fsm.c:103-127 | the same without loss for all inputs that advance the clock by whole milliseconds |
| `AutoipClock.RunOnGrid` | autoip4/fsm.c:59-328 | on such inputs every log entry has a time of whole milliseconds |
| `AutoipProgress.StalledIff` | autoip4/fsm.c:259-300 | in every run, a device that was asked for a lease, has not claimed one and is not about to release one has no timer pending exactly when the last it did towards its candidate was to fail to open the socket or to pause for 0 ms |
| `AutoipProgress.NeverStalls` | autoip4/fsm.c:259-300 | for all inputs with a socket to open and a pause above 0, such a device always has its claim timer pending |
| `AutoipProgress.StallsAreReached` | autoip4/fsm.c:259-300 | each of the two causes stalls some run |
| `AutoipTheorems.MinDelayIsReached` | autoip4/fsm.c:103-109 | for every number of conflicts some run probes after exactly the shortest delay |
| `AutoipTheorems.ReachableStates` | autoip4/fsm.c:230-328 | in every reachable state: CLAIMED means a held lease for the link-local candidate under the request's identifier; a claim timer means not CLAIMED; a release timer means the socket is closed; no unexpected branch was taken |
| `AutoipTheorems.DefencesOfOneClaimApart` | autoip4/fsm.c:146-173 | in every run, two defences of one claim at different times are never closer than the coded interval |
| `AutoipTheorems.ConflictInsideInterval` | autoip4/fsm.c:121-173 | in every run, a conflicting packet inside the interval drops the lease, counts a conflict and returns to claiming a fresh draw with the timer armed |
| `AutoipAnswers.OtherPacketsIgnored` | src/arp.c:363-428 | in every run, a packet that is no reply, is about another address than the candidate, or is explained by the host itself while the candidate is not given up, changes nothing |
| `AutoipAnswers.RivalWhileClaiming` | autoip4/fsm.c:230-257 | in every run, a conflicting reply about the candidate while claiming is a match, a counted conflict and a fresh draw |
| `AutoipAnswers.RivalWhileClaimed` | autoip4/fsm.c:146-173 | in every run, such a reply while claimed is answered with one defence and the lease kept if the last defence of the claim is the interval ago, and else gives the address up for a fresh draw |
| `AutoipAnswers.EarlyTimersWait` | src/timer.c:122-161 | in every run, timers with a whole millisecond left run nothing |
| `AutoipAnswers.TimerActs` | autoip4/fsm.c:259-328 | in every run, what the claim timer adds to the log: a failed open, the claim after the last probe's pause, a probe or missing buffer with a pause of the configured range, or the end of the candidate, claimed exactly when it was probed |
| `AutoipAnswers.RequestSelects` | autoip4/device.c:215-231 | in every run, a request takes the stored address exactly if it is link-local and no candidate was selected before, else a fresh draw; no socket is open and the claim timer is armed |
| `AutoipAnswers.ReleaseReported` | autoip4/device.c:233-275 | in every run, releasing a held lease closes the socket, and the next timers report it under the release's identifier and leave the device quiet |
| `AutoipAnswers.StopsAtOnce` | autoip4/device.c:247-275 | in every run, removal and a release of what is not held leave the device quiet without a report |
| `AutoipAnswers.QuietUntilRequested` | autoip4/device.c:82-125 | nothing but a request changes a quiet device, over any inputs |
| `AutoipAnswers.LeftInMilliseconds` | src/arp.c:206-222 | what is left of a pause is the whole milliseconds until its end |
| `AutoipAnswers.DrawsFillTheRange` | src/timer.c:433-462 | a random value lies in its range, and every value of the range can be drawn |
| `AutoipTheorems.ClaimedWithOneProbe` | src/arp.c:430-518 | for every probe count above one, some run claims after a single probe |
| `AutoipTheorems.TimesIncrease` | autoip4/fsm.c:230-328 | log times never decrease |
| `AutoipTheorems.DefencesAreApart` | autoip4/fsm.c:146-173 | the interval carries over from neighbouring defences to any two of one claim |
| `AutoipRuns.RunKeepsInv` | autoip4/fsm.c:59-328 | every run from a new device keeps the invariant that ties candidate, verification state, timer, counters and lease to the log |
| `AutoipRuns.StepKeepsInv` | autoip4/fsm.c:230-328 | every input keeps it |
| `AutoipRuns.SelectKeepsInv` | autoip4/fsm.c:59-119 | selecting keeps it from any state but CLAIMED, and arms the claim timer no sooner than the shortest delay |
| `AutoipRuns.ConflictKeepsInv` | autoip4/fsm.c:121-127 | a conflict keeps it and leaves a claim timer |
| `AutoipRuns.ProcessArpKeepsInv` | autoip4/fsm.c:230-257 | an ARP packet keeps it in every state |
| `AutoipRuns.SendArpKeepsInv` | autoip4/fsm.c:259-286 | probing keeps it through progress, failure and success |
| `AutoipRuns.VerifySendKeepsProbing` | src/arp.c:430-518 | one call of the verifier keeps its counters equal to what the log shows, and reports completion only when the log allows a lease to be acquired |
| `AutoipRuns.TimeoutKeepsInv` | autoip4/fsm.c:305-328 | the timer callback keeps it |
| `AutoipRuns.AcquireKeepsInv` | autoip4/device.c:215-231 | a request keeps it, with any lease file |
| `AutoipRuns.ReleaseKeepsInv` | autoip4/device.c:247-275 | a release request keeps it |
| `AutoipRuns.RunTimerKeepsInv` | src/timer.c:122-161 | running a timer that has less than a millisecond left keeps it |
| `AutoipModel.FreshAddress` | autoip4/fsm.c:59-119 | a fresh draw lies between 169.254.1.0 and 169.254.254.255 |
| `AutoipDevice.Device.constructor` | autoip4/device.c:31-54 | a new device is the initial state of the runs |
| `AutoipDevice.Device.Select` | autoip4/fsm.c:59-119 | the whole new state: candidate, verification, state and delayed timer, with the failing address add |
| `AutoipDevice.Device.PickCandidate` | autoip4/fsm.c:72-91 | reclaims, reuses the lease's address or draws a fresh one, and changes nothing else |
| `AutoipDevice.Device.Conflict` | autoip4/fsm.c:121-127 | drops the lease, counts in 32 bits and selects again |
| `AutoipDevice.Device.Defend` | autoip4/fsm.c:146-173 | defends or gives up, by the seconds since the last defence |
| `AutoipDevice.Device.ProcessArp` | autoip4/fsm.c:230-257 | a matching packet is a conflict or a defence according to the state; any other changes nothing |
| `AutoipDevice.Device.VerifySend` | src/arp.c:430-518 | the probing loops compute the verifier's step for one address: wait, probe, give up or complete |
| `AutoipDevice.Device.SendArp` | autoip4/fsm.c:259-286 | opens the socket, probes and turns the outcome into a timer, a conflict or a claim |
| `AutoipDevice.Device.Timeout` | autoip4/fsm.c:305-328 | clears the timer and selects, probes or reports by state |
| `AutoipDevice.Device.SetTimeout` | autoip4/fsm.c:288-300 | arms a random time of the range and keeps a pending timer's callback |
| `AutoipDevice.Device.Acquire` | autoip4/device.c:215-231 | stops, takes the request and a stored lease, and selects |
| `AutoipDevice.Device.Release` | autoip4/device.c:247-275 | defers the release when a lease is held by an enabled request, else stops at once |
| `AutoipDevice.Device.StartRelease` | autoip4/device.c:233-245 | reports the release under the request's identifier and stops |
| `AutoipDevice.Device.DropLease` | autoip4/device.c:112-125 | returns to INIT only when there was a lease |
| `AutoipDevice.Device.Stop` | autoip4/device.c:95-100 | no lease, no socket, no timer |
| `AutoipDevice.Device.Close` | autoip4/device.c:82-93 | no socket and no timer, all else kept |
| `AutoipDevice.Device.SetLease` | autoip4/device.c:102-110 | replaces the lease and nothing else |
| `AutoipDevice.Device.RunTimer` | src/timer.c:122-161 | a timer with no whole millisecond left runs the callback it was armed with |
| `AutoipDevice.Device.Remove` | autoip4/device.c:127-150 | stops the device and forgets its request |
| `AutoipDevice.Device.Handle` | autoip4/fsm.c:230-328 | any input takes the object where the run step leads, and keeps the invariant of the runs as the class invariant |
| `AutoipDevice.Device.Serve` | autoip4/fsm.c:59-328 | any inputs take a new device where the run leads; every log entry is one the log before it allows, and the timer is missing exactly when the log stalled |
| `UpdaterRuns.EveryEntryAllowed` | src/addrconf.c:516-732 | in every run, drops armed and updaters cancelled at any time included: only the first uncompleted action is called, none after a failure; drops are armed only while the address removal is still to do; at most one event per updater, after it ended; acquired, deferred and released only after the whole table as armed, for the state the actions left and the event the updater began with; lost only after a failed or deferred action, for an event that does not fit the state left, or when it was expected |
| `UpdaterRuns.CompletedInTableOrder` | src/addrconf.c:325-465 | in every run, what an updater completed is a prefix of its table as armed, in order and once each, and the whole of it when its event is sent; without the drop actions that table is the one it began with |
| `UpdaterRuns.ForwardAfterRemoval` | src/dbus-objects/addrconf.c:829-862 | in every run, a drop is forwarded only after the address removal completed |
| `UpdaterRuns.ReleasedAfterCollect` | src/dbus-objects/addrconf.c:829-862 | in every run, an armed updater that sends a released event has forwarded the drop, collected it last and completed its own table |
| `UpdaterRuns.ArmingExtends` | src/dbus-objects/addrconf.c:846-858 | arming adds nothing but a forward behind the address removal and a collect at the end, at any point of the work |
| `UpdaterRuns.ArmKeepsInv` | src/dbus-objects/addrconf.c:829-862 | arming a live updater keeps the invariant |
| `UpdaterRuns.ExecuteEnds` | src/addrconf.c:565-705 | every execute call on a lease with an updater ends deferred (positive result, updater kept, timer armed, actions left) or closed (updater and old lease gone, final state, at most one event carrying that state) |
| `UpdaterRuns.ExecuteAnswers` | src/addrconf.c:565-705 | the whole answer of an execute call from the outcome of the last action it called: completed actions end in the state and event that fit, with result 0, or as lost; a deferred one keeps the updater with a timer due after its timeout, unless the deadline has come or no timer is to be had; a failed one ends as lost with its result; an IPv6 lease left requesting ends silently |
| `UpdaterRuns.EveryExecuteAnswered` | src/addrconf.c:565-705 | the same for every execute call of every run |
| `UpdaterRuns.CalledInOrder` | src/addrconf.c:325-354 | in every run, addresses are applied and verified before routes, removed before routes and MTU are, verified before the lease is written, and the system updated before the lease file goes |
| `UpdaterRuns.DeadlineMeans` | src/addrconf.c:588-590 | a deadline has come exactly that many seconds after the updater started, or when the clock has not moved since |
| `UpdaterRuns.BackgroundDue` | src/addrconf.c:734-760 | the timer is armed unless none can be registered, and due after the delay with its jitter |
| `UpdaterRuns.JitterFillsTheRange` | src/addrconf.c:734-760 | every jitter of the range can be drawn, downwards only for delays above a second |
| `UpdaterRuns.TimerCallSpends` | src/addrconf.c:707-732 | a timer call clears the timer, and executes exactly when the device is found |
| `UpdaterRuns.CancelIsSilent` | src/addrconf.c:796-804 | cancelling ends the updater without an event and leaves the lease's state |
| `UpdaterRuns.ActionCallDecided` | src/addrconf.c:516-563 | the log of a call records exactly what the actions returned and left |
| `UpdaterRuns.RunKeepsInv` | src/addrconf.c:451-760 | in every run, a running updater has exactly the actions after the completed ones of its table as armed still to do |
| `UpdaterRuns.StepKeepsInv` | src/addrconf.c:707-804 | so does every execute call, timer, trigger, armed drop, cancelled and new updater |
| `UpdaterRuns.ActionCallKeepsInv` | src/addrconf.c:516-563 | working off actions keeps it, whatever the actions return |
| `UpdaterRuns.NewUpdaterKeepsInv` | src/addrconf.c:467-484 | a new updater ends the one before it |
| `UpdaterRuns.CompleteFinishes` | src/addrconf.c:625-688 | completed actions close the update, with an event that fits or as lost |
| `UpdaterRuns.CompleteAnswers` | src/addrconf.c:625-688 | which of the two, with state, event and result, for every state left and every expected event |
| `UpdaterRuns.AbortFinishes` | src/addrconf.c:690-705 | a failure closes the update as lost, silently for a requesting IPv6 lease |
| `UpdaterModel.ActionCall` | src/addrconf.c:516-563 | the result is 0 exactly when the updater is gone |
| `Updater.LeaseUpdater.constructor` | src/addrconf.c:433-449 | the list built action by action is the table |
| `Updater.LeaseUpdater.ActionAdvance` | src/addrconf.c:451-465 | drops the first action, if any |
| `Updater.LeaseUpdater.Background` | src/addrconf.c:734-760 | arms or rearms the timer with jitter, or reports that it could not |
| `Updater.AddrconfLease.ActionCall` | src/addrconf.c:516-563 | the loop computes the recursive form, for any action results |
| `Updater.AddrconfLease.CallFirst` | src/addrconf.c:516-563 | one turn of the loop, with the start time kept over a retry |
| `Updater.AddrconfLease.Execute` | src/addrconf.c:565-705 | computes the function the theorems are about, result included |
| `Updater.AddrconfLease.Settle` | src/addrconf.c:625-688 | final state and event of a completed update, for every state and expected event |
| `Updater.AddrconfLease.Complete` | src/addrconf.c:625-688 | the end of a completed update |
| `Updater.AddrconfLease.Abort` | src/addrconf.c:690-705 | the end of a failed update |
| `Updater.AddrconfLease.Defer` | src/addrconf.c:584-607 | fails at the deadline, else arms the timer, else fails |
| `Updater.AddrconfLease.FreeUpdater` | src/addrconf.c:796-804 | the updater is gone, and its end recorded if there was one |
| `Updater.AddrconfLease.NewUpdater` | src/addrconf.c:467-514 | a new updater with the table for applying or removing a lease of this family and mode |
| `Updater.LeaseUpdater.ArmDrop` | src/dbus-objects/addrconf.c:829-862 | with an address removal still to do, the forward goes behind it and the collect to the end; else nothing changes |
| `Updater.FindAction` | src/addrconf.c:384-394 | the first action of a kind, or the end |
| `Updater.AddrconfLease.Arm` | src/dbus-objects/addrconf.c:829-862 | arms the lease's updater, if it has one, and records it |
| `Updater.AddrconfLease.Trigger` | src/addrconf.c:734-760 | backgrounds the lease's updater, if it has one |
| `Updater.AddrconfLease.TimerFires` | src/addrconf.c:707-732 | an armed timer is cleared, and executes the lease when its device is found |
| `Updater.AddrconfLease.Handle` | src/addrconf.c:565-760 | any input takes the object where the run step leads, and keeps the invariant of the runs as the class invariant |
| `Updater.AddrconfLease.Serve` | src/addrconf.c:451-760 | any inputs take a new lease where the run leads, and every log entry is one the log before it allows |
| `Updater.FindOwner` | src/addrconf.c:707-732 | the first lease that owns the updater, or none |
| `Updater.TimerCall` | src/addrconf.c:707-732 | a current timer executes the lease that owns the updater and touches no other; a stale one changes nothing |
| `Lifetime.LeftRunsDown` | src/address.c:1632-1661 | a lifetime that is not a reserved value is over exactly that many seconds after it was acquired, counts as over until then, and between two times runs down by the seconds between them, give or take one |
| `Lifetime.LeftStays` | src/address.c:1632-1661 | reserved lifetimes and those acquired at no known time do not run down; no current time stands for now |
| `Lifetime.RebaseInto` | src/address.c:1663-1697 | the in-place steps compute the rebased lifetimes |
| `Lifetime.RebaseAgreesIff` | src/address.c:1632-1697 | for all lifetimes and times, exactly when rebasing agrees with asking |
| `Lifetime.RebaseInOrder` | src/address.c:1663-1697 | preferred stays within valid, and rebasing to a later time agrees with asking on both |
| `Lifetime.ManyRebases` | src/address.c:1663-1697 | n rebases in any order never understate one rebase to the latest time and overstate it by at most n-1 seconds |
| `Lifetime.OverstatementIsReached` | src/address.c:1663-1697 | that bound is reached for every n up to a million |
| `Address.PrefixMatchIsAgreement` | src/address.c:970-1001 | prefix match holds exactly when the families have data, are the same and the first bits agree, for every prefix |
| `Address.PrefixMatchEquivalence` | src/address.c:970-1001 | for a fixed prefix it is reflexive on addresses with data, symmetric and transitive |
| `Address.PrefixMatchWeakens` | src/address.c:970-1001 | it weakens as the prefix shrinks |
| `Address.FullPrefixIsEquality` | src/address.c:950-1001 | at full length it is equality, except for the family without data |
| `Address.EqualEquivalence` | src/address.c:950-967 | equality is an equivalence on the supported families and holds only of the same address |
| `Address.TopEqualBits` | src/address.c:970-1001 | the shift-and-mask test of one octet compares exactly its first bits |
| `Netmask.PrefixMatchIsMasking` | src/address.c:970-1183 | prefix match is equality after masking with the netmask built for the capped prefix |
| `Netmask.BuildNetmask` | src/address.c:1163-1183 | the array holds the netmask; the result is an error exactly without data or for a prefix beyond the width |
| `Netmask.MaskBits` | src/address.c:1163-1183 | bit i of the netmask is set exactly when i is inside the prefix |
| `Netmask.NetmaskBits` | src/address.c:1136-1161 | the count is the length of the longest leading run of one bits |
| `Netmask.OctetRun` | src/address.c:1136-1161 | the shifting loop counts the leading ones of an octet |
| `Netmask.CountOfMask` | src/address.c:1136-1183 | counting a built netmask returns the prefix, capped at the width |
| `Netmask.RebuildIffContiguous` | src/address.c:1136-1183 | rebuilding a mask from its count returns it exactly when it is contiguous |
| `AddressList.Dedup` | src/address.c:441-462 | the linked list is relinked in place to the specified nodes |
| `AddressList.DropEqualAfter` | src/address.c:441-462 | the inner loop unlinks exactly the later nodes with the same address |
| `AddressList.UniqueIsFirsts` | src/address.c:441-462 | what is left is the first occurrence of each address, in the original order |
| `AddressList.UniqueAddressesDiffer` | src/address.c:441-462 | no two addresses left are equal |
| `Buffer.Reader.constructor` | src/buffer.h:99-109 | a reader starts with all bytes ahead |
| `Buffer.Reader.Peek` | src/buffer.h:247-253 | the bytes ahead, or nothing when there are too few |
| `Buffer.Reader.Pull` | src/buffer.h:255-268 | the same, advancing past them only on success |
| `Buffer.ValueOfBytes` | client/redfish.c:1634-1719 | reading little-endian bytes undoes writing them |
| `SmbiosStrings.Scan` | client/redfish.c:1807-1828 | the two-pointer loop finds the strings and size of the set, or fails, as specified |
| `SmbiosStrings.DecodeStrings` | client/redfish.c:1807-1828 | pulls exactly the set from the buffer |
| `SmbiosStrings.ScanStopsAtFirstPair` | client/redfish.c:1807-1828 | succeeds exactly when two NUL bytes meet, and ends right after the first such pair |
| `SmbiosStrings.ScanOfEncoded` | client/redfish.c:1807-1828 | inverts the encoder for all non-empty NUL-free strings, the empty list included, whatever follows |
| `SmbiosStrings.WordsAreEncodable` | client/redfish.c:1807-1828 | on any bytes, no string found is empty or holds a NUL byte |
| `SmbiosTables.DecodeTables` | client/redfish.c:1862-1920 | the cursor loop hands over exactly the specified entries, with the same verdict, on any bytes |
| `SmbiosTables.TakeEntry` | client/redfish.c:1862-1920 | one turn of that loop |
| `SmbiosTables.DecodeOfEncoded` | client/redfish.c:1862-1920 | any encoded structures are handed over in order, then whatever follows is decoded |
| `SmbiosTables.RoundTrip` | client/redfish.c:1862-1920 | exactly the encoded structures, with or without end marker and with any count that is 0 or large enough |
| `SmbiosTables.CountIsALimit` | client/redfish.c:1862-1920 | on any bytes, never more entries than a count that is not 0 |
| `SmbiosTables.HandedOverIsSound` | client/redfish.c:1862-1920 | on any bytes, every entry agrees with its own header and could have been encoded |
| `SmbiosTables.Verdict` | client/redfish.c:1862-1920 | on any bytes, the table is unsound exactly when a structure behind the entries handed over is too short, cut off or without the end of its strings |
| `SmbiosTables.TruncatedFails` | client/redfish.c:1862-1920 | a table cut off anywhere inside a structure hands over the ones before it and is unsound |
| `SmbiosEntryPoint.Checksum` | client/redfish.c:1512-1521 | the 8-bit sum is 0 |
| `SmbiosEntryPoint.DecodeEntryPoint` | client/redfish.c:1634-1719 | two cursors compute the specified decoding on any bytes, with 32-bit or 64-bit file offsets |
| `SmbiosEntryPoint.RoundTrip` | client/redfish.c:1634-1719 | decoding undoes encoding, and fails exactly when the table offset is beyond the system's file offsets |
| `SmbiosEntryPoint.AcceptedIff` | client/redfish.c:1634-1719 | exactly which bytes are accepted: signature, length, sum, major version, revision and offset width |
| `SmbiosEntryPoint.AlteredByteRejected` | client/redfish.c:1512-1719 | of any accepted entry point, no single altered byte in the checksummed length is accepted, other than the length byte |
| `SmbiosEntryPoint.AlteredLengthAcceptedIff` | client/redfish.c:1634-1719 | an altered length byte is accepted exactly when what it covers sums to 0, and then nothing else changes |
| `SmbiosEntryPoint.ZeroLengthAccepted` | client/redfish.c:1634-1719 | every accepted entry point is accepted with its length altered to 0, with the same result |
| `SmbiosEntryPoint.AlteredLengthAccepted` | client/redfish.c:1634-1719 | every entry point followed by 255 is accepted with its length altered to 25 |
| `Redfish.SwapUuidTwice` | client/redfish.c:1425-1448 | swapping the UUID's fields twice gives it back |
| `Redfish.DecodeRecord` | client/redfish.c:2708-2885 | the field-by-field decoder computes the specified record, or fails, on any bytes |
| `Redfish.DecodeEndpoint` | client/redfish.c:2708-2885 | one endpoint, with the prefix counted from its mask |
| `Redfish.RoundTrip` | client/redfish.c:2708-2885 | decoding undoes encoding of every record, netmasks included |
| `Redfish.UuidInNetworkOrder` | client/redfish.c:1425-1448 | the first three UUID fields are little-endian on the wire and in network order in the record, the rest is taken as it is |
| `Redfish.FieldsOnTheWire` | client/redfish.c:2708-2885 | where host, service, port, VLAN and host name of a decoded record are in the bytes |
| `Redfish.AcceptedIff` | client/redfish.c:2708-2885 | exactly which bytes are a record |
| `Mchi.DecodeProtocols` | client/redfish.c:2887-3011 | the loop finds exactly the Redfish records among the protocol records, or fails |
| `Mchi.DecodeSpec` | client/redfish.c:2643-2706 | the device description of a host interface structure, or none |
| `MchiEncoding.DescribeOfEncoded` | client/redfish.c:2477-2706 | decoding undoes encoding of every device description, UTF-16 serial numbers and string indexes included |
| `MchiEncoding.SpecOnTheWire` | client/redfish.c:2477-2706 | where vendor, product, device, serial and hardware address of a decoded description are in the bytes |
| `MchiEncoding.DescribedIff` | client/redfish.c:2643-2706 | exactly which descriptions are accepted |
| `MchiEncoding.AsciiIff` | client/redfish.c:2477-2542 | a serial number is taken exactly if all its characters are plain, character by character |
| `MchiEncoding.SpecOfIff` | client/redfish.c:2887-3011 | exactly which structures describe a network device |
| `MchiEncoding.ProtocolsOfEncoded` | client/redfish.c:2887-3011 | exactly the Redfish records come out in order, whatever other protocols are between them |
| `MchiEncoding.BodyOfEncoded` | client/redfish.c:2887-3011 | decoding undoes encoding of a whole host interface structure |
| `Mchi.Decoder.Lookup` | client/redfish.c:2355-2475 | a reference to the listed device with the description, or to a new one that sysfs knows; no other count changes |
| `Mchi.Decoder.Free` | client/redfish.c:2132-2143 | counts stay equal to the holding entries; the last reference frees |
| `Mchi.Decoder.DecodeMchi` | client/redfish.c:2887-3011 | succeeds exactly for a known device with Redfish records and appends one entry for it; a failure leaves entries, devices and counts unchanged |
| `Mchi.Decoder.Destroy` | client/redfish.c:1950-1960 | frees every device exactly once |
| `Ifreload.MarkAdd` | client/ifreload.c:50-58 | marks once, and says whether it was new |
| `Ifreload.Reload.MarkWorkers` | client/ifreload.c:297-331 | both sets are duplicate-free and exactly the declared closures of the changed workers; every worker shut down has the target of its plan, or DOWN along with its lower device, and all others keep theirs |
| `Ifreload.Reload.MarkWorkersDown` | client/ifreload.c:304-316 | the first loop |
| `Ifreload.Reload.MarkWorkersUp` | client/ifreload.c:318-330 | the second loop |
| `Ifreload.Reload.MarkDown` | client/ifreload.c:95-173 | adds exactly the workers that go down because this one changed |
| `Ifreload.Reload.MarkDownSlaves` | client/ifreload.c:137-155 | adds the changed slaves and what depends on them; the worker goes down afterwards exactly when planned or forced by its own lower device |
| `Ifreload.Reload.MarkDownLowerDeps` | client/ifreload.c:60-93 | adds exactly the non-persistent workers stacked on this one, all with target DOWN |
| `Ifreload.Reload.MarkUp` | client/ifreload.c:267-295 | adds exactly the configured worker, its configured slaves, the workers stacked on it and the masters of those |
| `Ifreload.Reload.MarkUpLowerDeps` | client/ifreload.c:227-265 | adds exactly the configured stacked workers and their configured masters |
| `Ifreload.Reload.MarkUpSlaveDeps` | client/ifreload.c:175-204 | adds exactly the configured slaves |
| `Ifreload.Reload.MarkUpMaster` | client/ifreload.c:206-225 | adds a configured master |
| `Ifreload.Reload.RemoveMissing` | client/ifreload.c:539-549 | removal in place with an unsigned index stepped back is an order-preserving filter on existing devices |
| `Ifreload.ArrayRemove` | src/fsm.c:904-938 | every occurrence goes, the order stays |
| `Ifreload.ExistingIsMarks` | client/ifreload.c:539-549 | the filter keeps exactly the marks with a device, once each |
| `Ifreload.PersistentStaysUp` | client/ifreload.c:100-104 | no persistent device is in the down closure |
| `Ifreload.PlanFromFields` | client/ifreload.c:106-135 | from the worker's fields: left alone exactly if persistent, or existing without configuration and not set up by wicked; READY exactly for a configuration that is no team and of the device's type; else DOWN |
| `Ifreload.UnhandledGoesDownWithLower` | client/ifreload.c:130-134 | a device wicked did not set up and has no configuration for is in the down closure only along with its lower device |
| `Ifreload.ChangedGoesDown` | client/ifreload.c:297-316 | a changed worker that is not persistent goes down if it has a configuration, was set up by wicked or has no device |
| `Ifreload.StackedGoDown` | client/ifreload.c:60-93 | what is stacked on a deleted worker goes down with it |
| `Ifreload.ChangedSlavesGoDown` | client/ifreload.c:137-155 | enslaved devices that changed as well go down with their master |
| `Ifreload.OnlyRelatedGoDown` | client/ifreload.c:60-173 | nothing else goes down |
| `Ifreload.ChangedComesUp` | client/ifreload.c:318-330 | a changed worker with a configuration comes up |
| `Ifreload.RelatedComeUp` | client/ifreload.c:175-295 | so do its configured slaves, what is stacked on it and the masters of that |
| `Ifreload.OnlyRelatedComeUp` | client/ifreload.c:175-295 | nothing else comes up |
| `Ifreload.NothingChanged` | client/ifreload.c:297-331 | a reload that finds nothing changed marks nothing |
| `Ifreload.OnlyConfiguredGoUp` | client/ifreload.c:267-295 | nothing without a configuration is in the up closure |
| `Nanny.PolicyList.Insert` | nanny/policy.c:126-134 | the list gains the policy in front, and all next and back pointers spell it out |
| `Nanny.PolicyList.Unlink` | nanny/policy.c:136-149 | the list loses the policy, in any position, and every other node's pointers stay consistent |
| `Nanny.PolicyList.Find` | nanny/nanny.c:255-266 | the policy of an FSM policy, or none exactly when there is none |
| `Nanny.Registry.Ref` | nanny/policy.c:170-178 | one more reference, in the caller's hands |
| `Nanny.Registry.Free` | nanny/policy.c:180-192 | gives back one reference; unlinks exactly at count zero, when nobody holds the policy |
| `Nanny.Registry.NewPolicy` | nanny/policy.c:154-168 | a new linked policy with one reference |
| `Nanny.Registry.CreatePolicy` | nanny/nanny.c:296-319 | a registered policy, or everything as before when registration fails |
| `Nanny.Registry.SetPolicy` | nanny/device.c:110-120 | the device selects the policy with its sequence number; only what it selected before can be freed, and never the policy it selects, even if that is the same one |
| `Nanny.Registry.ApplyPolicy` | nanny/device.c:222-416 | a device that is being bound, or was started with just this policy and sequence number, is left alone; any other has the policy and its number installed and is started, with the state of each way that can fail |
| `Nanny.Registry.GetPolicy` | nanny/nanny.c:202-204 | an FSM policy in use always has a live registered policy |
| `Nanny.Registry.DeletePolicy` | nanny/nanny.c:997-1027 | each failing step stops with exactly the steps before it done; on success the policy is in the trash can, still live |
| `Nanny.Registry.DeviceUpDone` | nanny/device.c:284-321 | success clears the fail counter; a failure counts, and leaves the device in limbo below its limit and failed from there on, unless it is dead |
| `Nanny.Registry.DeviceDownDone` | nanny/device.c:440-463 | the device gives up its policy; a failure counts and sets the state, unless it is dead |
| `Nanny.FailsAtLimit` | nanny/device.c:284-321 | failures in a row are counted, keep the device in limbo below its limit and end in FAILED from there on |
| `Nanny.SuccessStartsOver` | nanny/device.c:284-321 | a success clears the count, so that the limit's number of failures in a row is fatal again |
| `Nanny.DeadKeepsState` | nanny/device.c:284-321 | a dead device counts its failure and keeps its state; a shutdown that fails otherwise is fatal at once |
| `Nanny.Registry.RegisterDevice` | nanny/nanny.c:465-477 | a known device is left alone, a new one is added stopped and without a policy |
| `Nanny.Registry.UnregisterDevice` | nanny/nanny.c:523-543 | the device goes away and the reference it held is lost |
| `Nanny.Registry.GarbageCollect` | src/dbus-object.c:147-159 | empties the trash can; only policies in it are freed |
| `Nanny.Registry.UpdatePolicy` | nanny/policy.c:301-359 | the sequence number grows by one exactly for an accepted update |
| `Nanny.Registry.FindDevice` | nanny/device.c:524-535 | the first device with the index, or the end |
| `Nanny.Registry.LiveIffHeld` | nanny/policy.c:170-192 | in every valid state a policy is live exactly when somebody holds it; its count is at least its registration plus the devices selecting it, with equality exactly when no trash and no lost device holds it |
| `Nanny.Registry.DeleteAndCollect` | nanny/nanny.c:997-1027 | a deleted policy is gone after the next collection exactly when no device selects it and none was lost with it |
| `Nanny.LosesReference` | nanny/device.c:90-120 | a run that makes a policy, lets a device select it and vanish, and leaves the reference lost and the policy live |
| `Nanny.Registry.Handle` | nanny/nanny.c:164-543 | every event keeps all references accounted for and all list pointers consistent; creating, updating, appearing, coming up and vanishing have their outcome, and a recheck has the one for every device state, selected policy and sequence number |
| `Nanny.ChecksVersion` | nanny/device.c:222-280 | checking a device that was started with a policy changes nothing if it has the policy's number, and else starts it anew with that number |
| `Nanny.UpdateReaches` | nanny/policy.c:301-359 | an accepted update reaches such a device, whether it is starting, running or failed, with the next check |
| `Nanny.Registry.Serve` | nanny/nanny.c:164-543 | so does every run of events; a lost reference never comes back, and its policy stays |
| `Nanny.SelectingUpdate` | nanny/device.c:110-120 | changing one device's policy moves exactly one reference |
| `Nanny.SelectingRemove` | nanny/nanny.c:523-543 | removing a device removes exactly its reference |

## Left out

- D-Bus methods, properties and signals, and the daemons' main programs: plumbing around what is modelled.
- Command line, XML generation, conversion and migration in `client/`: no state or arithmetic worth a proof.
- sysfs and file access: whether sysfs knows a network device is an input of the decoder.
- The 32-bit SMBIOS entry point: would repeat the 64-bit one.
- Text forms of addresses and `ni_address_copy`.
- The bodies of the addrconf actions: each call may return anything and change lease state, timeout and deadline.
- Fallback leases and what follows a sent event inside the event handler.
- The updater's data pointer; a lease's updater is reached only through the lease. A supplicant's signal that its part of a drop is done appears as the collect action's result and an execute call.
- `ni_autoip_device_refresh` and `ni_autoip_device_start`, and the list of all autoip devices.
- The clock is read once per step; times of one step are the same.
- The array of addresses under ARP verification holds at most one address, as link-local claims use it; a match with one of the host's own addresses is part of the packet's description.
- Random numbers are choices; only the range matters.
- Reload marking is modelled with the depth it is called with. Marks are stated as duplicate-free sets; the order in which workers are marked is not stated, except that removal keeps it.
- Only the upper end of a worker's target range is modelled, the lower end is always the same.
- nanny secrets, rfkill switches, modems and factory devices, and rechecking a worker that has no managed device; the cloned XML configuration of a selected policy; the monitor that is enabled again after a shutdown; the state that taking a device down begins with, which appears as an input.
- The linkage of the nanny's device list: devices are a sequence with the newest first.
- The D-Bus trash can is a set: the order of collection is a choice.
- `ni_managed_policy_t` sequence numbers and reference counts are unbounded.
