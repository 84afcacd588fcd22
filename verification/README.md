# HSM secrets operator: a verified model

The operator keeps copies of each secret on several HSM devices and lets them
drift and heal: API writes stamp a version and fan out, readers settle
disagreement by majority or by last write, and a mirror plans and runs repair
sweeps. This project models that protocol and the stateful parts around it, and
proves what they keep over every input, every interleaving or every run.

`dafny verify dfyconfig.toml` checks everything.

| file | what it models |
|---|---|
| `GoStrings.dfy` | byte order of strings, sorting |
| `Resolve.dfy`, `ResolveLaws.dfy` | the conflict resolver and its laws |
| `Checksum.dfy` | the two checksum routines |
| `Replica.dfy` | device slots and sync labels |
| `Mirror.dfy` | inventory, plan and execution of a sweep |
| `MirrorConvergence.dfy`, `MirrorStability.dfy`, `MirrorJams.dfy` | what sweeps lead to |
| `MirrorClocks.dfy` | what the reading times decide |
| `MirrorFailures.dfy` | a sweep with failures as a sweep of what it sees |
| `ApiWrite.dfy`, `Durability.dfy`, `Runs.dfy` | version minting, lasting writes, whole runs |
| `Readers.dfy` | the API read and the controller's read |
| `Deletes.dfy` | how far a delete reaches |
| `LabelStore.dfy`, `LabelRuns.dfy`, `TokenClient.dfy`, `TokenRuns.dfy` | secrets as labelled PKCS #11 objects |
| `Discovery.dfy`, `DiscoveryCache.dfy`, `DiscoveryRuns.dfy` | device cache, index, plugin view, grace period |
| `Pki.dfy` | replicas sharing one CA, and leaf rotation |
| `ConnectionPool.dfy` | pooled agent connections |
| `AgentReconcile.dfy` | one agent deployment per serial |

## Reading the model

- A Go string is a Dafny `string` whose characters are bytes. SHA-256 in hex is
  a function parameter; nothing is assumed about it, so equal checksums never
  stand for equal data. JSON is a codec of which only "unmarshal undoes marshal"
  is used. Time is an integer: seconds for devices, nanoseconds in `Pki`.
- Versions are 64-bit and the increment wraps as in Go. Elsewhere integers are
  unbounded.
- Go's map iteration order is an arbitrary choice in the loops; the contracts
  hold for every choice.
- Devices that fail to answer, to be read, to give their metadata or to be
  written are sets of serials in an `Environment` or a `Request`. A sweep reads
  devices for its inventory and again when it executes its plan; the two times
  have sets of their own. Serials are distinct and not empty, as the resolver needs (it uses the empty
  string as its "none").
- Failing library calls, dials and pod readiness are nondeterministic or
  parameters. In `TokenClient` the ghost counter `faults` counts failed calls,
  so that a contract can speak of calls that were not disturbed.
- `Pki` gives `EnsurePKI` as the steps of a state machine, because its promise
  is about replicas interleaving; one API call is one step.

Properties that the code meets only under a condition are stated with that
condition, in both directions where possible, beside a lemma with a failing
input (after the semicolon):

- Two sweeps converge unless the winning copy's version label is present but not
  a number while copies diverge and none is missing (`TwoSweepsConverge`). Then
  no number of sweeps converges exactly when the winner has a majority or a copy
  above version 1 (`JammedForGoodIff`; `JammedExample`).
- The resolver's documentation asks for the number of expected devices
  (internal/reconcile/resolve.go:86-88); the mirror passes the number that
  responded (internal/mirror/manager.go:284), and takes a device whose read
  fails for one without the secret (internal/mirror/manager.go:180-184). So a
  sweep can overwrite a majority-accepted write. It leaves a content on its
  holders exactly when none of them can be written, nothing was read, that
  content was chosen, the chosen copy cannot be read again, or only labels are
  written (`SweepKeepsContentIff`, `SightedChoice`; `PartialSweepRevertsWrite`, `UnreadableSweepErasesWrite`).
- A metadata read that fails counts as no metadata, for the inventory and again
  at execution, where version 1 is stamped instead. So a sweep can make a version
  and data pair that did not exist, and can leave one version on two contents.
  `SweepMintsIff` and `SweepCouplesIff` say exactly when (`MetadataFailureClash`,
  `RereadFailureClash`).
- Equal versions mean equal data only if each write could see the newest version
  and no sweep splits one (`EveryRunCoupled`, `WritesKeepCouplingIff`;
  `SplitWritesClash`).
- The verdict is free of the reading times exactly when some content has a
  majority of three or more devices, or the copies at the highest version that
  could be newest agree (`ClockFreeIff`; `UnlabelledVerdictFlips`).
- The API counts the clients it opened (internal/api/proxy_client.go:466), the
  controller every available device
  (internal/controller/hsmsecret_controller.go:191). With the same answers they
  return different data exactly when a content that is not the newest has a
  majority of the first but not of the second (`ReadBoth`, `ReadersAgreeIff`;
  `ReadersDiffer`).
- A delete leaves tombstones "to prevent resurrection"
  (internal/api/proxy_client.go:949), with version 0. A reader finds nothing
  exactly when it hears no copy that the delete missed, or tombstones from most
  of the devices it counts (`DeleteHoldsIff`; `DeleteUndone`). The mirror clears
  the mark wherever it writes (`SweepForgetsDeletion`; `MirrorRevivesDeleted`).
- `ListSecrets` answers as a map would exactly when no stored key has a slash and
  the key "data" is not used below a path with one (`ListExactIff`;
  `DataBelowSlash`). Reads and metadata reads need neither.
- A write at one path leaves another path alone exactly when neither is a string
  prefix of the other (`IsolatedIff`).
- The token client and the mock read the same data exactly unless the secret is
  stored without any key, and the same metadata exactly unless the last write
  brought none and an earlier one did (`MockAgreesIff`;
  `LastKeyDeleted`, `MetadataKeptByMock`).
- Merging the same scan twice reports no change exactly when devices new to the
  cache that share a key share a path (`RepeatedScanIff`; `RepeatedScanChanges`).
- An event for an HSMDevice whose type the agent has not recorded leaves the
  plugin in step exactly when the records before and after look the same on this
  node (`AddUnseenIff`, `RemoveUnseenIff`; `UnrecordedTypeGoesStale`).
- A plug or unplug event leaves another device's entry alone exactly when the
  search by serial and path does not end at it (`SparesIff`; `PathTakenOver`,
  `UnplugRestartsGrace`).
- No serial is cached twice exactly when no event brings one in twice, which for
  a merge is about the scanned devices new to the cache (`SerialsStayUnique`,
  `AdoptedUniqueIff`; `SerialCachedTwice`).
- One agent per serial supposes that the pool's serials have different agent
  names, which lower-casing and truncation can prevent (`SharedNameUnserved`).
- A serial with an available entry gets an up-to-date agent exactly when its last
  lost entry, if any, is within the grace period or the agent was up to date already
  (`ServedIff`; `MovedTooLate`).

## Model

| member | source | states |
|---|---|---|
| GoStrings.LessByFirstDifference | internal/reconcile/resolve.go:187-198 | of two strings the one with the lower byte where they first differ, or a proper prefix, comes first |
| Resolve.FilterVoters | internal/reconcile/resolve.go:90-96 | exactly the observations with an opinion vote, and they cast the same votes as the whole list |
| Resolve.CountVotes | internal/reconcile/resolve.go:102-106 | each checksum's count is the number of devices holding it |
| Resolve.StrictMajority | internal/reconcile/resolve.go:154-169 | a checksum is returned iff some count exceeds half, and it is the lowest such |
| Resolve.LastWriteWins | internal/reconcile/resolve.go:173-183 | the result beats every other voter by version, then time, then lower serial |
| Resolve.LowestDeviceWithChecksum | internal/reconcile/resolve.go:187-198 | the lowest serial among the holders, or none |
| Resolve.CollectOutliers | internal/reconcile/resolve.go:131-138 | the voters not holding the winner, in ascending order |
| Resolve.ChooseChecksum | internal/reconcile/resolve.go:108-125 | majority from three devices on, otherwise the newest write |
| Resolve.Resolve | internal/reconcile/resolve.go:89-149 | the decision is the verdict on the set of votes; it is found iff some device holds a copy or a tombstone, and it is a deletion iff the winning device holds a tombstone |
| Resolve.VotesOfMember | internal/reconcile/resolve.go:59-70 | a device votes iff it holds a copy or a tombstone: for the deletion if a tombstone, otherwise for its content, at its version and time |
| Resolve.DecisionIsHeld | internal/reconcile/resolve.go:127-149 | the decision is what the winning device's observation says |
| ResolveLaws.SameVotersSameVerdict | internal/reconcile/resolve.go:20-29 | the verdict ignores the order of observations and all abstainers |
| ResolveLaws.VerdictPartition | internal/reconcile/resolve.go:127-149 | winner holders and outliers partition the voters, the winner is the lowest holder, outliers are sorted without repeats, and diverged iff there are any |
| ResolveLaws.StrategyTells | internal/reconcile/resolve.go:108-125 | the reported strategy says exactly whether there were voters, fewer than three devices, a majority for the winner, or neither |
| ResolveLaws.MajoritiesMeet | internal/reconcile/resolve.go:151-169 | two checksums cannot both hold a strict majority |
| ResolveLaws.MajorityWins | internal/reconcile/resolve.go:111-115 | a majority decides whenever there are three devices or more |
| ResolveLaws.MajorityViewsAgree | internal/reconcile/resolve.go:82-149 | any two partial views of one state that are decided by majority name the same checksum |
| ResolveLaws.RelabelledVerdict | internal/reconcile/resolve.go:89-149 | renaming checksums one to one changes neither source device nor outliers |
| ResolveLaws.ConvertsKeepWinner | internal/reconcile/resolve.go:108-125 | bringing any devices over to the winner keeps it the winner |
| ResolveLaws.NewestWinsUnlessOutvoted | internal/reconcile/resolve.go:111-125 | the newest write wins iff no older content has a majority |
| ResolveLaws.QuorumWins | internal/reconcile/resolve.go:86-125 | a newest write held by a quorum wins every view with one of its holders |
| Checksum.ExchangeSort | internal/hsm/client.go:205-212 | the hand-written exchange sort leaves in the array exactly what the library sort would |
| Checksum.HashKeys | internal/hsm/client.go:214-217 | the bytes hashed are the keys and values in the order given |
| Checksum.CalculateChecksum | internal/hsm/client.go:196-220 | the checksum is that of the canonical stream, whatever order the map was iterated in |
| Checksum.CalculateMirrorChecksum | internal/mirror/manager.go:769-789 | the mirror hashes the same canonical stream |
| Checksum.SumsAgree | internal/hsm/client.go:196-220 | one sum is the other behind "sha256:", so contents agree under one routine iff they agree under the other, and no content looks like a tombstone |
| Mirror.FileStates | internal/mirror/manager.go:245-285 | devices are filed as present, missing and unlabelled and turned into observations, errors apart |
| Mirror.RemoveDuplicates | internal/mirror/manager.go:360-372 | same members, no repeats |
| Mirror.RemoveDevice | internal/mirror/manager.go:375-385 | every occurrence of the given device is gone, and no occurrence of any other |
| Mirror.CreateMirrorPlan | internal/mirror/manager.go:240-357 | the plan is the one the inventory calls for: source, targets, kind, or none |
| Mirror.MirrorManager.BuildSecretInventory | internal/mirror/manager.go:118-217 | the inventory records what each device shows, including failures to connect, to read and to read metadata |
| Mirror.MirrorManager.WriteTarget | internal/mirror/manager.go:488-509 | one target gets the source's data, or keeps its own under new labels, iff the write can land |
| Mirror.MirrorManager.SyncTarget | internal/mirror/manager.go:488-521 | one turn of the loop extends the executed part of the plan by one target |
| Mirror.MirrorManager.SyncTargets | internal/mirror/manager.go:485-529 | the loop executes the whole plan and fails iff some target's write does not land |
| Mirror.MirrorManager.ExecuteMirrorPlan | internal/mirror/manager.go:424-540 | the new device contents are those of the plan as the source reads at execution, with version 1 where its metadata cannot be read again and nothing written where its secret cannot; success is reported iff nothing was to do or every write landed |
| Mirror.MirrorManager.MirrorSecret | internal/mirror/manager.go:614-664 | one call is one sweep of the secret, with the reads of the inventory and those of the execution failing independently, and reports what the sweep did |
| Mirror.OneDeviceIdle | internal/mirror/manager.go:614-664 | with one device or none a sweep changes nothing, so returning early loses nothing |
| MirrorConvergence.FullPlan | internal/mirror/manager.go:240-357 | when every device responds the plan's source is the verdict and its targets are the missing, unlabelled and disagreeing devices |
| MirrorConvergence.CopySweep | internal/mirror/manager.go:424-540 | one Create or Update sweep brings every device to the winner |
| MirrorConvergence.RestoreSweep | internal/mirror/manager.go:474-509 | a RestoreMetadata sweep changes no data and labels every device but a source with an unreadable version |
| MirrorConvergence.AgreeSettles | internal/mirror/manager.go:304-357 | from agreement one sweep settles, and a settled cluster is left alone |
| MirrorConvergence.SweepInventsNothing | internal/mirror/manager.go:424-540 | a sweep, whatever fails, only copies data that some device held |
| MirrorConvergence.TwoSweepsConverge | internal/mirror/manager.go:240-357 | two undisturbed sweeps settle a cluster iff it was not jammed |
| MirrorConvergence.SettledIsFinal | internal/mirror/manager.go:334-357 | a settled cluster plans nothing and is not changed |
| MirrorConvergence.BoundedConvergence | internal/mirror/manager.go:424-540 | two sweeps reach one checksum held at the start, and the third plans and changes nothing |
| MirrorConvergence.JammedForever | internal/mirror/manager.go:316-327 | a jammed cluster with a majority winner stays diverged through any number of sweeps |
| MirrorConvergence.JammedExample | internal/mirror/manager.go:316-327 | a concrete jammed cluster of three devices that no number of undisturbed sweeps brings to agree |
| MirrorJams.JammedByVersion | internal/mirror/manager.go:304-333 | a jammed cluster whose winner has a copy above version 1, and no other content has, stays diverged through any number of sweeps |
| MirrorJams.LooseSettles | internal/mirror/manager.go:304-357 | otherwise three more sweeps settle it once the outliers are stamped later than any copy of the winner |
| MirrorJams.JammedForGoodIff | internal/mirror/manager.go:304-357 | a jammed cluster never settles, whatever undisturbed sweeps follow, iff its winner has a majority or a copy above version 1 |
| MirrorFailures.VisiblePlan | internal/mirror/manager.go:245-357 | the plan of a sweep with any failures is that of an undisturbed sweep of what it sees |
| MirrorFailures.SweptSlot | internal/mirror/manager.go:424-540 | what each device holds after a sweep, whatever fails during its inventory or its execution: the new copy iff the plan for what the inventory saw writes there, the source can be read again and the write lands |
| MirrorFailures.StampOfSweep | internal/mirror/manager.go:455-472 | whatever a sweep writes carries its time, no deletion mark and a version of at least 1, the source's own where that is read |
| MirrorFailures.ReportIff | internal/mirror/manager.go:531-537 | a sweep reports iff it has two devices or more and sees a copy, and reports success iff nothing called for repair, or the source could be read again and every target written |
| MirrorFailures.SuccessMeansAgreement | internal/mirror/manager.go:531-537 | after a reported success that was no mere label restoration every device that responded holds the chosen content |
| MirrorFailures.FailureLeavesTarget | internal/mirror/manager.go:505-529 | after a reported failure some device that called for repair is as it was |
| MirrorStability.VerdictStable | internal/mirror/manager.go:304-333 | with labelled copies and any writes failing, the next verdict is the same and exactly the written devices stop being astray |
| MirrorStability.RetriesConverge | internal/mirror/manager.go:485-529 | over any run of failing sweeps the winner stays, and the devices still astray are those never reached |
| MirrorStability.NoneAstrayAgree | internal/mirror/manager.go:304-333 | no device is astray iff all copies agree |
| MirrorClocks.ClockFreeIff | internal/mirror/manager.go:168-206 | the chosen content is the same for all reading times iff a content has a majority of three or more, or all untimed copies and the newest timed one at the highest version agree |
| MirrorClocks.UnlabelledVerdictFlips | internal/mirror/manager.go:168-206 | a concrete case without labels where reading times decide the verdict |
| ApiWrite.ProxyClient.NextVersion | internal/api/proxy_client.go:129-141 | one more than the newest readable version, wrapping as 64-bit integers do |
| ApiWrite.ProxyClient.WriteSecret | internal/api/proxy_client.go:495-574 | exactly the accepting devices hold the new data under the new version, the time of the write and its deletion mark, every other device is as it was, and success is reported iff there is one |
| ApiWrite.MintedWraps | internal/api/proxy_client.go:129-141 | past the largest 64-bit version a write carries the least one, so no copy is older |
| ApiWrite.ProxyClient.DeleteSecret | internal/api/proxy_client.go:950-1000 | a device that takes the tombstone holds it, one that only deletes holds nothing, any other is as it was, and success is reported iff some device took the tombstone |
| Durability.SweepKeepsContentIff | internal/mirror/manager.go:284-333 | a sweep, whatever fails during it, leaves a content on its holders iff none of them can be written, no copy is read, that content is chosen, the chosen copy cannot be read again, or only labels are written |
| Durability.SightedChoice | internal/mirror/manager.go:284-333 | when a holder of the newest write is read, that write is chosen iff no other content has a majority of the responding devices |
| Durability.SweepsKeepLasting | internal/mirror/manager.go:424-540 | through any run of sweeps that read none or a quorum of its surviving holders a newest write stays newest on them; a holder that responds without being read is given up |
| Durability.DurableWrite | internal/api/proxy_client.go:539-556 | a write whose surviving acceptors are a quorum is the verdict of every later view with one of them, at once and after such sweeps |
| Durability.PartialSweepRevertsWrite | internal/mirror/manager.go:284-285 | a concrete sweep that hears three of five devices and overwrites a majority write |
| Durability.UnreadableSweepErasesWrite | internal/mirror/manager.go:180-184 | a concrete sweep that reads one of three devices and erases a majority write from both its holders |
| Durability.WriteDuringSweepErased | internal/mirror/manager.go:448-529 | a concrete quorum write that lands between a sweep's inventory and its execution and is erased from every device that accepted it |
| Runs.SweepMintsIff | internal/mirror/manager.go:191-209 | a sweep of a coupled cluster makes a version and data pair that did not exist iff it relabels other data than its source's, or stamps version 1, for want of the source's metadata at execution, on data that had not that version; it never raises the newest version |
| Runs.DescribedNeverRemints | internal/mirror/manager.go:455-472 | a sweep that reads the metadata of whatever it reads, for the inventory and at execution, makes no such pair |
| Runs.SweepCouplesIff | internal/mirror/manager.go:455-472 | a sweep, whatever fails during it, leaves equal versions on equal data iff it does not relabel other data than its source's and does not stamp version 1 while that stays on other data elsewhere |
| Runs.MetadataFailureClash | internal/mirror/manager.go:559-564 | a concrete sweep that loses one metadata read and leaves one version on two contents |
| Runs.RereadFailureClash | internal/mirror/manager.go:448-463 | a concrete sweep of four devices that loses only the second read of its source's metadata and leaves version 1 on two contents |
| Runs.WritesKeepCouplingIff | internal/api/proxy_client.go:535-543 | writes through given clients keep equal versions on equal data, whatever is written and accepted, iff no device already holds the version to be minted while another client could accept |
| Runs.EveryRunCoupled | internal/api/proxy_client.go:920-946 | in every run from an empty cluster of writes that see the newest version and sweeps that meet that condition, equal versions hold equal data and versions count the steps |
| Runs.SplitWritesClash | internal/api/proxy_client.go:129-141 | two writes across a partition that mint one version for two contents |
| Readers.GatherSecretObservations | internal/controller/hsmsecret_controller.go:238-291 | exactly one observation per device that answers, and a captured copy for every device that holds one |
| Readers.ReconcileRead | internal/controller/hsmsecret_controller.go:186-205 | the controller returns the authoritative copy among all available devices, and "winner had no captured data" cannot happen |
| Readers.FindMostRecentSecretResult | internal/api/proxy_client.go:192-227 | the API returns the authoritative copy of what was read |
| Readers.ReadSecret | internal/api/proxy_client.go:419-472 | the API returns the authoritative copy counted among the clients it opened, whatever order they answer in |
| Readers.ReadAnswers | internal/api/proxy_client.go:192-227 | in terms of the copies alone: what most devices hold, else what was written last, is answered, with nothing if that is a deletion and otherwise the data of its lowest holder |
| Readers.OnePrevails | internal/reconcile/resolve.go:108-125 | exactly one content is in that position |
| Readers.NeverServesDeleted | internal/api/proxy_client.go:221-224 | no reader answers with the data of a deleted copy |
| Readers.NotFoundIff | internal/api/proxy_client.go:221-224 | a secret reads as not found iff no copy was read or the deletion prevails |
| Readers.LaterWriteWinsIff | internal/reconcile/resolve.go:173-183 | a write that leaves only older versions, or its own version at an earlier time, is answered, deletions included, iff no other content is held by most of the devices counted |
| Readers.LaterOfTwoIsRead | internal/api/proxy_client.go:540 | of two writes that minted the same version the later is read at up to two devices |
| Readers.CountsDifferIff | internal/reconcile/resolve.go:108-125 | two device counts give different verdicts on the same votes iff a content that is not the newest has a majority of the smaller count, at least three, but not of the larger |
| Readers.ReadersAgreeIff | internal/api/proxy_client.go:466 | the copies returned at the two counts are the same iff no content is in that position |
| Readers.ReadBoth | internal/api/proxy_client.go:291-317 | where both get the same copies, whatever devices lack the secret, fail or are out of reach, the API and the controller return the same data iff the clients that could not be opened do not change a majority |
| Readers.ReadersDiffer | internal/api/proxy_client.go:466 | a concrete case of three opened clients of five devices where the API returns the older and the controller the newer content |
| Readers.ReadersAgreeWithMirror | internal/mirror/manager.go:245-285 | on labelled copies without tombstones the readers return the data of the device the mirror copies from |
| Readers.DurableReadIff | internal/api/proxy_client.go:192-227 | after a write, a reader that hears an accepting device returns its content iff no other content has a majority of the count the reader uses |
| Readers.DurableRead | internal/controller/hsmsecret_controller.go:186-205 | after a quorum write, a reader that counts every device and hears one accepting device returns its content |
| Deletes.DeletedReadIff | internal/api/proxy_client.go:950-962 | with tombstones at version 0 and live copies above it a secret reads as not found iff no live copy is read or tombstones are most of the devices counted |
| Deletes.DeleteHoldsIff | internal/api/proxy_client.go:948-962 | after a delete a reader finds nothing iff it hears no device that the delete missed, or tombstones from most of the devices it counts |
| Deletes.DeleteUndone | internal/api/proxy_client.go:948-962 | a concrete successful delete that one of two devices misses, after which the secret is still read |
| Deletes.SweepForgetsDeletion | internal/mirror/manager.go:464-472 | a sweep, whatever fails during it, clears the deletion mark on every device it writes to and sets none |
| Deletes.MirrorRevivesDeleted | internal/mirror/manager.go:304-333 | a concrete sweep that writes the copy a delete missed over the tombstone |
| LabelStore.NoEmptyPart | internal/security/validation.go:42-82 | a valid path does not begin or end with a slash and has no two in a row |
| LabelStore.NoDots | internal/security/validation.go:42-82 | no valid path has a dot, so the check for ".." never decides |
| LabelStore.JoinedIsValid | internal/security/validation.go:42-82 | valid paths joined by a slash are a valid path if that is not too long |
| LabelStore.LongestNames | internal/security/validation.go:86-108 | paths have up to 256 characters and keys up to 1024 |
| LabelStore.DataLabel | internal/security/validation.go:86-122 | a validated key's label never looks like a metadata label |
| LabelStore.KeyOfLabel | internal/hsm/pkcs11_client.go:231-236 | cutting the path from a label gives back the key it was built from |
| LabelStore.WriteRefines | internal/hsm/pkcs11_client.go:256-334 | delete by prefix and create by key is one map update |
| LabelStore.DeleteRefines | internal/hsm/pkcs11_client.go:369-392 | delete by prefix is removal from the map |
| LabelStore.DeleteKeyRefines | internal/hsm/pkcs11_client.go:395-420 | destroying one labelled object is removal of one key |
| LabelStore.HasKey | internal/hsm/pkcs11_cgo.go:488-525 | the object of a key exists iff the map has the key |
| LabelStore.ReadRefines | internal/hsm/pkcs11_client.go:198-253 | any answer the reader can give is the map's data, and none iff the map has none |
| LabelStore.MetadataRefines | internal/hsm/pkcs11_client.go:337-366 | the metadata object found is the one stored last |
| LabelStore.ListedPathIff | internal/hsm/pkcs11_client.go:449-458 | the listing recovers a label's path iff the key is listable |
| LabelStore.ListRefines | internal/hsm/pkcs11_client.go:423-476 | the listing is the set of paths with data under the prefix |
| LabelStore.ListExactIff | internal/hsm/pkcs11_client.go:423-476 | the listing is right for every prefix iff every stored key is listable |
| LabelRuns.EveryRunRefines | internal/hsm/pkcs11_client.go:256-420 | after every run of validated writes and deletes over prefix-incomparable paths the token holds exactly the map's objects |
| LabelRuns.EveryRunAnswers | internal/hsm/pkcs11_client.go:198-366 | after every such run reads and metadata reads answer as the map |
| LabelRuns.EveryRunLists | internal/hsm/pkcs11_client.go:423-476 | and so do listings, when the keys are listable |
| LabelRuns.MockRunSame | internal/hsm/mock_client.go:147-230 | after every run the mock holds the data of the store |
| LabelRuns.MetadataRemembered | internal/hsm/mock_client.go:161-188 | the mock has metadata iff a write since the last delete brought some, the token iff the last write did, and then they are equal |
| LabelRuns.MockAgreesIff | internal/hsm/mock_client.go:122-188 | token and mock read the same data iff the secret is not stored without any key, and the same metadata iff the last write brought some or none did |
| LabelRuns.MockListsSame | internal/hsm/mock_client.go:233-251 | token and mock list the same secrets, those without any key aside |
| LabelRuns.LastKeyDeleted | internal/hsm/mock_client.go:191-251 | a concrete write and key deletion after which the mock answers with empty data and the token with not found |
| LabelRuns.MetadataKeptByMock | internal/hsm/mock_client.go:161-188 | after a write with metadata and one without, the mock has metadata and the token none |
| LabelRuns.DataBelowSlash | internal/hsm/pkcs11_client.go:449-458 | the key "data" below a path with a slash is listed under a path never written |
| LabelRuns.IsolatedIff | internal/hsm/pkcs11_cgo.go:440-460 | a write never disturbs another path iff the two are prefix-incomparable |
| TokenClient.CollectData | internal/hsm/pkcs11_client.go:214-239 | the collected map has a key for every data object and only values that were found |
| TokenClient.ReadIsTruthful | internal/hsm/pkcs11_cgo.go:324-331 | a read never invents a key or value, even when objects could not be read |
| TokenClient.ReadIsExact | internal/hsm/pkcs11_client.go:198-253 | a complete search gives an exact answer |
| TokenClient.PathsOf | internal/hsm/pkcs11_client.go:439-464 | the set of parent paths of the non-metadata labels under the prefix |
| TokenClient.PKCS11Client.constructor | internal/hsm/pkcs11_client.go:78-83 | not connected, no search active |
| TokenClient.PKCS11Client.FindObjectsInit | internal/hsm/pkcs11_cgo.go:301-303 | fails while a search is active |
| TokenClient.PKCS11Client.FindObjects | internal/hsm/pkcs11_cgo.go:306-311 | distinct handles of selected objects, all of them if they fit the limit |
| TokenClient.PKCS11Client.FindObjectsFinal | internal/hsm/pkcs11_cgo.go:313-317 | ends the search, or fails and leaves it active |
| TokenClient.PKCS11Client.CreateObject | internal/hsm/pkcs11_cgo.go:356-404 | may only be called outside search mode; adds one object or nothing |
| TokenClient.PKCS11Client.DestroyObject | internal/hsm/pkcs11_cgo.go:463-477 | may only be called outside search mode; removes one object or nothing |
| TokenClient.PKCS11Client.FindLabelled | internal/hsm/pkcs11_cgo.go:291-353 | finds only matching objects, all of them when undisturbed and within the limit; returns outside search mode unless ending the search failed |
| TokenClient.PKCS11Client.DeleteLabelled | internal/hsm/pkcs11_cgo.go:407-485 | destroys only matching objects, all of them when undisturbed; never in search mode |
| TokenClient.PKCS11Client.WriteSecret | internal/hsm/pkcs11_client.go:256-302 | undisturbed it replaces the secret's objects and labels stay unique; whatever fails, objects outside the path survive; a session stuck in search mode changes nothing |
| TokenClient.PKCS11Client.WriteData | internal/hsm/pkcs11_client.go:276-293 | creates one object per key |
| TokenClient.PKCS11Client.ReadSecret | internal/hsm/pkcs11_client.go:198-253 | exact when undisturbed, truthful always |
| TokenClient.PKCS11Client.ReadMetadata | internal/hsm/pkcs11_client.go:337-366 | what it returns is the stored metadata; undisturbed, it misses none |
| TokenClient.PKCS11Client.ListSecrets | internal/hsm/pkcs11_client.go:423-476 | exact when undisturbed, never an invented path |
| TokenClient.PKCS11Client.DeleteSecret | internal/hsm/pkcs11_client.go:369-392 | undisturbed it leaves exactly the objects outside the path, and succeeds even if there were none inside |
| TokenClient.PKCS11Client.DeleteSecretKey | internal/hsm/pkcs11_client.go:395-420 | undisturbed it succeeds iff the object exists, and then only that object is gone |
| TokenRuns.Perform | internal/hsm/pkcs11_client.go:256-420 | any run of calls that is not disturbed leaves on the token exactly the objects of the run |
| TokenRuns.PerformAndAsk | internal/hsm/pkcs11_client.go:198-476 | after any such run reads, metadata reads and listings answer as the map |
| Discovery.IndexIsSearch | internal/modes/discovery/discovery.go:843-864 | looking a key up in the index is last-match linear search |
| Discovery.KeptOnNode | internal/modes/discovery/discovery.go:750-782 | a cleanup removes nothing the plugin shows |
| Discovery.AdvertisesExactly | internal/discovery/deviceplugin.go:96-123 | with distinct identifiers the plugin lists exactly the devices it was given |
| Discovery.NoSlashInId | internal/discovery/deviceplugin.go:169-183 | an identifier has no slash beyond those of node and serial |
| Discovery.SameIdSameSerial | internal/discovery/deviceplugin.go:169-183 | devices at one path of one node share an identifier iff they share a serial |
| Discovery.ReplacedIff | internal/discovery/deviceplugin.go:96-123 | replacing one record leaves the advertisement alone iff neither record is shown on this node, or both are shown alike |
| Discovery.AppendedIff | internal/discovery/deviceplugin.go:96-123 | appending a record leaves the advertisement alone iff it is not shown |
| DiscoveryCache.BuildIndex | internal/modes/discovery/discovery.go:829-839 | the loop builds the index of the list |
| DiscoveryCache.UpdateDevices | internal/discovery/deviceplugin.go:96-123 | the plugin's list is replaced as a whole |
| DiscoveryCache.FilterNode | internal/modes/discovery/discovery.go:914-919 | the available devices on this node, in order |
| DiscoveryCache.DropStale | internal/modes/discovery/discovery.go:753-768 | drops exactly the lost devices past the grace period |
| DiscoveryCache.RefreshOne | internal/modes/discovery/discovery.go:712-733 | a seen device is adopted, a newly missing one stamped lost, a lost one kept |
| DiscoveryCache.RefreshAll | internal/modes/discovery/discovery.go:711-733 | the cached devices in order, the matched keys and whether anything changed |
| DiscoveryCache.AppendUnknown | internal/modes/discovery/discovery.go:735-743 | the scanned devices the cache did not know |
| DiscoveryCache.ShownAfterSkip | internal/modes/discovery/discovery.go:896-904 | skipping the plugin keeps it in step iff nothing it lists changed |
| DiscoveryCache.AddUnseenIff | internal/modes/discovery/discovery.go:503-570 | a plugged device changes nothing the plugin lists iff it replaces a record that looks the same |
| DiscoveryCache.RemoveUnseenIff | internal/modes/discovery/discovery.go:573-616 | an unplugged device changes nothing the plugin lists iff no record matches or the match is not shown |
| DiscoveryCache.UnrecordedTypeGoesStale | internal/modes/discovery/discovery.go:896-904 | a concrete plug event for an unrecorded type that leaves the plugin out of step |
| DiscoveryCache.ShownAfterCleanup | internal/modes/discovery/discovery.go:776-779 | a cleanup never needs to tell the plugin |
| DiscoveryCache.DiscoveryAgent.constructor | internal/modes/discovery/discovery.go:161-166 | an empty, current index and a plugin view in step |
| DiscoveryCache.DiscoveryAgent.UpdateDeviceCache | internal/modes/discovery/discovery.go:816-840 | replaces one list and leaves the index equal to the one built from the cache |
| DiscoveryCache.DiscoveryAgent.FindDeviceIndex | internal/modes/discovery/discovery.go:843-864 | equals linear search by serial, then path, and is always in bounds |
| DiscoveryCache.DiscoveryAgent.UpdateDevicePluginByType | internal/modes/discovery/discovery.go:907-928 | the type's plugin lists the available devices on this node |
| DiscoveryCache.DiscoveryAgent.UpdateDevicePluginByName | internal/modes/discovery/discovery.go:896-904 | does so only if the type is recorded |
| DiscoveryCache.DiscoveryAgent.ProcessHSMDevice | internal/modes/discovery/discovery.go:257-297 | the first scan replaces the list, records the type and keeps the plugin in step |
| DiscoveryCache.DiscoveryAgent.HandleDeviceAdd | internal/modes/discovery/discovery.go:503-570 | replaces the matching device or appends; the plugin stays in step iff the type is recorded or the device replaces a record that looks the same |
| DiscoveryCache.DiscoveryAgent.HandleDeviceRemove | internal/modes/discovery/discovery.go:573-616 | marks the matching device lost now; the plugin stays in step iff the type is recorded or no shown record matches |
| DiscoveryCache.DiscoveryAgent.MergeScanIntoCache | internal/modes/discovery/discovery.go:690-746 | the merged list and whether it differs materially |
| DiscoveryCache.DiscoveryAgent.ReconcileHSMDeviceScan | internal/modes/discovery/discovery.go:657-681 | a failed scan or unchanged merge leaves the cache alone, and the plugin stays in step either way |
| DiscoveryCache.DiscoveryAgent.CleanupStaleDevices | internal/modes/discovery/discovery.go:750-782 | every list loses exactly its stale devices, and the plugin stays in step without being told |
| DiscoveryRuns.SparesIff | internal/modes/discovery/discovery.go:843-864 | a plug or unplug event leaves a device's entry as it is iff the search does not end at it and the event is not of that device, or it writes the record already there |
| DiscoveryRuns.GraceExact | internal/modes/discovery/discovery.go:503-782 | over any run of all five events that does not touch its entry a missing device is stamped by the first scan, keeps the stamp, and is dropped by the first cleanup more than five minutes later or a first scan, not before |
| DiscoveryRuns.MissedScan | internal/modes/discovery/discovery.go:722-733 | a scan that misses a device stamps it only if it was available |
| DiscoveryRuns.SeenStays | internal/modes/discovery/discovery.go:503-782 | over any run of all five events an available device that every scan sees and no event takes over or unplugs is never dropped |
| DiscoveryRuns.PathTakenOver | internal/modes/discovery/discovery.go:843-864 | a device plugged in at a lost device's path takes its entry inside the grace period |
| DiscoveryRuns.UnplugRestartsGrace | internal/modes/discovery/discovery.go:573-616 | an unplug event for a device already lost moves its stamp, so that a cleanup that would have dropped it keeps it |
| DiscoveryRuns.FiveMinutes | internal/modes/discovery/discovery.go:750-782 | a lost device is still cached after 300 seconds and gone after 301 |
| DiscoveryRuns.PluggedIsCached | internal/modes/discovery/discovery.go:503-570 | a plugged device is cached with all that the bus reports, as seen now on this node |
| DiscoveryRuns.RepeatedScanIff | internal/modes/discovery/discovery.go:690-746 | merging the same scan again reports no change iff new devices that share a key share a path |
| DiscoveryRuns.RepeatedScanChanges | internal/modes/discovery/discovery.go:690-746 | a concrete scan with one serial at two paths that is reported as a change again |
| DiscoveryRuns.AdoptedUniqueIff | internal/modes/discovery/discovery.go:690-746 | a merge keeps serials unique iff the scanned devices new to the cache have serials and no two the same |
| DiscoveryRuns.SerialsStayUnique | internal/modes/discovery/discovery.go:503-782 | in every run of all five events no serial is ever cached twice, and none is empty, iff no event brings one in |
| DiscoveryRuns.SerialCachedTwice | internal/modes/discovery/discovery.go:735-743 | a concrete scan that reports one serial at two paths and leaves it cached twice |
| Pki.OneCa | internal/pki/store.go:70-217 | for every interleaving every bundle returned trusts the one stored CA, and every self-managed leaf is signed by it and delivered with it |
| Pki.CaIsForever | internal/pki/store.go:112-141 | the stored CA never changes |
| Pki.ExternalUntouched | internal/pki/store.go:168-217 | no replica's step changes an externally managed leaf Secret |
| Pki.EveryRunKeepsInv | internal/pki/store.go:112-217 | every step of every replica keeps the CA and snapshot invariants |
| Pki.GoodIsCurrent | internal/pki/store.go:183-185 | a stale read cannot be found good: a leaf that needs no rotation is the one stored now, or was taken over |
| Pki.SupersededByWrite | internal/pki/store.go:205-216 | a Secret is only ever replaced once it was due |
| Pki.RotatedOnlyWhenDue | internal/pki/store.go:183-185 | in every run a replica's step changes a self-managed leaf only in its last RenewBefore of validity |
| Pki.LeafStaysUntilDue | internal/pki/store.go:183-185 | from every point of every run a self-managed leaf stays as it is until then, whatever the replicas do |
| Pki.EveryRunBounded | internal/pki/leaf.go:49-75 | in every run a self-managed leaf ends at a whole second no later than LeafValidity from now |
| Pki.OnlyTakeover | internal/pki/store.go:168-217 | only an external controller makes a leaf external |
| Pki.EveryRunTruthful | internal/pki/store.go:168-217 | in every run a bundle returned as external belongs to a client leaf that an external controller owns |
| Pki.BundleLasts | internal/pki/store.go:70-110 | in every run a bundle returned with a self-managed client leaf delivers one valid for min(RenewBefore, LeafValidity) from when the call began, less the second lost to truncation |
| Pki.EndOfCall | internal/pki/store.go:70-217 | a failed call, a lost answer, a rejected write and an unparseable client leaf each end EnsurePKI without a bundle |
| Pki.EveryRunNewCas | internal/pki/store.go:112-141 | in every run the CAs that replicas generate are different ones, and none of theirs is the stored one before it is stored |
| Pki.EveryRunCovered | internal/pki/store.go:70-110 | in every run a completed EnsurePKI leaves each leaf checked since the call began |
| Pki.LeafNeverLapses | internal/pki/leaf.go:91-101 | for every interleaving, within a period of the start of a completed EnsurePKI each self-managed leaf keeps more than min(RenewBefore, LeafValidity) less the period and the second lost to truncation |
| Pki.EveryCallCompletes | internal/pki/store.go:70-217 | from every point of every run a replica that holds no snapshot of a leaf and is left alone completes its call within fifteen steps, also after losing the race for the CA and with external leaves, unless the external client leaf cannot be parsed |
| ConnectionPool.Pool.constructor | internal/agent/connection_pool.go:144-153 | nothing built, nothing pooled |
| ConnectionPool.Pool.Dial | internal/agent/connection_pool.go:232-266 | every dial counts as successful or failed, and a client that fails to initialise is closed |
| ConnectionPool.Pool.GetClientAttempt | internal/agent/connection_pool.go:201-267 | a connected client is reused and counted, any other is closed and replaced by a new one or none; every client built is one endpoint's entry or closed exactly once; other endpoints are untouched |
| ConnectionPool.Pool.Others | internal/agent/connection_pool.go:161-370 | any sections of other callers keep the pool's invariant and never move a client to another endpoint |
| ConnectionPool.Pool.GetClient | internal/agent/connection_pool.go:161-198 | whatever other callers do between its attempts, the client handed out is the endpoint's entry or has been closed once, one that failed its check all three times has been closed, and none is handed out only after three attempts, each repeat counted |
| ConnectionPool.Pool.RemoveClient | internal/agent/connection_pool.go:270-281 | closes and forgets exactly that endpoint's client |
| ConnectionPool.Pool.HealthCheckResult | internal/agent/connection_pool.go:359-370 | a failed check removes whatever client the endpoint then has; every check is counted as passed or failed |
| ConnectionPool.Pool.CloseWrapper | internal/agent/connection_pool.go:83-97 | gives back one reference and closes nothing |
| ConnectionPool.Pool.Close | internal/agent/connection_pool.go:284-299 | the first call leaves every client ever built closed exactly once, later calls do nothing |
| AgentReconcile.TemplateIsUpToDate | internal/controller/hsmpool_agent_controller.go:1018-1133 | a freshly created deployment passes every needs-update check |
| AgentReconcile.GroupBySerial | internal/controller/hsmpool_agent_controller.go:418-422 | devices grouped by serial in order |
| AgentReconcile.GroupIsWithSerial | internal/controller/hsmpool_agent_controller.go:418-422 | a group is all of the pool's devices with its serial, in order, and every serial has one |
| AgentReconcile.AgentReconciler.EnsureAgentOnNode | internal/controller/hsmpool_agent_controller.go:615-699 | kept, replaced, deferred or refused exactly as the checks say, and nothing else changes |
| AgentReconcile.AgentReconciler.DealWith | internal/controller/hsmpool_agent_controller.go:443-527 | one serial's decision has its effect on that agent only |
| AgentReconcile.AgentReconciler.EnsureAgentDeployments | internal/controller/hsmpool_agent_controller.go:415-543 | only agents of the pool's serials change; if their names differ, every serial's decision takes effect whatever the order, and the run is held back iff some agent was deferred or refused |
| AgentReconcile.AgentReconciler.ReapOrphanedAgents | internal/controller/hsmpool_agent_controller.go:241-291 | removes exactly the device's agents whose name no discovered serial has |
| AgentReconcile.AgentReconciler.EnsureAndReap | internal/controller/hsmpool_agent_controller.go:120-165 | if the agent names differ, ensure then reap, held back iff some agent was deferred or refused; nothing at all on a settled cluster |
| AgentReconcile.LatestSeenIsMax | internal/controller/hsmpool_agent_controller.go:325-339 | the time tracked is the latest at which any device was seen |
| AgentReconcile.AnyAvailable | internal/controller/hsmpool_agent_controller.go:325-339 | whether any device is available, and otherwise when one was last seen |
| AgentReconcile.AgentReconciler.DeleteDevice | internal/controller/hsmpool_agent_controller.go:378-409 | removes exactly the agents that carry the device's label |
| AgentReconcile.AgentReconciler.CleanupStaleAgents | internal/controller/hsmpool_agent_controller.go:293-376 | removes the device's agents iff no device is available and none was seen within the absence timeout, which runs from the pool's creation if none ever was |
| AgentReconcile.AgentReconciler.Reconcile | internal/controller/hsmpool_agent_controller.go:108-187 | a ready pool with devices is ensured and reaped, if its agent names differ, and every pool that is not held back is cleaned up; a settled one is left alone |
| AgentReconcile.StuckIff | internal/controller/hsmpool_agent_controller.go:1018-1025 | with discovery current, only a deployment without containers can hold the run back |
| AgentReconcile.AgentOfSerial | internal/controller/hsmpool_agent_controller.go:443-527 | in every pool the agent of a discovered serial ends as that serial's decision says |
| AgentReconcile.LostKeptIff | internal/controller/hsmpool_agent_controller.go:503-524 | in every pool a serial all of whose entries are lost keeps its agent, as it is, iff the last entry was seen no longer than the grace period ago |
| AgentReconcile.LostExample | internal/controller/hsmpool_agent_controller.go:503-524 | with a grace period of 300 a device lost at 1000 keeps its agent at 1300 and not at 1301 |
| AgentReconcile.ServedIff | internal/controller/hsmpool_agent_controller.go:460-527 | in every pool an available serial ends with an up-to-date agent iff its last lost entry, if any, is within the grace period or the agent was up to date already |
| AgentReconcile.MovedTooLate | internal/controller/hsmpool_agent_controller.go:460-480 | a concrete pool whose device moved nodes after the grace period and gets no agent |
| AgentReconcile.UpToDateIff | internal/controller/hsmpool_agent_controller.go:1018-1133 | the checks pass iff the agent runs on the device's node only, with the configured image and TLS, locked down, and without any other device |
| AgentReconcile.ServedIsFit | internal/controller/hsmpool_agent_controller.go:443-527 | after a run that is not held back the agent of every device that is served is like that |
| AgentReconcile.CreatedIsOwned | internal/controller/hsmpool_agent_controller.go:615-699 | whatever a run creates carries the labels of an agent, of the pool's device and of the serial |
| AgentReconcile.NamelessKeepsAll | internal/controller/hsmpool_agent_controller.go:241-291 | a pool none of whose devices has an agent name loses and gains nothing |
| AgentReconcile.OrphanReaped | internal/controller/hsmpool_agent_controller.go:241-291 | in every pool an agent that no discovered serial names any more is gone |
| AgentReconcile.LongGoneIff | internal/controller/hsmpool_agent_controller.go:325-370 | the cleanup removes agents iff no entry is available and each was last seen longer ago than the absence timeout, or none ever was and the pool is older than that |
| AgentReconcile.CleanupIsExact | internal/controller/hsmpool_agent_controller.go:378-409 | it removes everything that carries the device's label and nothing else |
| AgentReconcile.ReconcileExact | internal/controller/hsmpool_agent_controller.go:120-165 | one up-to-date agent per serial pinned to its device's node, no other agents of that device, no other deployment changed |
| AgentReconcile.ReconcileFixpoint | internal/controller/hsmpool_agent_controller.go:120-165 | a second run on the unchanged pool, at any time and whatever discovery does, deletes and creates nothing |
| AgentReconcile.SharedNameUnserved | internal/agent/naming.go:34-59 | two devices on different nodes whose serials share an agent name cannot both have an up-to-date agent |

## Left out

- Deletes in runs of writes and sweeps: the API writes tombstones with version 0 (internal/api/proxy_client.go:960), so versions do not order them; Deletes has the exact effect of one delete and of a sweep after it.
- Mirror sweeps of many paths: one path is modelled, and paths do not interact in a sweep.
- A device write that stops half way, and API writes that land between a sweep's inventory and the end of its execution: a sweep is one step in a run. A write that does land there need not last, as Durability.WriteDuringSweepErased shows.
- Runs.EveryRunCoupled: needs fewer steps than the largest 64-bit integer, because the version counter wraps there.
- MirrorConvergence.JammedForever: covers a winner with a majority; MirrorJams.JammedForGoodIff covers every jammed cluster.
- Durability.SweepsKeepLasting: asks each sweep to read the metadata of what it reads and none or a quorum of the surviving holders among the devices it hears; MetadataFailureClash and PartialSweepRevertsWrite show what happens otherwise.
- DiscoveryCache.DiscoveryAgent.HandleDeviceAdd: the guard on the matched record is stated for devices with distinct identifiers on the node; with shared ones the plugin's map keeps the last, and the clause compares what it lists.
- Readers.DurableRead: is about a reader that counts every device; the API counts its opened clients, for which DurableReadIff gives the condition and ReadersDiffer a case where it fails.
- TokenClient.PKCS11Client.WriteSecret: more than 100 objects on the token, where searches miss some, only gets the clauses that hold whatever fails.
- The handle cache `dataObjects` of the token client: it is never read for lookups.
- DeleteSecret on a missing path: the token client succeeds and the mock reports an error; only the contents are compared.
- ValidateSecretData's size limit and the rejection of empty data: the store lemmas hold without them.
- Device plugin start failures and pod annotations in discovery, and which nodes an HSMDevice targets.
- Reconnecting a token session, retries and PIN handling.
- EnsurePKI with certificates managed by an external controller throughout (internal/pki/store.go:221-244): it only reads.
- X.509, TLS, JSON and SHA-256 internals, gRPC and HTTP handlers, the command line and web clients.
- Pool reference counts as counts of live wrappers: closing is keyed by endpoint, so they are not.
- Pools without an owner or whose HSMDevice is gone, rejected pods and failing API calls in the agent reconciler, and pod fields its checks do not read.
- The mirror's debounce timer, pool phases, OID tables, name and label sanitizers.
