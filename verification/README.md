# Proofs about the wireless sensor system

A Dafny model of the crash-safe storage and the radio protocols of a wireless sensor
system: battery nodes on an ATtiny with 256 bytes of EEPROM, and an ESP32 gateway that
keeps its state in key-value flash.

- **Node storage.** The EEPROM is an array with a ghost log of byte updates, and a power
  cut is any prefix of them (`Eeprom`). On it stand the counter ring (`CounterRing`), the
  SET_COUNT result store and journal (`SetCountStore`, `SetCountJournal`), the pulse
  filter (`PulseFilter`), their combination (`CounterProfile`), the network
  configuration (`NetworkConfigStore`, `FactoryCredentials`) and the main loop's turn from one
  membership to the next, over both (`MembershipChange`). `Crc` treats both checksums as shift registers of
  bits.
- **Gateway storage.** `DualSlotStore` is the two-slot store as an atomic register;
  `Recovery` and `RecoveryService` are backup restore and factory reset as all-or-nothing
  steps; `Snapshots`, `SettingsCodec`, `SecretsCodec`, `CommandBookCodec`, `RegistryCodec` and
  `AuthenticationCodec` are the snapshot formats, and `RestoredInstallation` says what all of
  them load after a restore. `StoredLayouts` places every stored field.
- **Gateway tables.** The command book, node registry and user accounts are specified on
  values (`CommandBook`, `NodeRegistry`, `UserTable`), kept in arrays by classes that are
  proved against those values (`CommandTable`, `NodeTable`, `UserTable.Table`), and seen
  from outside as maps (`BookMap`, `RegistryMap`). `CommandService` and `RegistryService`
  commit them through copies and publish lock-free bitmaps (`Bitmap`).
- **Protocols.** `ExactlyOnce` joins the gateway's command service and the node's journal
  over a radio that loses, duplicates and reorders. `CommissioningGateway`,
  `CommissioningNode` and `CommissioningSafety` do the same for joining the network. `Nonces` is what both take
  as fresh. `CommandProgress` and `CommissioningProgress` say what both achieve when nothing is lost.
- **Algorithms.** `PowerControl`, `PowerLinkChange` and `PowerControlService`, `Utf8`, `Base64Url`,
  `SectorWriter`.

Each class method states the new state as a function of the old one. The environment's
choices (what a flash write does, whether the radio delivers, when the supply fails) are
explicit parameters. `dafny verify dfyconfig.toml` checks everything.

Five findings where the code does less than a reader may expect, each with an input and its
exact condition:

- `DualSlotStore::save` answers true without writing when the value equals its RAM copy.
  That value then is not what loads exactly if the last attempt that reached its slot, since
  the last boot or verified save, wrote a whole record and failed its read-back
  (`DualSlotStore.SkippedSaveIsDurable`). While no save has returned false it always is
  (`DualSlotStore.DurableUntilFailure`).
- The registry's store verifies the generation it reads back but not the value. A reported
  success is durable exactly if the write happened, or did nothing and the slot already held
  that value and generation (`DualSlotStore.RegistrySaveIsDurable`); while no save has returned
  false it always is (`DualSlotStore.RegistryDurableUntilFailure`). The failing input needs a
  flash write that is reported and does not happen, which the rest of the model excludes
  (`DualSlotStore.RegistryTrustsGeneration`).
- `NodeRegistry::restore` checks neither that a fixed power level is within the ceiling nor
  that a name is zero padded, so a stored registry can load without either
  (`RegistryCodec.UncheckedFieldsLoad`, `RegistryCodec.DecodedIsGood`); every registry reached
  from the empty one has both anyway (`NodeRegistry.ReachableIsGood`).
- A node forgets the last command ID only in the loop turn in which its new membership becomes
  active. If the supply fails between the two records, the ID of the old membership stays and
  the new gateway's command with that ID is answered as applied and lost
  (`MembershipChange.LifeLosesACommand`); this is so exactly after such a cut
  (`MembershipChange.StaleExactlyIfInterrupted`).
- The power controller stops counting at 255 reports of one level. A node settled that long
  does not react to a link that has changed until its level changes
  (`PowerLinkChange.FrozenNodeStaysWeak`); in general it reacts exactly if some average up to
  the 255th report calls for a move (`PowerLinkChange.ArrivesExactlyIfNoticed`).

Exactly-once application needs that a node receives a command fewer than 65535 issues after
the one it applied last, since it compares with that one's 16-bit ID only; how long the run is
and how far apart other commands are does not matter (`ExactlyOnce.ExactlyOnceTheorem`). A
reused ID is lost (`ExactlyOnce.ReusedIdIsLost`). A node can also start with an ID on record: after
a restore, when the gateway begins again at a random ID (`RestoredInstallation.RestoredSystemStarts`),
or after an interrupted change of membership. Then the first command is lost exactly if it carries
that ID (`ExactlyOnce.LostExactlyIfOnRecord`). That the book shows the right result needs a
second bound, on the commands one session is answered with (`ExactlyOnce.CompletedMeansApplied`,
`ExactlyOnce.StaleResultCompletes`). Both protocols take a node's nonces as fresh, which they are
exactly while its microsecond clock shows no value twice (`Nonces.FreshExactlyIfClockIs`).

## Model

| member | source | states |
|---|---|---|
| Crc.ComputeCrc16 | node/lib/NodeCore/include/NodeStorage.h:41-52 | the loop over a 16-bit register, eight shifts a byte, computes the CRC defined on bit sequences |
| Crc.ComputeCrc32 | shared/RadioProtocol/src/RegistryPersistence.cpp:11-22 | the reflected 32-bit loop computes the CRC defined on bit sequences |
| Crc.FeedIsSerial | node/lib/NodeCore/include/NodeStorage.h:41-52 | XORing a whole byte in and shifting eight times equals feeding its bits one by one |
| Crc.SerialInjective | node/lib/NodeCore/include/NodeStorage.h:44-49 | the bit step is a bijection: different registers stay different over any message |
| Crc.BurstDetected | node/lib/NodeCore/include/NodeStorage.h:41-52 | two messages that differ only inside a window of register width leave different registers |
| Crc.Crc16DetectsBurst | node/lib/NodeCore/include/NodeStorage.h:41-52 | any change confined to two adjacent bytes changes the CRC-16 |
| Crc.Crc32DetectsBurst | shared/RadioProtocol/src/GatewayStorage.cpp:14-24 | any change confined to four adjacent bytes changes the CRC-32 |
| NodeSlots.SuccessorWins | node/lib/NodeCore/include/NodeStorage.h:192-194 | the next 8-bit generation beats the present one in either slot, across the wrap |
| NodeSlots.CommitSlot | node/lib/NodeCore/include/CounterStorage.h:118-122 | the update sequence of a slot: lead cleared, body written, lead last |
| NodeSlots.CommitCut | node/lib/NodeCore/include/CounterStorage.h:118-122 | cut anywhere before its last update, a slot's first cell is zero |
| NodeSlots.CommitDone | node/lib/NodeCore/include/CounterStorage.h:118-122 | a finished commit leaves exactly the record in the slot and the rest of the image as it was |
| SetCountStore.DecodeEncode | node/lib/NodeCore/include/CounterStorage.h:36-72 | a result record decodes to itself |
| SetCountStore.AlteredByteRejected | node/lib/NodeCore/include/CounterStorage.h:56-72 | a record with exactly one altered byte, checksum included, is rejected |
| SetCountStore.SaveIsAtomic | node/lib/NodeCore/include/CounterStorage.h:106-127 | on any image, a save cut before its last update leaves the loaded record as it was; at the last it is the new one |
| SetCountStore.Store.Load | node/lib/NodeCore/include/CounterStorage.h:79-104 | the RAM fields and the value are what the two slots determine |
| SetCountStore.Store.Save | node/lib/NodeCore/include/CounterStorage.h:106-127 | issues exactly the specified update list and leaves its effect |
| CounterRing.SequenceOrder | node/lib/NodeCore/include/CounterStorage.h:137-143 | sequence order modulo 255 agrees with commit order inside half the range |
| CounterRing.LoadFindsLast | node/lib/NodeCore/include/CounterStorage.h:150-182 | the scan from slot 0 finds the last committed record, although the slot being overwritten is not invalidated |
| CounterRing.NextRecord | node/lib/NodeCore/include/CounterStorage.h:190-199 | record number i goes to slot i mod 32 with sequence i mod 255 |
| CounterRing.SaveIsAtomic | node/lib/NodeCore/include/CounterStorage.h:184-213 | a save is atomic at its sequence byte |
| CounterRing.SequenceByteChanges | node/lib/NodeCore/include/CounterStorage.h:201-207 | the sequence byte always changes its cell, so every commit is one physical write of it |
| CounterRing.RingIsRegister | node/lib/NodeCore/include/CounterStorage.h:145-222 | after any history of saves and cuts from a blank ring, loading returns the last committed count |
| CounterRing.WearIsLevel | node/lib/NodeCore/include/CounterStorage.h:201-207 | no sequence byte is written two times more often than another |
| CounterRing.Store.Load | node/lib/NodeCore/include/CounterStorage.h:150-182 | returns the ring's count and sets the RAM cursor to it |
| CounterRing.Store.LoadStep | node/lib/NodeCore/include/CounterStorage.h:155-167 | one turn of the scan |
| CounterRing.Store.Save | node/lib/NodeCore/include/CounterStorage.h:184-213 | issues exactly the specified updates, none for an equal count, and keeps the ring |
| CounterRing.Store.Append | node/lib/NodeCore/include/CounterStorage.h:190-212 | appends the record after the current one, sequence byte last |
| CounterRing.Store.WriteRecord | node/lib/NodeCore/include/CounterStorage.h:200-207 | four count bytes, then the sequence byte |
| SetCountJournal.RecoveryKeepsMeaning | node/lib/NodeCore/include/CounterStorage.h:240-245 | recovery, cut anywhere, never changes what the EEPROM means; once complete nothing is pending |
| SetCountJournal.ApplyIsAtomic | node/lib/NodeCore/include/CounterStorage.h:247-269 | an apply cut before its commit byte has no effect, cut later its whole effect |
| SetCountJournal.PulseIsAtomic | node/include/Profiles/CounterReedProfile.h:55-57 | a counted pulse is atomic over ring and journal |
| SetCountJournal.ForgetIsAtomic | node/lib/NodeCore/include/CounterStorage.h:271-280 | forgetting the command ID is atomic and keeps the count |
| SetCountJournal.FailedBootsKeepMeaning | node/lib/NodeCore/include/CounterStorage.h:240-245 | any number of interrupted recoveries keeps the meaning |
| SetCountJournal.JournalIsAtomic | node/lib/NodeCore/include/CounterStorage.h:240-288 | a cut apply followed by any number of cut recoveries and one complete one leaves the old count and record or the requested count with its record, and applying the same ID again writes nothing |
| SetCountJournal.Journal.Recover | node/lib/NodeCore/include/CounterStorage.h:240-245 | finishes an interrupted apply with exactly the specified updates |
| SetCountJournal.Journal.CompletePending | node/lib/NodeCore/include/CounterStorage.h:283-288 | count into the ring, then the applied record |
| SetCountJournal.Journal.ApplyCommand | node/lib/NodeCore/include/CounterStorage.h:247-269 | redelivery answers without a write; otherwise pending record, count, applied record |
| SetCountJournal.Journal.ForgetCommandIds | node/lib/NodeCore/include/CounterStorage.h:273-280 | clears the recorded ID unless there is none |
| PulseFilter.ConfirmedInput.Update | node/lib/NodeCore/include/ConfirmedInput.h:30-36 | the confirmed level changes exactly when a stable burst settles on the other level |
| PulseFilter.MinimumPhaseFilter.Update | node/lib/NodeCore/include/ConfirmedInput.h:52-68 | the fields follow the filter's transition and the change is reported |
| PulseFilter.FilterState | node/lib/NodeCore/include/ConfirmedInput.h:52-68 | what is pending is the run of contradicting samples, and since when |
| PulseFilter.FlipsOnThird | node/lib/NodeCore/include/ConfirmedInput.h:47-75 | on a 250 ms tick, across clock wrap, the 500 ms filter flips exactly on the third consecutive opposite sample |
| PulseFilter.LongPhaseAccepted | node/lib/NodeCore/include/ConfirmedInput.h:47-75 | a contact phase of at least 750 ms is accepted before it ends |
| PulseFilter.ShortPhaseIgnored | node/lib/NodeCore/include/ConfirmedInput.h:47-75 | a phase shorter than 500 ms never is |
| CounterProfile.Profile.PollSamples | node/include/Profiles/CounterReedProfile.h:44-62 | polled on the tick with any reads and debounce bursts, RAM and ring end with the old count plus the accepted rises of the confirmed levels, modulo 2^32 |
| CounterProfile.StepIsAtomic | node/include/Profiles/CounterReedProfile.h:35-110 | a pulse, command, new membership or boot, cut at any byte, has exactly its committed effect or none |
| CounterProfile.HistoryIsSerial | node/include/Profiles/CounterReedProfile.h:35-110 | after any history of them the EEPROM means the committed effects in order, and a running node's count is that |
| CounterProfile.Profile.Begin | node/include/Profiles/CounterReedProfile.h:35-42 | boot: loads the count and recovers the journal |
| CounterProfile.Profile.Poll | node/include/Profiles/CounterReedProfile.h:44-62 | counts and stores one pulse exactly on an accepted rise |
| CounterProfile.Profile.ApplyCommand | node/include/Profiles/CounterReedProfile.h:86-108 | SET_COUNT with four bytes is applied or answered again; anything else changes nothing |
| CounterProfile.Profile.CommissionedAnew | node/include/Profiles/CounterReedProfile.h:110 | a new membership forgets the recorded command ID |
| CounterProfile.RecordedIdIsDone | node/lib/NodeCore/include/CounterStorage.h:250-257 | a command with the recorded ID writes nothing, whatever it asks for |
| NetworkConfigStore.DecodeEncode | node/lib/NodeCore/include/NodeStorage.h:135-190 | a configuration decodes to itself |
| NetworkConfigStore.AlteredByteRejected | node/lib/NodeCore/include/NodeStorage.h:167-190 | a stored configuration with one altered byte is rejected |
| NetworkConfigStore.SaveIsAtomic | node/lib/NodeCore/include/NodeStorage.h:237-262 | a save is atomic at its last update and leaves the other slot alone |
| NetworkConfigStore.ResetCut | node/lib/NodeCore/include/NodeStorage.h:264-273 | what a reset cut after each of its four updates leaves in the slots |
| NetworkConfigStore.StepIsAtomic | node/lib/NodeCore/src/CommissioningService.cpp:66-71 | a cut save leaves the old or the new configuration, a cut reset the one there was or none |
| NetworkConfigStore.RunKeepsDiscipline | node/lib/NodeCore/src/CommissioningService.cpp:142-200 | over every run with cuts, slot A holds only provisional and slot B only active configurations, B the newer |
| NetworkConfigStore.UndisciplinedResetRevives | node/lib/NodeCore/include/NodeStorage.h:264-273 | without that discipline a cut reset could revive an older configuration |
| NetworkConfigStore.Store.Load | node/lib/NodeCore/include/NodeStorage.h:210-235 | returns what the two slots determine |
| NetworkConfigStore.Store.Save | node/lib/NodeCore/include/NodeStorage.h:237-262 | stamps the next generation and issues exactly the specified updates; refuses invalid IDs without a write |
| NetworkConfigStore.Store.FactoryReset | node/lib/NodeCore/include/NodeStorage.h:264-273 | four updates, after which nothing loads |
| FactoryCredentials.DecodeEncode | node/lib/NodeCore/include/NodeStorage.h:78-117 | every key but the all-zero one is stored and read back |
| FactoryCredentials.AlteredByteRejected | node/lib/NodeCore/include/NodeStorage.h:100-117 | a credential row with one altered byte, whichever, is rejected |
| DualSlotStore.StoreIsAtomic | shared/RadioProtocol/include/GatewayStorage.h:216-285 | over any run of saves, failures, cuts and boots, from any flash: load returns the last value that was written and verified, or one attempted since |
| DualSlotStore.AllowedSinceVerified | shared/RadioProtocol/include/GatewayStorage.h:257-275 | the values a boot may load are the last verified one and those attempted after it |
| DualSlotStore.SaveMatches | shared/RadioProtocol/include/GatewayStorage.h:257-275 | one save keeps RAM and flash in step, and a verified save is what loads next |
| DualSlotStore.SaveAnswers | shared/RadioProtocol/include/GatewayStorage.h:257-275 | of either variant and into either slot: when a save answers true, what it leaves in memory and in both slots, and that a false answer leaves memory alone |
| DualSlotStore.WrittenIsSaved | shared/RadioProtocol/include/GatewayStorage.h:257-275 | a value that encodes, written and read back without an error, is taken over: true is answered, memory holds it and the next boot loads it |
| DualSlotStore.WrittenIsSavedAfterRun | shared/RadioProtocol/include/GatewayStorage.h:257-275 | the same after any run of saves, failures, cuts and boots |
| DualSlotStore.BootMatches | shared/RadioProtocol/include/GatewayStorage.h:221-255 | a load sets RAM to the slot it chooses |
| DualSlotStore.SuccessorIsNewer | shared/RadioProtocol/src/RegistryPersistence.cpp:24-26 | serial-number order of 32-bit generations, across the wrap |
| DualSlotStore.SkippedSaveIsDurable | shared/RadioProtocol/include/GatewayStorage.h:258 | over any run, a save skipped for equality is durable exactly if the last attempt that reached its slot since the last boot or verified save did not leave a whole record there |
| DualSlotStore.DurableUntilFailure | shared/RadioProtocol/include/GatewayStorage.h:257-275 | while no save has returned false since the last boot or verified save, every save that returns true is durable |
| DualSlotStore.SkippedSaveCounterexample | shared/RadioProtocol/include/GatewayStorage.h:257-275 | the two-save run after which a save that returned true is not what loads |
| DualSlotStore.RegistrySaveIsDurable | shared/RadioProtocol/src/RegistryPersistence.cpp:207-229 | a registry save that reports success is durable exactly if the write happened, or did nothing and the target slot held that value with the next generation before |
| DualSlotStore.RegistryDurableUntilFailure | shared/RadioProtocol/src/RegistryPersistence.cpp:207-229 | while no save has returned false since the last boot or success, a registry save that returns true is durable, even if a reported write may not have happened |
| DualSlotStore.RegistryTrustsGeneration | shared/RadioProtocol/src/RegistryPersistence.cpp:212-225 | the registry's read-back compares the generation only: where a reported write may not have happened, an environment excluded elsewhere, the run that lets another value through |
| DualSlotStore.Store.Load | shared/RadioProtocol/include/GatewayStorage.h:221-255 | the loop over both slots, either of which may fail to be read, chooses the slot of the specification and reports loaded, empty or corrupt |
| DualSlotStore.LoadsWhatIsReadable | shared/RadioProtocol/include/GatewayStorage.h:228-240 | a boot that can read the slot it should choose loads it; one that cannot chooses another or none |
| DualSlotStore.Store.DoSave | shared/RadioProtocol/include/GatewayStorage.h:257-275 | flash, RAM and the answer are those of the specification for every outcome of write and read-back; a value that encodes, written and read back without an error, is taken over |
| Recovery.RestoreLeavesImage | gateway/src/BackupService.cpp:107-131 | a completed restore leaves exactly the image of its snapshot, whatever was there |
| Recovery.RestoreStopped | gateway/src/BackupService.cpp:107-131 | a restore stopped inside any operation shows an idle marker only before its first or after its last effect |
| Recovery.ResetStopped | gateway/src/RecoveryService.cpp:78-84 | the same for the boot that carries out a reset |
| Recovery.UnblockedStoresAreLegal | gateway/src/RecoveryService.cpp:29-139 | over any run with any number of cuts and errors, every unblocked boot finds legal contents |
| Recovery.RestoreIsAllOrNothing | gateway/src/BackupService.cpp:75-137 | those are the contents before the restore, all empty, or the complete image |
| Recovery.ResetUnblocks | gateway/src/RecoveryService.cpp:123-139 | a reset request and one uninterrupted boot lead from any blocked state to an unblocked empty one |
| Recovery.ImageLoadsSnapshot | gateway/src/BackupService.cpp:109-129 | for any faithful codecs, every store of the image loads the snapshot's value, also with two secrets of equal generation |
| RestoredInstallation.RestoredInstallationLoads | gateway/src/BackupService.cpp:75-137 | with the gateway's own codecs: a completed restore over any flash makes the next boot load exactly the snapshot's settings, secrets, accounts and registry, and an empty command book |
| RestoredInstallation.RestoredSystemStarts | gateway/src/CommandService.cpp:308-322 | after a restore the gateway starts with an empty book and a random next ID beside nodes with any command ID on record, and that is a start of the command protocol |
| RecoveryService.Service.Begin | gateway/src/RecoveryService.cpp:60-93 | boot is a step of the recovery system; it ends unblocked exactly if the marker can be read and was idle, or asked for a reset and all six operations of that succeed |
| RecoveryService.Service.EraseStores | gateway/src/RecoveryService.cpp:40-49 | the erase loop stops at the first failure |
| RecoveryService.Service.RequestFactoryReset | gateway/src/RecoveryService.cpp:123-139 | refused without a change while a backup or write is in progress; otherwise the marker is written and true answered exactly if that operation succeeds, a step of the system that leaves the gateway blocked |
| RecoveryService.Service.RestoreBackup | gateway/src/BackupService.cpp:75-137 | a restore is a step of the system, refused ones change nothing; it answers true and leaves the complete image exactly if all twelve flash operations succeed, and false only after one failed |
| Snapshots.HeaderRead | shared/RadioProtocol/src/GatewayStorage.cpp:90-111 | the header is read back with its generation |
| Snapshots.SealedIsIntact | shared/RadioProtocol/src/GatewayStorage.cpp:573-574 | a sealed snapshot passes its checksum |
| Snapshots.AlteredNotIntact | shared/RadioProtocol/src/GatewayStorage.cpp:98-111 | a snapshot with one altered byte, checksum included, does not |
| SettingsCodec.SnapshotRoundTrip | shared/RadioProtocol/src/GatewayStorage.cpp:305-350 | valid settings decode to themselves with their generation |
| SettingsCodec.OnlySpelling | shared/RadioProtocol/src/GatewayStorage.cpp:305-350 | whatever decodes is what encoding its settings writes |
| SettingsCodec.AlteredByteRejected | shared/RadioProtocol/src/GatewayStorage.cpp:327-350 | a snapshot with one altered byte is rejected |
| SettingsCodec.SettingsCodecIsFaithful | shared/RadioProtocol/src/GatewayStorage.cpp:305-350 | the codec meets the dual-slot store's one assumption |
| SettingsCodec.DefaultIsValid | shared/RadioProtocol/src/GatewayStorage.cpp:239-252 | the default settings can be stored |
| SecretsCodec.SnapshotRoundTrip | shared/RadioProtocol/src/GatewayStorage.cpp:441-475 | valid secrets decode to themselves with their generation |
| SecretsCodec.OnlySpelling | shared/RadioProtocol/src/GatewayStorage.cpp:441-475 | whatever decodes is what encoding its secrets writes |
| SecretsCodec.AlteredByteRejected | shared/RadioProtocol/src/GatewayStorage.cpp:459-475 | a snapshot with one altered byte is rejected |
| SecretsCodec.SecretsCodecIsFaithful | shared/RadioProtocol/src/GatewayStorage.cpp:441-475 | the codec meets the dual-slot store's one assumption |
| StoredLayouts.ResultLayout | node/lib/NodeCore/include/CounterStorage.h:36-54 | the place and byte order of every field of a result record |
| StoredLayouts.ConfigLayout | node/lib/NodeCore/include/NodeStorage.h:135-165 | of a network configuration |
| StoredLayouts.CredentialLayout | node/lib/NodeCore/include/NodeStorage.h:78-98 | of the factory credentials |
| StoredLayouts.HeaderLayout | shared/RadioProtocol/src/GatewayStorage.cpp:90-96 | of a snapshot header |
| StoredLayouts.CommandLayout | shared/RadioProtocol/src/GatewayStorage.cpp:557-575 | of a command record |
| StoredLayouts.NodeLayout | shared/RadioProtocol/src/RegistryPersistence.cpp:54-78 | of a node record |
| StoredLayouts.SettingsLayout | shared/RadioProtocol/src/GatewayStorage.cpp:305-325 | of the settings |
| StoredLayouts.SecretsLayout | shared/RadioProtocol/src/GatewayStorage.cpp:441-457 | of the secrets |
| StoredLayouts.UserLayout | shared/RadioProtocol/src/GatewayStorage.cpp:363-375 | of a user |
| StoredLayouts.TokenLayout | shared/RadioProtocol/src/GatewayStorage.cpp:376-386 | of a token |
| CommandBook.QueueValid | shared/RadioProtocol/src/CommandBook.cpp:41-85 | queueing keeps the book valid, refuses without a change, never drops another node's pending command, and finds no room only among 16 pending ones |
| CommandBook.CompleteValid | shared/RadioProtocol/src/CommandBook.cpp:87-116 | completing keeps the book valid and records the result |
| CommandBook.RemovalsValid | shared/RadioProtocol/src/CommandBook.cpp:118-136 | cancelling, removing and clearing keep the book valid |
| CommandBook.ReachableBook | shared/RadioProtocol/src/CommandBook.cpp:41-136 | every reachable book has at most one record a node, in issue order, with the IDs of that order |
| CommandBook.IdsDiffer | shared/RadioProtocol/src/CommandBook.cpp:81-83 | fewer than 65535 consecutive IDs are different, across the wrap that skips zero |
| BookMap.QueueMeaning | shared/RadioProtocol/src/CommandBook.cpp:41-85 | every status of queueing, the whole new record, and no other record changed except the oldest completed one of a full book |
| BookMap.CompleteMeaning | shared/RadioProtocol/src/CommandBook.cpp:87-116 | every status of completing; exactly the named pending record changes, once |
| BookMap.RemovalMeaning | shared/RadioProtocol/src/CommandBook.cpp:118-136 | cancel, remove and clear as changes of a map from nodes to records |
| CommandBookCodec.RecordRoundTrip | shared/RadioProtocol/src/GatewayStorage.cpp:557-602 | a record's 50 bytes decode to it |
| CommandBookCodec.BookRoundTrip | shared/RadioProtocol/src/GatewayStorage.cpp:548-612 | a valid book decodes to itself with its generation, zero tail included |
| CommandBookCodec.AlteredByteRejected | shared/RadioProtocol/src/GatewayStorage.cpp:578-612 | a snapshot with one altered byte is rejected |
| CommandBookCodec.CommandCodecIsFaithful | shared/RadioProtocol/src/GatewayStorage.cpp:548-612 | the codec meets the dual-slot store's one assumption |
| CommandTable.Table.IndexOfNode | shared/RadioProtocol/src/CommandBook.cpp:15-20 | the scan finds the node's first record |
| CommandTable.Table.EraseAt | shared/RadioProtocol/src/CommandBook.cpp:22-28 | the shift loop removes one record and blanks the freed cell |
| CommandTable.Table.MakePlace | shared/RadioProtocol/src/CommandBook.cpp:60-68 | a full book gives up its oldest completed record or reports no room |
| CommandTable.Table.DoQueue | shared/RadioProtocol/src/CommandBook.cpp:41-85 | the array ends as the specification's book |
| CommandTable.Table.DoComplete | shared/RadioProtocol/src/CommandBook.cpp:87-116 | the array ends as the specification's book |
| CommandTable.Table.DoCancel | shared/RadioProtocol/src/CommandBook.cpp:118-123 | the array ends as the specification's book |
| CommandTable.Table.DoRemoveNode | shared/RadioProtocol/src/CommandBook.cpp:125-130 | the array ends as the specification's book |
| CommandTable.Table.DoClear | shared/RadioProtocol/src/CommandBook.cpp:132-136 | every cell blank, the next ID kept |
| CommandTable.Table.CopyFrom | gateway/src/CommandService.cpp:261 | the candidate is a full copy of the book |
| CommandService.Server.Begin | gateway/src/CommandService.cpp:308-330 | boot loads the book or starts IDs at a random one, and publishes |
| CommandService.Server.CommitCandidate | gateway/src/CommandService.cpp:132-138 | book and bitmap change only with a successful save |
| CommandService.PublishedWords | gateway/src/CommandService.cpp:115-126 | the bit loop marks exactly the nodes with a pending record |
| CommandService.Server.PublishLockFreeView | gateway/src/CommandService.cpp:115-130 | the published bitmap answers for the book |
| CommandService.Server.HasPending | gateway/src/CommandService.cpp:341-349 | answers exactly as a scan for a pending record would |
| CommandService.FoundPending | gateway/src/CommandService.cpp:163-178 | in a valid book the bitmap decides like the node's record |
| CommandService.ReadyMeaning | gateway/src/CommandService.cpp:153-201 | in a valid book a listening node is sent the pending command of its device, with its ID, type and all arguments, exactly if there is one, and that delivery is remembered; otherwise it is told there is none and nothing changes |
| CommandService.ResultMeaning | gateway/src/CommandService.cpp:233-287 | a result is taken exactly if it answers the remembered delivery and names the pending command of the device with a fitting status and size: that record alone is then completed with status, data and time, always if flash meets no error |
| CommandService.QueueAnswers | gateway/src/CommandService.cpp:351-394 | every answer to a command to be queued, each exactly when; without a flash error never a storage error |
| CommandService.QueueLeaves | gateway/src/CommandService.cpp:351-394 | a queued command leaves its whole record and no delivery, any other answer leaves book and deliveries alone |
| CommandService.CancelAnswers | gateway/src/CommandService.cpp:396-406 | a cancellation succeeds, without a flash error, exactly if a command is pending; that node's record is gone and nothing else |
| CommandService.RemoveAnswers | gateway/src/CommandService.cpp:408-416 | a removal succeeds, without a flash error, exactly if the node has a record; its record and delivery are gone and nothing else |
| CommandService.ClearAnswers | gateway/src/CommandService.cpp:418-427 | clearing succeeds without a flash error and leaves no record and no delivery, but the next ID |
| CommandService.Server.HandleCommandReady | gateway/src/CommandService.cpp:153-201 | delivers the pending command of the registered device, whole, exactly if there is one, and remembers the session |
| CommandService.Server.HandleCommandResult | gateway/src/CommandService.cpp:233-287 | a result of the latest delivery that fits completes its command, after the registry took a reported identity; any other changes nothing |
| CommandService.Server.QueueForNode | gateway/src/CommandService.cpp:351-394 | queues through a saved candidate and forgets the older delivery |
| CommandService.Server.CancelForNode | gateway/src/CommandService.cpp:396-406 | cancels through a saved candidate; refused without a change while storage is guarded or blocked |
| CommandService.Server.RemoveForNode | gateway/src/CommandService.cpp:408-416 | removes through a saved candidate and forgets the delivery; refused without a change while storage is guarded or blocked |
| CommandService.Server.ClearAll | gateway/src/CommandService.cpp:418-427 | clears through a saved candidate and forgets every delivery; refused without a change while storage is guarded or blocked |
| ExactlyOnce.RunKeepsInv | node/lib/NodeCore/include/NodeRuntime.h:250-314 | the invariant of the whole command protocol over every run |
| ExactlyOnce.ExactlyOnceTheorem | gateway/src/CommandService.cpp:153-287 | from nodes with any command ID on record, over runs of any length with lost, duplicated and reordered frames, cuts at any byte, gateway reboots and registry changes, in which a node receives each SET_COUNT fewer than 65535 issues after the one it applied last, and the first one not with the ID on record: no issued command is applied twice, their issue positions only grow, each has its own argument and the count just before it |
| ExactlyOnce.LostExactlyIfOnRecord | node/lib/NodeCore/include/CounterStorage.h:247-269 | in every such run: a received SET_COUNT is applied, if the supply survives its commit byte, exactly if its ID is not the one on record; with that ID it changes nothing and is answered as applied; before the first one the ID on record is the one the node started with |
| ExactlyOnce.CompletedMeansApplied | gateway/src/CommandService.cpp:233-287 | if moreover no session is answered with commands 65535 issues apart, a record of the book is its node's latest command, and one shown completed and applied has the result of the one application of that very command |
| ExactlyOnce.AppliedOnce | node/lib/NodeCore/include/CounterStorage.h:247-257 | a history that follows the issue order applies the command of each issue position at most once |
| ExactlyOnce.AppliedFaithfully | node/lib/NodeCore/include/CounterStorage.h:247-269 | an applied command has its issued argument and the count just before it |
| ExactlyOnce.RunInTurn | shared/RadioProtocol/src/CommandBook.cpp:81-83 | over every run the book's IDs follow the issue order |
| ExactlyOnce.CloseRunsQualify | shared/RadioProtocol/src/CommandBook.cpp:81-83 | runs whose commands to one node all lie fewer than 65535 issues apart, none with the ID that node started with on record, meet both hypotheses |
| ExactlyOnce.UnmarkedHaveNone | shared/RadioProtocol/src/CommandBook.cpp:81-83 | nodes that start without a command ID on record never get such a command |
| ExactlyOnce.ReusedIdIsLost | node/lib/NodeCore/include/CounterStorage.h:250-257 | the first hypothesis is needed: a reused ID is answered as applied without changing the count |
| ExactlyOnce.StaleResultCompletes | gateway/src/CommandService.cpp:233-287 | so is the second: a result with nonce and ID of the latest delivery completes the pending command, whichever command it answers |
| CommandProgress.SessionSettles | node/lib/NodeCore/include/NodeRuntime.h:250-314 | after any such run, a pending SET_COUNT whose node listens is settled by four events: the node has its count and record, unless the ID was on record, and the book shows it completed with exactly the node's result |
| CommandProgress.Delivered | gateway/src/CommandService.cpp:153-201 | a session and its answer: the pending command is on the air, whole, and is the delivery remembered |
| CommandProgress.CarriedOut | node/lib/NodeCore/include/NodeRuntime.h:275-314 | the node applies it, or finds it on record, and answers with the count before and after |
| CommandProgress.Taken | gateway/src/CommandService.cpp:233-287 | the gateway takes that answer and shows it |
| MembershipChange.RoundIsAtomic | node/lib/NodeCore/include/NodeRuntime.h:104-107 | one round of the main loop, cut after any byte update of the join or of the forgetting: when the membership is active, when the command ID is still recorded, and that both hold exactly if an ID was recorded and the cut falls from the last update of the join to before the last of the forgetting |
| MembershipChange.StaleExactlyIfInterrupted | node/lib/NodeCore/include/NodeRuntime.h:80-113 | over every run of rounds, resets, pulses, commands and boots, all cut anywhere: an active node has a command ID of an earlier membership on record exactly if its activation was interrupted there |
| MembershipChange.StaleIsKept | node/lib/NodeCore/include/NodeRuntime.h:80-113 | no boot, pulse or repeated command forgets such an ID |
| MembershipChange.StaleCommandIsLost | node/lib/NodeCore/include/CounterStorage.h:250-257 | a new command that carries it changes nothing |
| MembershipChange.LifeLosesACommand | node/lib/NodeCore/include/NodeRuntime.h:104-107 | from a factory-new EEPROM, the six-event life after which the new gateway's command is answered as applied and lost |
| MembershipChange.Runtime.CommissionIfDue | node/lib/NodeCore/include/NodeRuntime.h:104-107 | the turn of the loop issues exactly the updates of that round and keeps both halves in step with their one EEPROM |
| Nonces.CreateNonce | node/lib/NodeCore/src/CommissioningService.cpp:80-89 | the loop computes the mixture of clock and UID on 32-bit words |
| Nonces.NonceRepeatsWithClock | node/lib/NodeCore/src/CommissioningService.cpp:80-89 | two nonces of a device are equal exactly if the clock showed the same value |
| Nonces.FreshExactlyIfClockIs | node/lib/NodeCore/src/CommissioningService.cpp:80-89 | a nonce is unused exactly if the clock shows a value it showed at none of the earlier ones |
| Utf8.ValidatorsAreExact | shared/RadioProtocol/src/NodeRegistry.cpp:10-48 | the name validator accepts exactly the encodings of scalar values without controls, the text validator the same with C1 |
| Utf8.NamesAreTexts | shared/RadioProtocol/src/GatewayStorage.cpp:41-65 | every valid name is a valid text |
| Utf8.ReadContinuation | shared/RadioProtocol/src/NodeRegistry.cpp:33-37 | the continuation loop accumulates six bits a byte |
| Utf8.CheckDisplayName | shared/RadioProtocol/src/NodeRegistry.cpp:10-48 | the loop decides membership in the language of at most 48 bytes |
| Utf8.CheckUtf8 | shared/RadioProtocol/src/GatewayStorage.cpp:41-65 | the loop decides membership in the language |
| NodeRegistry.FreeIdExists | shared/RadioProtocol/src/NodeRegistry.cpp:108-115 | 64 records always leave one of 99 IDs free |
| NodeRegistry.ReserveGood | shared/RadioProtocol/src/NodeRegistry.cpp:117-166 | reserving keeps the registry good; a new record has the smallest free ID and an empty name; full exactly at 64 records |
| NodeRegistry.ConfirmGood | shared/RadioProtocol/src/NodeRegistry.cpp:168-191 | confirming keeps the registry good |
| NodeRegistry.DisableGood | shared/RadioProtocol/src/NodeRegistry.cpp:193-201 | disabling keeps the registry good |
| NodeRegistry.RemoveGood | shared/RadioProtocol/src/NodeRegistry.cpp:203-214 | removing keeps the registry good and every other record |
| NodeRegistry.RenameGood | shared/RadioProtocol/src/NodeRegistry.cpp:216-229 | renaming keeps the registry good |
| NodeRegistry.PolicyGood | shared/RadioProtocol/src/NodeRegistry.cpp:231-243 | setting a policy keeps the registry good |
| NodeRegistry.InfoGood | shared/RadioProtocol/src/NodeRegistry.cpp:245-266 | updating the identity keeps the registry good |
| NodeRegistry.RestoreLive | shared/RadioProtocol/src/NodeRegistry.cpp:268-301 | restoring a registry's records gives it back, blank tail included |
| NodeRegistry.RunGood | shared/RadioProtocol/src/NodeRegistry.cpp:117-301 | any run of operations on decoded frames keeps the registry as good as it was, also one loaded from flash |
| NodeRegistry.ReachableIsGood | shared/RadioProtocol/src/NodeRegistry.cpp:117-301 | every registry reached from the empty one has unique UIDs and IDs in 1..99, fixed levels within the ceiling and an all-blank tail |
| RegistryMap.FoundAt | shared/RadioProtocol/src/NodeRegistry.cpp:80-96 | every record is found by its ID and by its UID |
| RegistryMap.ReserveKnown | shared/RadioProtocol/src/NodeRegistry.cpp:122-145 | a known UID: every status, and exactly what a repeated request changes |
| RegistryMap.ReserveNew | shared/RadioProtocol/src/NodeRegistry.cpp:146-166 | a new UID: the whole new record, nothing else changed |
| RegistryMap.ConfirmMeaning | shared/RadioProtocol/src/NodeRegistry.cpp:168-191 | every status of confirming; exactly the named pending record becomes active |
| RegistryMap.DisableMeaning | shared/RadioProtocol/src/NodeRegistry.cpp:193-201 | exactly the named record is disabled and loses its nonce |
| RegistryMap.RemoveMeaning | shared/RadioProtocol/src/NodeRegistry.cpp:203-214 | exactly the named ID disappears |
| RegistryMap.RenameMeaning | shared/RadioProtocol/src/NodeRegistry.cpp:216-229 | every status of renaming; the name is stored zero padded |
| RegistryMap.PolicyMeaning | shared/RadioProtocol/src/NodeRegistry.cpp:231-243 | a policy is taken exactly if automatic or within the ceiling |
| RegistryMap.InfoMeaning | shared/RadioProtocol/src/NodeRegistry.cpp:245-266 | the reported identity replaces the stored one; a level above a lowered ceiling returns to automatic |
| NodeTable.Table.FindByUid | shared/RadioProtocol/src/NodeRegistry.cpp:80-87 | the scan finds the first record of a UID |
| NodeTable.Table.FindByNodeId | shared/RadioProtocol/src/NodeRegistry.cpp:89-96 | the scan finds the first record of an ID |
| NodeTable.Table.AllocateId | shared/RadioProtocol/src/NodeRegistry.cpp:108-115 | the loop finds the smallest free ID |
| NodeTable.Table.DoReserve | shared/RadioProtocol/src/NodeRegistry.cpp:117-166 | the array ends as the specification's registry |
| NodeTable.Table.DoConfirm | shared/RadioProtocol/src/NodeRegistry.cpp:168-191 | the array ends as the specification's registry |
| NodeTable.Table.DoDisable | shared/RadioProtocol/src/NodeRegistry.cpp:193-201 | the array ends as the specification's registry |
| NodeTable.Table.DoRemove | shared/RadioProtocol/src/NodeRegistry.cpp:203-214 | the array ends as the specification's registry |
| NodeTable.Table.DoRename | shared/RadioProtocol/src/NodeRegistry.cpp:216-229 | the array ends as the specification's registry |
| NodeTable.Table.DoSetPowerPolicy | shared/RadioProtocol/src/NodeRegistry.cpp:231-243 | the array ends as the specification's registry |
| NodeTable.Table.DoUpdateInfo | shared/RadioProtocol/src/NodeRegistry.cpp:245-266 | the array ends as the specification's registry |
| NodeTable.Table.DoRestore | shared/RadioProtocol/src/NodeRegistry.cpp:268-301 | accepts exactly valid duplicate-free lists and blanks the rest; a refused list changes nothing |
| NodeTable.Table.CopyFrom | gateway/src/NodeRegistryStore.cpp:269-270 | a candidate is a full copy |
| RegistryCodec.RecordRoundTrip | shared/RadioProtocol/src/RegistryPersistence.cpp:54-135 | a record's 72 bytes decode to it |
| RegistryCodec.SnapshotRoundTrip | shared/RadioProtocol/src/RegistryPersistence.cpp:30-142 | a registry decodes to itself with its generation, blank tail included |
| RegistryCodec.AlteredByteRejected | shared/RadioProtocol/src/RegistryPersistence.cpp:80-142 | a snapshot with one altered byte is rejected |
| RegistryCodec.RegistryCodecIsFaithful | shared/RadioProtocol/src/RegistryPersistence.cpp:30-142 | the codec meets the dual-slot store's one assumption |
| RegistryCodec.DecodedIsGood | shared/RadioProtocol/src/RegistryPersistence.cpp:111-141 | a decoded registry has unique IDs and UIDs and a blank tail; it is as good as a reachable one exactly if every record has its policy at most one above its ceiling and zeros after its name |
| RegistryCodec.UncheckedFieldsLoad | shared/RadioProtocol/src/NodeRegistry.cpp:268-301 | a registry with a fixed level over its ceiling, and one with a byte after the end of its name, are stored and load again |
| RegistryService.UnchangedUnlessAsked | gateway/src/NodeRegistryStore.cpp:276-282 | an operation whose status asks for no save changed nothing |
| RegistryService.ChangeKeeps | gateway/src/NodeRegistryStore.cpp:102-129 | a change that reports success is what the next boot loads; a failed one leaves memory as it was |
| RegistryService.ChangeAnswers | gateway/src/NodeRegistryStore.cpp:102-129 | every answer to a change, each exactly when, and what it leaves; without a flash error never a storage error |
| RegistryService.ChangeTakesEffect | gateway/src/NodeRegistryStore.cpp:317-442 | without a flash error, after removing, disabling, renaming, a new policy, a new identity or clearing, every record is as that operation wants it and no other differs |
| RegistryService.Server.Begin | gateway/src/NodeRegistryStore.cpp:149-169 | boot loads the registry and publishes |
| RegistryService.Server.CommitCandidate | gateway/src/NodeRegistryStore.cpp:102-129 | registry and bitmap change only with a successful save |
| RegistryService.PublishedWords | gateway/src/NodeRegistryStore.cpp:87-95 | the bit loop marks exactly the active nodes |
| RegistryService.Server.IsActiveNode | gateway/src/NodeRegistryStore.cpp:185-193 | answers exactly as a scan for an active record would |
| RegistryService.Server.ReserveAndSave | gateway/src/NodeRegistryStore.cpp:262-288 | reserves on a copy and commits it |
| RegistryService.Server.ConfirmAndSave | gateway/src/NodeRegistryStore.cpp:290-315 | confirms on a copy and commits it |
| RegistryService.Server.Change | gateway/src/NodeRegistryStore.cpp:317-442 | the same for every other operation |
| CommissioningGateway.Coordinator.Open | gateway/src/CommissioningService.cpp:243-258 | pairing is opened for one device or not at all |
| CommissioningGateway.Coordinator.Close | gateway/src/CommissioningService.cpp:260-264 | no device is expected any more |
| CommissioningGateway.RequestMeaning | gateway/src/CommissioningService.cpp:71-148 | a request is accepted exactly if pairing expects that device now, its record is pending or there is room for a new one, the installation has a key, and the record was saved, which it is if flash meets no error; every field of the accept, the record it names, and the transaction after it |
| CommissioningGateway.ConfirmMeaningHere | gateway/src/CommissioningService.cpp:150-205 | a confirm is answered, with itself, exactly if its UID, sender and nonce name a pending record that was then saved as active, or one already active; the transaction after it |
| CommissioningGateway.WindowLasts | gateway/src/CommissioningService.cpp:222-226 | the confirm window lasts five seconds from the accept, across clock wrap |
| CommissioningGateway.Coordinator.HandleJoinRequest | gateway/src/CommissioningService.cpp:71-148 | registry, answer and transaction state are those of the specification; accepts exactly if it may |
| CommissioningGateway.Coordinator.HandleJoinConfirm | gateway/src/CommissioningService.cpp:150-205 | registry, answer and transaction state are those of the specification; a lost complete is sent again |
| CommissioningGateway.Coordinator.Poll | gateway/src/CommissioningService.cpp:222-226 | the confirm window closes at its deadline, across clock wrap |
| CommissioningNode.RoundMeaning | node/lib/NodeCore/src/CommissioningService.cpp:98-208 | a round stores the accept that answers its request field by field, keeps every field of a stored membership, and makes it active exactly if a matching complete came |
| CommissioningNode.Service.constructor | node/lib/NodeCore/src/CommissioningService.cpp:25-27 | the configuration in memory is the stored one |
| CommissioningNode.Service.Active | node/lib/NodeCore/src/CommissioningService.cpp:53-56 | active exactly if the stored configuration is |
| CommissioningNode.Service.ResetNetwork | node/lib/NodeCore/src/CommissioningService.cpp:66-71 | clears the membership, if the factory key is valid |
| CommissioningNode.Service.Advance | node/lib/NodeCore/src/CommissioningService.cpp:91-96 | one round issues exactly the specified updates, stores node ID, gateway ID, network, key and nonce of the accept, and reports whether the node is active |
| CommissioningNode.Service.RequestJoin | node/lib/NodeCore/src/CommissioningService.cpp:98-162 | stores only an accept that answers this request, each of its fields |
| CommissioningNode.Service.ConfirmJoin | node/lib/NodeCore/src/CommissioningService.cpp:164-208 | up to three windows; the first matching complete makes the membership active |
| CommissioningNode.AdvanceCut | node/lib/NodeCore/src/CommissioningService.cpp:142-200 | a cut round leaves what one or two cut store events leave |
| CommissioningSafety.RunKeepsInv | gateway/src/CommissioningService.cpp:71-205 | the invariant of the handshake over every run |
| CommissioningSafety.HistoryIsHonest | node/lib/NodeCore/src/CommissioningService.cpp:142-156 | a membership counts as provisioned when its own EEPROM holds it, as committed when the gateway's flash loads it as active |
| CommissioningSafety.AcceptIsDurable | gateway/src/CommissioningService.cpp:91-142 | an accept names a pending record that the next boot would load, with its ID and nonce |
| CommissioningSafety.CompleteOk | gateway/src/CommissioningService.cpp:160-191 | a complete is sent only for a membership stored by its node and durably active |
| CommissioningSafety.ActiveOnlyIfProvisioned | gateway/src/CommissioningService.cpp:160-178 | a record is active only after that device stored a provisional configuration with the same ID and nonce |
| CommissioningSafety.NodeActiveOnlyIfCommitted | node/lib/NodeCore/src/CommissioningService.cpp:189-200 | a node is active only after the gateway durably held its record as active |
| CommissioningSafety.RunLosesNothing | shared/RadioProtocol/src/NodeRegistry.cpp:117-191 | while no record is deleted, every registry a boot may load keeps every committed membership |
| CommissioningSafety.ActiveNodesDiffer | shared/RadioProtocol/src/NodeRegistry.cpp:117-191 | while no record is deleted, no two active nodes share a node ID |
| CommissioningSafety.NodesHaveInstallation | node/lib/NodeCore/src/CommissioningService.cpp:142-156 | over every run of a gateway of one installation, every membership a node holds has that network and key |
| CommissioningProgress.HandshakeSucceeds | node/lib/NodeCore/src/CommissioningService.cpp:91-208 | from any reachable state in which pairing expects a new or pending device without a membership, six events make it an active node with the network and key of the installation, under an active record with its UID, ID and nonce |
| CommissioningProgress.RequestSucceeds | gateway/src/CommissioningService.cpp:71-148 | the first three of them: the record is reserved and the accept stored |
| CommissioningProgress.ConfirmSucceeds | gateway/src/CommissioningService.cpp:150-205 | a provisional node whose record is pending, or active already because the answer was lost, becomes active in three events |
| PowerControl.SumNeverOverflows | shared/RadioProtocol/include/RadioPowerControl.h:81-133 | over any history the RSSI sum stays inside 32 bits and a wanted level within its ceiling |
| PowerControl.DecisionOfHistory | shared/RadioProtocol/include/RadioPowerControl.h:89-131 | from the inputs alone: at the end of three or more automatic reports of one level, it asks for three levels less or six more if the first 255 of them average outside the window, inside it for what it asked before or, in a fallback, for the reported level, always within floor and ceiling |
| PowerControl.TargetIsKept | shared/RadioProtocol/include/RadioPowerControl.h:93-106 | over the first two reports of a new level the level asked for before them is still asked for |
| PowerControl.EqualReports | shared/RadioProtocol/include/RadioPowerControl.h:89-132 | so many equal reports inside the window, and the controller state they lead to |
| PowerControl.KnowsLastReport | shared/RadioProtocol/include/RadioPowerControl.h:98-100 | after any history the controller knows the level and fallback flag of the latest report |
| PowerControl.FloorIsLastFailure | shared/RadioProtocol/include/RadioPowerControl.h:84-88 | after any history of reports and policy changes the floor is three levels above the level that failed last, as far as the ceiling of that report allowed, and zero if none did |
| PowerControl.AverageIsOfStretch | shared/RadioProtocol/include/RadioPowerControl.h:89-104 | after any history what is averaged are the first 255 reports since the level or policy last changed |
| PowerControl.ObserveSteady | shared/RadioProtocol/include/RadioPowerControl.h:81-133 | on a constant link the truncated average is exactly the link's RSSI, and the decision follows it |
| PowerControl.NoOvershoot | shared/RadioProtocol/include/RadioPowerControl.h:29-36 | a decision's result does not call it back |
| PowerControl.SettledIsFixed | shared/RadioProtocol/include/RadioPowerControl.h:112-130 | the levels a decision leaves alone are exactly the settled ones |
| PowerControl.RoundConsistent | node/lib/NodeCore/include/RadioPowerState.h:31-49 | one report, heard or lost, acknowledged or not, keeps node and controller consistent |
| PowerControl.LoopConverges | gateway/src/PowerControlService.cpp:44-85 | from a controller that has averaged only this link: after 47 acknowledged reports among any others the node is and stays at a settled level |
| PowerLinkChange.FittingApproaches | gateway/src/PowerControlService.cpp:44-85 | one round: a measure over the two interleaved courses of the level never grows, and every acknowledged report lowers it |
| PowerLinkChange.ArrivesAfterChange | gateway/src/PowerControlService.cpp:44-85 | whatever the controller averaged before: once the level has changed, 187 more acknowledged reports bring the node to a settled level for good |
| PowerLinkChange.ArrivesExactlyIfNoticed | shared/RadioProtocol/include/RadioPowerControl.h:101-132 | a node at the level wanted of it when the link changes, whatever was averaged before, reaches a level that suits the new link exactly if its own does anyway or some average from the third to the 255th report calls for a move; otherwise it stays |
| PowerLinkChange.UnnoticedAtEnds | shared/RadioProtocol/include/RadioPowerControl.h:101-131 | none does exactly if the first and the last of these averages do not |
| PowerLinkChange.FrozenNodeStaysWeak | shared/RadioProtocol/include/RadioPowerControl.h:101-104 | after a run of 255 reports at -80 dBm a node stays at its level though the link has lost 20 dB |
| PowerControl.NeverReverses | gateway/src/PowerControlService.cpp:44-85 | once risen the level never falls again, once fallen it never rises |
| PowerControl.SteepLinkOscillates | shared/RadioProtocol/include/RadioPowerControl.h:29-36 | with 12 dB between levels the loop can oscillate |
| PowerControl.RoundAboveFloor | gateway/src/PowerControlService.cpp:77-80 | one report of any kind keeps the node and the wanted level above the floor |
| PowerControl.FloorNeverCrossed | shared/RadioProtocol/include/RadioPowerControl.h:37-39 | over any losses, fallbacks and links the node never goes back below the raised floor |
| PowerControl.NodeFollows | node/lib/NodeCore/include/RadioPowerState.h:31-49 | what a node does after each round of any run: it falls back to the ceiling exactly with the third or a later round in a row without acknowledgement while below it, and takes the level an acknowledgement carries |
| PowerControl.FallsBackExactly | node/lib/NodeCore/include/RadioPowerState.h:42-49 | a run has no fallback exactly if no round is the third in a row without acknowledgement while the node is below its ceiling |
| PowerControl.UnguardedTargetCrosses | gateway/src/PowerControlService.cpp:26-30 | an acknowledgement carrying the older target would, so the guard is needed |
| PowerControlService.Service.Observe | gateway/src/PowerControlService.cpp:44-65 | one node's controller, wanted level and fallback flag change together |
| PowerControlService.Service.PolicyChanged | gateway/src/PowerControlService.cpp:67-73 | publishes the new level, or none |
| PowerControlService.Service.TargetFor | gateway/src/PowerControlService.cpp:75-85 | when an acknowledgement carries a target, and which |
| PowerControlService.Service.Forget | gateway/src/PowerControlService.cpp:93-100 | one node starts over |
| PowerControlService.Service.Clear | gateway/src/PowerControlService.cpp:102-106 | every node starts over |
| UserTable.CreateKeepsValid | shared/RadioProtocol/src/UserManagement.cpp:67-92 | a created user leaves a valid table, is stored whole, and has an ID above every earlier one; refusals change nothing |
| UserTable.UpdateKeepsValid | shared/RadioProtocol/src/UserManagement.cpp:94-117 | an update changes exactly its user, ID and order kept; refusals change nothing |
| UserTable.RemoveKeepsValid | shared/RadioProtocol/src/UserManagement.cpp:119-131 | a removal leaves a valid table without that user; refusals change nothing |
| UserTable.RemovalKeepsAdmin | shared/RadioProtocol/src/UserManagement.cpp:119-131 | a removal is refused for the administrator rule exactly when no other user is an enabled administrator |
| UserTable.UpdateKeepsAdmin | shared/RadioProtocol/src/UserManagement.cpp:94-117 | an otherwise valid update is refused for it exactly when no other user is one and this one does not remain one |
| UserTable.CreateAnswers | shared/RadioProtocol/src/UserManagement.cpp:67-92 | every answer to a creation, each exactly when |
| UserTable.UpdateAnswers | shared/RadioProtocol/src/UserManagement.cpp:94-117 | every answer to an update, each exactly when |
| UserTable.RemoveAnswers | shared/RadioProtocol/src/UserManagement.cpp:119-131 | every answer to a removal, each exactly when; the remaining users keep their order |
| UserTable.IdsAreNeverReused | shared/RadioProtocol/src/UserManagement.cpp:67-131 | over any run the table stays valid and no ID is handed out twice |
| UserTable.DefaultIsValid | shared/RadioProtocol/src/GatewayStorage.cpp:254-259 | the default data are valid |
| UserTable.Table.FindId | shared/RadioProtocol/src/UserManagement.cpp:101-103 | the scan finds the user of an ID |
| UserTable.Table.NameExists | shared/RadioProtocol/src/UserManagement.cpp:20-29 | the scan decides whether another user has the name |
| UserTable.Table.AdminRemains | shared/RadioProtocol/src/UserManagement.cpp:31-37 | the scan decides whether an enabled administrator remains |
| UserTable.Table.Add | shared/RadioProtocol/src/UserManagement.cpp:67-92 | the table ends as the specification's |
| UserTable.Table.Edit | shared/RadioProtocol/src/UserManagement.cpp:94-117 | the table ends as the specification's |
| UserTable.Table.Delete | shared/RadioProtocol/src/UserManagement.cpp:119-131 | the table ends as the specification's |
| UserTable.Table.EraseAt | shared/RadioProtocol/src/UserManagement.cpp:124-127 | the shift loop closes the gap and zeroes the freed cell |
| AuthenticationCodec.UserRoundTrip | shared/RadioProtocol/src/GatewayStorage.cpp:363-417 | a user's 92 bytes decode to it |
| AuthenticationCodec.TokenRoundTrip | shared/RadioProtocol/src/GatewayStorage.cpp:376-432 | a token's 80 bytes decode to it |
| AuthenticationCodec.SnapshotRoundTrip | shared/RadioProtocol/src/GatewayStorage.cpp:352-439 | valid accounts and tokens decode to themselves, zero-filled unused cells included |
| AuthenticationCodec.AlteredByteRejected | shared/RadioProtocol/src/GatewayStorage.cpp:391-439 | a snapshot with one altered byte is rejected |
| AuthenticationCodec.AuthenticationCodecIsFaithful | shared/RadioProtocol/src/GatewayStorage.cpp:352-439 | the codec meets the dual-slot store's one assumption |
| AuthenticationCodec.OperationsStayStorable | shared/RadioProtocol/src/UserManagement.cpp:67-131 | after any account operation the snapshot still encodes and decodes back |
| Base64Url.CharactersMatch | gateway/src/AuthenticationService.cpp:86-93 | alphabet and character decoder are inverse |
| Base64Url.EncodingUnique | gateway/src/AuthenticationService.cpp:55-84 | a value has one encoding |
| Base64Url.EncodedUnique | gateway/src/AuthenticationService.cpp:95-114 | a text encodes one value |
| Base64Url.EncodeBase64Url | gateway/src/AuthenticationService.cpp:55-84 | the loop's output spells the input's number with zero filling bits, for every length |
| Base64Url.CharacterStep | gateway/src/AuthenticationService.cpp:100-112 | one character keeps number = bytes and pending bits; the accumulator stays below 2^12 |
| Base64Url.DecodeApiToken | gateway/src/AuthenticationService.cpp:95-114 | accepts exactly the 43-character texts with zero last bits, and returns the value they encode |
| Base64Url.RoundTrips | gateway/src/AuthenticationService.cpp:55-114 | encoder and decoder are mutual inverses, so each value has exactly one accepted spelling |
| SectorWriter.ErasedTakesAnything | gateway/src/UpdateService.cpp:278-281 | a byte written over erased flash is stored as it is |
| SectorWriter.WriteAll | gateway/src/UpdateService.cpp:289-302 | writes any chunks; without a flash error it succeeds exactly if they fit the partition |
| SectorWriter.ChunkingIsIrrelevant | gateway/src/UpdateService.cpp:289-302 | two runs of the writer over equal partitions with one stream split in two ways leave the same flash, buffer rest and hashed data, and without a flash error the same answer |
| SectorWriter.UiWriter.CommitSector | gateway/src/UpdateService.cpp:273-287 | the sector ends as the buffer, whether skipped, erased or written; other sectors are untouched |
| SectorWriter.UiWriter.WriteUiImage | gateway/src/UpdateService.cpp:289-302 | any chunk extends the stream; below the offset flash equals it, above it is untouched; refused only on overflow or a flash error |
| SectorWriter.UiWriter.Take | gateway/src/UpdateService.cpp:294-299 | one turn of the chunk loop |
| SectorWriter.InstallUi | gateway/src/UpdateService.cpp:309-351 | success means the whole partition is the stream and has the signed hash; without a flash error every answer is that of size, stream and hash |

## Left out

- Radio hardware, SPI, interrupts, tasks, sleep and watchdog: the radio is a set of frames,
  time an input, each locked section one step.
- Web server, web user interface, network services, the HTTP download and OTA firmware: input and output over
  libraries that are not part of this model.
- AES, PBKDF2, SHA-256, signatures, inflation and JSON: a hash is a function parameter, a
  backup snapshot the encodings of its parts.
- Creating and revoking API tokens, sessions and password checks.
- Frame byte layouts: frames are the values their decoders deliver, with the checks the decoders make.
- Encoders and decoders work on byte sequences, not on offsets in a caller's buffer, so
  buffer capacity errors do not appear.
- Report scheduling, retry backoff, telemetry, sessions, buttons, counters, logging and indicator lights.
- SetCountJournal.Journal.ApplyCommand: does not model the storage failure answer, because no store it uses can fail
  to encode.
- DualSlotStore.StoreIsAtomic: assumes that a failed or cut write leaves its slot old, undecodable or fully new, and
  for the registry that a write reported as successful happened; takes equality of values for the `Equal` parameter,
  which on the zero-tailed values a store holds is the same. A boot never suffers a failed read of a slot that
  holds a record; what one would load is said by `DualSlotStore.LoadsWhatIsReadable`.
- ExactlyOnce.ExactlyOnceTheorem: excludes new memberships during a run, since they start a new space of IDs, and
  a restore during a run; after a restore a new run starts. A node ID stands for one device throughout a run.
- MembershipChange.StaleExactlyIfInterrupted: takes what the radio delivers in a round as an input; how it comes about
  is the business of `CommissioningSafety`.
- CommissioningSafety.RunKeepsInv: excludes restoring a backup during a run and frames forged by others than the
  nodes and the gateway; any node may hear any frame, so radio addresses, network IDs and keys play no part in it.
- PowerControl.LoopConverges: is about runs without fallbacks, in which the controller sees one report before the
  next arrives; so is PowerLinkChange.ArrivesExactlyIfNoticed.
- RegistryCodec.SnapshotRoundTrip: is about registries that read back; the code would also encode others and then
  fail its read-back, but none of its operations makes one.
- SectorWriter.UiWriter.WriteUiImage: takes the inflated stream as chunks and lets every flash operation after the
  first failing one fail.
- `Utf8` and `UserTable` treat text as bytes.
