# Verified model of the volume daemon

A Dafny model of the stateful parts of the Android volume daemon in its automotive build,
with proofs about them. The build options taken are AUTOMOTIVE, NTFS, CDROM, TUXERA,
REMOVE_PREPARED_STAGE and USB_FORMAT; MOUNT_LARGEST_PARTITION is off.

`dafny verify dfyconfig.toml` checks everything.

| file | what it covers |
|---|---|
| `Basics.dfy` | optional values, 32-bit integers, the states of a volume |
| `Metadata.dfy` | the crypto footer: layout, validation, version upgrade, and what a power cut leaves of it |
| `PersistTable.dfy` | the bounded key/value array of the persistent table |
| `PersistStore.dfy` | the two-copy store that saves and loads that table |
| `KeyLifecycle.dfy` | passwords, key derivation and its migration, and the master key under them |
| `InPlace.dfy`, `EnableCrypto.dfy` | in-place encryption and the in-progress flag around it, for a power cut after any sector |
| `Progress.dfy` | the progress percentages that are published meanwhile |
| `LogWrapper.dfy` | the buffered line splitter of the log wrapper |
| `Discovery.dfy`, `Hotplug.dfy`, `DirectVolume.dfy` | partition counting, hot-plug events, mass-storage sharing |
| `VolumeMount.dfy` | mounting and unmounting a volume with roll-back |
| `Removal.dfy` | mounts, unmounts and disk removal interleaved step by step |
| `Asec.dfy` | secure containers: active list, files, loop devices, dm devices and mounts |
| `LoopDevices.dfy`, `AsecImage.dfy` | the loop device table; image size and superblock arithmetic |
| `FatLabel.dfy` | the walk along a FAT32 root directory for the volume label |

Ciphers and key derivations are arbitrary functions; the cipher is only assumed to undo
itself under one key. (PBKDF2 is section 5.2 of RFC 8018, scrypt section 6 of RFC 7914.)
System calls, ioctls, properties and filesystem drivers are answers that come in as
parameters, and every contract holds for all of them. A class keeps the fields its original
updates in place; where the original is a chain of state changes that is reasoned about over
whole runs, its methods are proved equal to step functions and the runs are runs of those.

## What the proofs turned up

- The table load and save ask for footer version 1.1 exactly, while reading the footer has
  already raised it to 1.2: as coded both always refuse. The comment in `cryptfs.h` asks for
  "1.1 or higher". The guard is a parameter: `PersistStore.GuardDecides` says which one
  accepts, and the crash-safety results are about the store as documented.
- A save seeks to the copies it writes with a signed 32-bit offset, a load with 64 bits: a
  finished save is what the next load sees exactly if both copies are below 2^31. Beyond 4 GiB
  it can answer 0, change nothing a load looks at and write into the encrypted filesystem
  (`PersistStore.LargeDeviceLosesTheSave`).
- The volume loop of `cryptfs_enable` overwrites its result, so a final 0 means that all
  volumes were encrypted exactly if at most one of them is to be encrypted
  (`EnableCrypto.ResultIsTrustworthyIff`).
- A migration of the key derivation whose footer write fails still unlocks the device, and a
  password change after it leaves a footer the new password does not open.
- The failure counter is 32 bits wide: the failure that wraps it to 0 is taken for a success.
- Property keys of `PROPERTY_KEY_MAX` characters or more are stored cut and never found again.
- The footer validation wraps around in 64 bits and accepts one kind of overlapping layout.
- Partition number 32 is accepted but never recorded, so a disk with 32 partitions or more
  never becomes ready.
- A disk event that takes a volume out of Shared without unsharing it leaves the sharing
  count one too high for good; the kernel tunable then never comes back.
- A later partition that fails its check aborts a mount with the secure, fuse and other
  sub-mounts left in place; the raw mount stays too while it carries sub-mounts. The next
  mount stacks on what was left, and an unmount answering 0 takes only the topmost layers off
  (`VolumeMount.LeavesBehindIff`, `VolumeMount.MountThenUnmountIff`).
- When the footer cannot be read and the key is kept in a file, the code asks whether a file of
  the literal name "key_loc" exists.
- An unmount request that is between its test and its last write when the removal of the disk
  sets NoMedia can put the volume back to Idle.
- An ASEC whose image file has vanished while it is active is never cleaned up, and can be
  created a second time.
- Three calls fail half-way: a failed resize leaves the image file, a loop device that cannot
  be named stays bound, and a dm device without a table stays.
- The comment that the loop "never actually sets the progress to 100%" is true, for volumes of
  whole blocks, exactly if the total number of blocks is a multiple of 100.
- The label walk keeps 24 bits of a FAT entry where the format has 28, so the end-of-chain
  marks end it only up to 0xFFFFF8 cluster numbers; it divides by zero when a cluster has no
  sectors; and it does not end on a chain with a cycle and no label.

## Model

| member | source | states |
|---|---|---|
| InPlace.EnableInplace | cryptfs.c:1499-1574 | it answers 0 exactly if the devices open and no transfer fails; the device ends as its old content with exactly the sectors written before the first failing transfer, as far as the power lasts, encrypted once, and everything after them untouched; the published percentages |
| InPlace.WrittenIsAllIff | cryptfs.c:1544-1570 | all sectors are written exactly if it goes through |
| InPlace.ReachedIs | cryptfs.c:1525-1530 | how far so many writes reach: eight sectors each while there is a whole block, then one |
| InPlace.WriteThrough | cryptfs.c:706-713 | a write through the zero-offset mapping hits the same sectors of the device below, as far as the power lasts |
| InPlace.Transfer | cryptfs.c:1544-1557 | one read from the raw device and write through the mapping extends the encrypted prefix by what was read, although both hit the same sectors |
| EnableCrypto.Enable | cryptfs.c:1587-1860 | for every fault and every amount of power: 0 exactly if the filesystem leaves room and neither the partition nor the last encryptable volume meets a failure; the next boot is answered 0 exactly if besides the last put succeeds with power left for it, -2 exactly if otherwise the first one did, and else what a device without a footer is; the partition is encrypted up to exactly the sectors written; answered 0, it is so in full, every volume as far as its transfers went and a single encryptable one in full, once, under the key the footer opens to; on success the percentages stay within 198, and from 79200 sectors on never fall up to the final 100 |
| EnableCrypto.EncryptDevices | cryptfs.c:1818-1837 | the exact result, the sectors written and the contents of the partition and all volumes; the volumes are not touched unless the partition succeeded |
| EnableCrypto.EncryptVolumes | cryptfs.c:1822-1831 | what the loop makes of every volume for its faults, the power it takes, that its result is that of the last encryptable one, and what it publishes if all succeed |
| EnableCrypto.ZeroMeansAll | cryptfs.c:1823-1837 | result 0 for at most one encryptable volume means it succeeded, done is the total and the percentages are complete |
| EnableCrypto.OneMoreBooked | cryptfs.c:1823-1831 | one volume more adds its own run of percentages, sectors and result |
| EnableCrypto.ResultIsTrustworthyIff | cryptfs.c:1823-1831 | result 0 implies that all encryptable volumes succeeded, whatever they do, exactly if there is at most one |
| EnableCrypto.FinalRcIsTheLast | cryptfs.c:1823-1831 | the loop answers what the last encryptable volume answered |
| EnableCrypto.LastDecides | cryptfs.c:1823-1831 | the loop answers 0 exactly if the last encryptable volume, if there is one, meets no failure |
| EnableCrypto.NewFooterAnswers | cryptfs.c:1184-1188 | the new footer opens to the key and is answered -2, and 0 once its flag is cleared |
| EnableCrypto.DoneReachesTotal | cryptfs.c:1793-1805 | if all succeed the sectors done add up to the total |
| Progress.AllReportsRise | cryptfs.c:1532-1543 | over all volumes the percentages never fall and stay below that of the last block |
| Progress.ProgressIsBounded | cryptfs.c:1525-1543 | from 800 sectors on they never exceed 198, from 79200 on never 100 |
| Progress.HundredAtTheEnd | cryptfs.c:1833-1837 | with the 100 of success the percentages still never fall from 79200 sectors on |
| Progress.NeverHundredIff | cryptfs.c:1833-1836 | over all volumes the loops stay under 100 exactly if their blocks reach no further than 100 times the one percent; for volumes of whole blocks, and for a single one, exactly if the number of blocks is a multiple of 100 |
| Progress.LastBlockIsReported | cryptfs.c:1535-1543 | the percentage of the last block is published |
| Progress.DividesByZeroIff | cryptfs.c:1532-1536 | the one percent is zero exactly below 800 sectors |
| Metadata.LayoutIsDisjoint | cryptfs.c:1413-1433 | encrypted range, footer and both table copies are pairwise disjoint, within the device and pass validation, and the range ends exactly where the footer starts, for a new and for an upgraded footer |
| Metadata.ValidateKeepsCopiesApart | cryptfs.c:443-464 | an accepted footer has disjoint copies exactly if the first does not run over the 64-bit end |
| Metadata.ValidateIs | cryptfs.c:443-464 | where nothing wraps, exactly the layouts are accepted whose copies follow each other within 16 KiB from the footer |
| Metadata.ValidateAcceptsAnOverlap | cryptfs.c:443-464 | such a footer exists |
| Metadata.UpgradeCryptFtr | cryptfs.c:315-368 | the upgraded footer, and the disk after as many of its writes as the power allows |
| Metadata.GetCryptFtrAndKey | cryptfs.c:372-436 | when a footer is readable, what is returned, and the disk with the upgrade cut anywhere |
| Metadata.UpgradeSurvivesPowerCuts | cryptfs.c:320-368 | an upgrade cut at any write and run again ends in the disk of an uncut one |
| Metadata.UpgradeFromOneZero | cryptfs.c:320-360 | from 1.0 comes 1.2 with a valid layout, the key and salt kept, and an empty table |
| Metadata.UpgradeKeepsTheRest | cryptfs.c:320-368 | what a read makes of each older footer and disk: 1.1 gets PBKDF2, the device's parameters and version 1.2 and keeps the rest and the copies, 1.0 a layout besides, 1.2 nothing |
| Metadata.ReadSettles | cryptfs.c:431-433 | after one read the footer is at 1.2 or later and a second read changes nothing |
| PersistStore.SaveIsSeenIff | cryptfs.c:629-635 | a finished save is what the next load sees, for every disk and table, exactly if both copies are below 2^31, where its 32-bit seeks reach |
| PersistStore.LargeDeviceLosesTheSave | cryptfs.c:629-635 | on a device of 0x800020 sectors a save answers 0, leaves what a load sees as it was, and writes into the encrypted range |
| PersistStore.SaveIsAtomic | cryptfs.c:616-646 | with the copies in reach, one save cut after any write shows the old table or the new, and a finished one exactly the new, also when both copies were valid |
| PersistStore.StoreIsACrashSafeRegister | cryptfs.h:102-107 | with the copies in reach, any history of saves, each cut somewhere, reads back as one register whose unfinished writes may or may not have taken hold |
| PersistStore.GuardDecides | cryptfs.c:499-503 | the guard as coded refuses every footer a read returns, the documented one accepts every one |
| PersistStore.Store.Load | cryptfs.c:466-558 | what each load returns, caches and leaves on disk, in every case |
| PersistStore.Store.Save | cryptfs.c:560-662 | when a save answers 0, its two seeks included, and the disk after it for every power cut |
| PersistStore.Store.GetField | cryptfs.c:2012-2040 | the three answers, on the table in memory or the one the first call loads, and that as coded an encrypted device never has a table |
| PersistStore.Store.SetField | cryptfs.c:2043-2082 | with the table in memory or loaded first: exactly when it answers 0, the table after it, that a field that fits then reads back cut and no other has changed, and that success on an encrypted device with the copies in reach means the next boot loads it |
| PersistStore.Store.SetThenGet | cryptfs.c:2012-2082 | a field that was set is read back, also by the first calls after a boot |
| PersistStore.SaveAsCodedWritesNoTable | cryptfs.c:580-584 | with the coded guard a save only ever upgrades the footer |
| PersistStore.SaveAsDocumented | cryptfs.c:616-646 | with the documented guard it issues the writes its seeks allow, and with the copies in reach exactly the two writes of the register |
| PersistTable.PutUpdatesTheMap | cryptfs.c:1962-2009 | for keys that fit, setting is a map update with the value cut, keeps keys unique, and fails exactly for a new key on a full table |
| PersistTable.GetReadsTheMap | cryptfs.c:1944-1960 | for keys that fit, getting reads the map |
| PersistTable.GetAfterPut | cryptfs.c:1944-2009 | get after set gives the cut value exactly if the key fits |
| PersistTable.PutIsRead | cryptfs.c:1944-2009 | for any table, setting a key that fits is read back cut and changes no other key |
| PersistTable.LongKeyIsStoredTwice | cryptfs.c:1991-2003 | a longer key is stored again on every set |
| PersistTable.HistoryRefinesTheMap | cryptfs.c:1962-2009 | every history of sets is that history on a bounded map |
| PersistTable.TableFitsItsBytes | cryptfs.c:1985-1986 | every admitted table fits its bytes, and one entry more would not, exactly if they hold the header |
| PersistTable.PersistData.GetKey | cryptfs.c:1944-1960 | the loop over the array finds what the table holds |
| PersistTable.PersistData.SetKey | cryptfs.c:1962-2009 | the array after it is the table of the specification, in place |
| KeyLifecycle.RunKeepsTheKey | cryptfs.c:1194-1295 | over every run of checks, changes, migrations, reboots and property changes the footer opens under the current password to the one master key, by the KDF and parameters stored in it |
| KeyLifecycle.StepKeepsTheKey | cryptfs.c:1262-1292 | whichever footer writes fail, only a password change on a footer that is not scrypt can lose the key |
| KeyLifecycle.CheckKeepsTheKey | cryptfs.c:1245-1292 | a password check, with or without migration, keeps it |
| KeyLifecycle.ChangePwKeepsTheKeyIff | cryptfs.c:1919-1942 | a password change keeps the key exactly if the footer it loads says scrypt |
| KeyLifecycle.FailedMigrationThenChangeLosesTheKey | cryptfs.c:1279-1292 | a run in which the key is lost |
| KeyLifecycle.VerifyIsExact | cryptfs.c:1361-1406 | verification accepts exactly the passwords that unwrap the key, the current one among them |
| KeyLifecycle.AcceptedIff | cryptfs.c:1245-1266 | a check is accepted exactly if the filesystem mounts or the failure counter wraps |
| KeyLifecycle.LoadedSettles | cryptfs.c:350-360 | a footer once read stays as read, whatever the property becomes, with key, salt and flags kept |
| KeyLifecycle.Cryptfs.CheckPasswd | cryptfs.c:1194-1295 | the answer and the footer in every case: 0 exactly for a first guess on a readable footer that mounts or wraps the counter, with the KDF scrypt or the migration written; the failure count in 32 bits for one that does not mount, with the count on disk if it could be written; and whatever is written, the footer goes on opening to the one key under the password in force, for good if the writes succeed |
| KeyLifecycle.Cryptfs.ChangePassword | cryptfs.c:1919-1942 | 0 exactly with a key in memory and a readable footer, of which only the wrapping changes; a written change opens the footer to the key under the new password exactly if the KDF type was scrypt, and keeps an unlocked device safe |
| KeyLifecycle.Cryptfs.VerifyPasswd | cryptfs.c:1361-1406 | on an unlocked device the answer is 0 exactly for a password that opens the footer to the key in memory, so for the current one; key and footer stay safe |
| KeyLifecycle.EventKeepsKey | cryptfs.c:1194-1295 | each event leaves the one key under the password in force, for every password and key |
| LogWrapper.Parent | logwrapper.c:30-72 | however the stream is chopped the log is that of the whole stream: of each line, ended by its newline or after 4095 bytes, the bytes before the first return or NUL; no index leaves the buffer |
| LogWrapper.LogIsTheReference | logwrapper.c:37-72 | what is printed of the stored bytes is, line by line, that reference on the bytes of the stream |
| LogWrapper.OneLine | logwrapper.c:42-50 | a stream of one line that fits logs its bytes before the first return or NUL |
| LogWrapper.SplitLines | logwrapper.c:39-50 | the inner loop logs the finished lines of the buffer and keeps the rest |
| LogWrapper.KeepOrFlush | logwrapper.c:52-65 | what is kept and moved to the front, or flushed when the buffer is full |
| LogWrapper.CutsLoseNothing | logwrapper.c:37-72 | the cuts put together again are the stream with returns as NULs, and each is proper |
| LogWrapper.CutsAreUnique | logwrapper.c:37-72 | they are the only proper cuts of it |
| LogWrapper.CStringStops | logwrapper.c:45-47 | printing the buffer up to its terminator prints the line up to its own first NUL |
| Discovery.RecordKeepsTheCount | DirectVolume.cpp:461-499 | after every partition event the count is what is still missing, whatever the order, repeats or numbers |
| Discovery.AllReportedIsReadyIff | DirectVolume.cpp:478-491 | a disk all of whose partitions are reported becomes ready exactly if it has fewer than 32 |
| Discovery.CounterRefinesMask | DirectVolume.cpp:375-385 | up to 31 partitions the counter is the number of bits left in the mask it replaced, so both are ready at the same event |
| Hotplug.EveryRunIsSound | DirectVolume.cpp:224-332 | over every run of events and commands the count is right, and no volume is Idle, Checking, Mounted, Unmounting or Shared before it is zero |
| Hotplug.StepKeepsSound | DirectVolume.cpp:334-600 | each event keeps that |
| Hotplug.EveryRunIsAccounted | VolumeManager.cpp:1570-1585 | over every run of every volume the sharing count is the shared volumes plus the leaks, and the tunable is parked exactly while it is not 0 |
| Hotplug.EventKeepsBooks | VolumeManager.cpp:1570-1585 | each event for a volume keeps count and tunable in step with the shared volumes and the leaks |
| Hotplug.StepKeepsAccounts | VolumeManager.cpp:1659-1669 | and so does each step of a system of volumes |
| Hotplug.LeaksIff | DirectVolume.cpp:505-517 | an event takes a volume out of Shared behind the counter's back exactly if it is a partition of the shared disk with its mount point ready or unreadable, a change of that disk, or a removal that no unshare got through to |
| Hotplug.TunableComesBackIff | VolumeManager.cpp:1659-1669 | the tunable is not given back while a volume is shared, and once none is, it is back exactly if none of those events hit a shared volume |
| Hotplug.ALeakHappens | DirectVolume.cpp:505-517 | such an event exists |
| Hotplug.SharingChanges | DirectVolume.cpp:108-114 | which events move a volume into and out of Shared |
| DirectVolumes.VolumeManager.ShareVolume | VolumeManager.cpp:1466-1587 | the partition count stays right and one shared volume more is accounted for, exactly if it answers 0, which only an Idle volume with nothing pending gets |
| DirectVolumes.VolumeManager.UnshareVolume | VolumeManager.cpp:1589-1671 | the partition count stays right and one shared volume less is accounted for, the tunable given back with the last |
| DirectVolumes.DirectVolume.HandleDiskAdded | DirectVolume.cpp:334-444 | keeps the counting invariant; a volume that has a disk is left alone, one that takes a disk waits in Pending for its partitions, or is Idle if it has none and its mount point is ready |
| DirectVolumes.DirectVolume.HandlePartitionAdded | DirectVolume.cpp:446-527 | keeps the counting invariant; a partition of the disk is recorded, another ignored; the volume does not move while one is missing and is offered, or mounted if that was waiting, with the last; a shared volume that moves is a leak |
| DirectVolumes.DirectVolume.HandleDiskChanged | DirectVolume.cpp:529-600 | keeps the counting invariant; the partitions of the changed disk are all forgotten and counted anew, with the state in each case |
| DirectVolumes.DirectVolume.HandlePartitionRemoved | DirectVolume.cpp:700-724 | keeps the counting invariant and the accounts of the manager, with the state in each case: what is unshared is accounted for and nothing leaks |
| DirectVolumes.DirectVolume.HandleDiskRemoved | DirectVolume.cpp:608-698 | keeps the counting invariant and the accounts; the volume ends without medium, numbers or recorded partitions |
| Hotplug.PartAddedRecords | DirectVolume.cpp:461-499 | a partition within the sixteen minors of the disk is recorded once, any other is ignored |
| Hotplug.PartAddedMoves | DirectVolume.cpp:502-521 | nothing moves while a partition is missing; with the last one the volume becomes Idle, or Mounted if a mount was waiting, once its mount point is ready |
| Hotplug.OfferedWhenAllSeen | DirectVolume.cpp:334-527 | after a disk of 1 to 31 partitions and events of them in any order with repeats, the volume is Idle exactly if each has been seen, and Pending otherwise |
| Hotplug.DiskAddedMeans | DirectVolume.cpp:334-444 | which disks are taken, and the state in each case |
| Hotplug.DiskChangedMeans | DirectVolume.cpp:529-600 | the state of a changed disk in each case |
| Hotplug.PartRemovedMeans | DirectVolume.cpp:700-798 | the state after a partition has gone in each case |
| Hotplug.CommandsMean | Volume.cpp:523-540 | what mount, unmount, share, unshare and format requests come to, a mount asked for too early being remembered |
| VolumeMount.Volume.MountVol | Volume.cpp:488-745 | it answers 0 exactly if a node mounts, its secure area binds and no later node fails its check; then the volume is on that node with everything that belongs to it in the topmost layers; Mounted keeps standing for what it should |
| VolumeMount.Volume.FinishMount | Volume.cpp:665-731 | the layers, the state and the node from the mounted main part on, with what is rolled back |
| VolumeMount.MountIsOnTop | Volume.cpp:632-729 | a mount answering 0 adds one layer to each of its mount points over what was there |
| VolumeMount.FailedMountLeaves | Volume.cpp:680-723 | a failing mount adds no mount exactly if no node mounts, or what it mounted is only the raw filesystem and can be taken off again |
| VolumeMount.Volume.MountSubParts | Volume.cpp:696-712 | the further nodes are mounted under consecutive numbers on the raw layer |
| VolumeMount.SubPartsAre | Volume.cpp:703-711 | they are numbered from 2, as many as there are further nodes that mount |
| VolumeMount.Volume.UnmountVol | Volume.cpp:1038-1147 | answering 0 it leaves no mount exactly if none was stacked; failing it keeps the raw mount and the secure one, unless binding again fails too and the state is NoMedia |
| VolumeMount.UnmountAnswers0Iff | Volume.cpp:1056-1131 | it answers 0 exactly if the volume is Mounted and every sub-mount looked for, the secure area, the fuse view and the raw filesystem detach |
| VolumeMount.UnmountLeavesNoneIff | Volume.cpp:1098-1131 | one layer of each mount point goes, the sub-mounts with the raw one, so nothing is left exactly if nothing was stacked |
| VolumeMount.FailedUnmountKeeps | Volume.cpp:1078-1146 | a failing unmount keeps every raw layer and loses at most sub-mounts it looked for and could detach |
| VolumeMount.LeavesBehindIff | Volume.cpp:717-723 | which requests and disk events leave a mount behind when none was left before |
| VolumeMount.CleanRunUnmounts | Volume.cpp:502-1147 | over every run in which no request has left a mount behind, an unmount answering 0 leaves none |
| VolumeMount.MountThenUnmountIff | Volume.cpp:502-1147 | after every run that ends in Idle, all mounts and unmounts answering 0 leave none exactly if none is left behind at that moment |
| VolumeMount.Volume.DoUnmount | Volume.cpp:1000-1036 | up to ten tries at the topmost layer; where nothing is mounted it is done |
| Removal.NoMountInTheWindow | Volume.cpp:264-268 | in every interleaving no client is inside mountVol_l between setRemoveState(1) and setRemoveState(0) |
| Removal.InvStep | Volume.cpp:488-500 | the invariant of lock, window and state over each single step |
| Removal.InvAlways | Volume.cpp:488-500 | and over every run |
| Removal.SomebodyCanMove | Volume.cpp:1038-1047 | no deadlock: somebody can move until everybody is done, the unmount inside the window included |
| Removal.EveryRunEnds | DirectVolume.cpp:628-696 | every run is finite, and one that cannot go on has answered everybody, with the lock free and the window closed |
| Removal.GoneMeansNoMedia | DirectVolume.cpp:661-696 | with mounts and removals only, the volume is in NoMedia from a removal until a disk is put back |
| Removal.NoMountWhileGone | Volume.cpp:523-540 | and no mount succeeds meanwhile |
| Removal.NoMediaHoldsUnlessStraddled | DirectVolume.cpp:661-696 | with unmount requests too, another state can follow NoMedia exactly if one of them was between its test and its last write |
| Removal.OnlyIdleIsMounted | Volume.cpp:523-540 | a mount gets beyond its tests only outside the window and in state Idle, and otherwise writes nothing |
| Removal.MountGoesThrough | Volume.cpp:488-500 | a mount of an Idle volume that nobody disturbs answers 0 and leaves it Mounted and the mutex free |
| Removal.UnmountGoesThrough | Volume.cpp:1038-1047 | and so an unmount of a Mounted one, leaving it Idle |
| Removal.RemovalGoesThrough | DirectVolume.cpp:628-724 | an undisturbed removal closes its window, with the volume of the disk in NoMedia and a mounted partition unmounted |
| Asec.VolumeManager.CreateAsec | VolumeManager.cpp:322-550 | when a container is created and everything that then exists; a failure restores files, loop and dm devices and mounts, but for exactly what three half-way failures leave |
| Asec.VolumeManager.MountAsec | VolumeManager.cpp:1118-1254 | when it mounts, and that a failure leaves no loop or dm device of that name |
| Asec.VolumeManager.MountObb | VolumeManager.cpp:1272-1375 | the same for image files |
| Asec.VolumeManager.UnmountLoopImage | VolumeManager.cpp:897-977 | five tries, then mount, dm device, loop device and list entry go together |
| Asec.VolumeManager.DestroyAsec | VolumeManager.cpp:979-1020 | unmounts, then removes the file that is found; a failed unlink comes after the unmount |
| Asec.VolumeManager.CleanupAsec | VolumeManager.cpp:1844-1895 | exactly what hangs on the volume and unmounts is gone, although the list shrinks meanwhile; 0 exactly if that is all of it |
| Asec.VolumeManager.Serve | VolumeManager.cpp:322-1895 | over every sequence of requests the list has no duplicates and names exactly the mounted containers, each with its loop device |
| Asec.VolumeManager.IsLegalAsecId | VolumeManager.cpp:1028-1053 | which ids are legal |
| Asec.VolumeForFile | VolumeManager.cpp:1256-1267 | the first volume whose mount point begins the path |
| Asec.CleanupLeavesTheRest | VolumeManager.cpp:1852-1894 | each container stays active, mounted and bound exactly if it does not hang on the volume, when the answer is 0 |
| Asec.CleanupOnFiles | VolumeManager.cpp:1852-1894 | an ASEC goes if its only image is external, an image file if the volume is the first whose mount point begins its path, and they detach; with answer 0 all of them have gone |
| Asec.LostImage | VolumeManager.cpp:1857-1860 | an active ASEC without its file is never cleaned up; a good request without key to create it again is granted, and breaks the list |
| Asec.ActivatedIsCoherentIff | VolumeManager.cpp:548-549 | adding a container keeps the list right exactly if its id is not active |
| Asec.CreatedIsValid | VolumeManager.cpp:356-367 | with every active ASEC's file in place, that is so whenever the checks of createAsec pass |
| Asec.MountedIsValid | VolumeManager.cpp:1138-1142 | and whenever those of mounting do |
| Asec.DestroyedIsValid | VolumeManager.cpp:979-1020 | destroying keeps the list right |
| Asec.DeactivatedAllIsValid | VolumeManager.cpp:1874-1892 | and so does cleaning up |
| Asec.EraseTakesOne | VolumeManager.cpp:964-972 | erasing takes one entry of that id |
| LoopDevices.Loop.LookupActive | Loop.cpp:81-125 | finds the first device of the name, or none; an unreadable one ends the search |
| LoopDevices.Loop.Create | Loop.cpp:127-209 | binds the first device not in use, when there is one and the calls go through; the names in use grow by one |
| LoopDevices.Loop.DestroyByDevice | Loop.cpp:211-228 | frees a bound device; the names shrink by its name |
| LoopDevices.CreatedIsFound | Loop.cpp:81-209 | under a new name the created device is the one that is looked up |
| LoopDevices.CreatedIsFoundIff | Loop.cpp:81-209 | under an old name exactly if no earlier device has it |
| AsecImage.SizeIsRight | VolumeManager.cpp:389-395 | for every size in MiB that does not wrap, a multiple of 63 with room for the data and both FATs and less than a track to spare |
| AsecImage.SizeFitsIff | Loop.cpp:243 | with its superblock it stays under 2^31 bytes exactly up to 2016 MiB |
| AsecImage.MibIsCreatedIff | Loop.cpp:235-250 | of the sizes that can be asked for, those are created |
| AsecImage.ImageFile.Create | VolumeManager.cpp:396-473 | when it succeeds in wrapped 32-bit arithmetic, and that the superblock is then in the last sector |
| AsecImage.ImageFile.Mount | Loop.cpp:252-292 | when a superblock is found, and the length of the dm device |
| AsecImage.CreateThenMount | VolumeManager.cpp:1186 | what is created is found, with its options, and with the dm length creating chose exactly if the size did not wrap |
| AsecImage.WhereTheEndIs | VolumeManager.cpp:449 | the superblock starts one sector before the end, also when the product wraps |
| FatLabel.ReadRootEntryLabel | utils.c:56-157 | the answer in each case of the boot sector, and on a FAT32 filesystem that of the cluster the walk ends at |
| FatLabel.Walk | utils.c:125-148 | on a chain it does not enter twice, the walk ends after fewer FAT reads than there are cluster numbers |
| FatLabel.TerminatesIff | utils.c:125-148 | the walk ends exactly if it visits no cluster twice |
| FatLabel.LongWalksCycle | utils.c:125-148 | a walk as long as the number of clusters has been somewhere twice |
| FatLabel.CycleNeverEnds | utils.c:125-148 | and then never ends |
| FatLabel.ScanCluster | utils.c:126-143 | the entries of one cluster in order |
| FatLabel.ScanFindsTheFirst | utils.c:126-143 | a cluster answers with its first live label or unreadable entry |
| FatLabel.AnswerIsTheFirst | utils.c:125-148 | the answer is the first live label or failing read in the order of the chain: every entry before it was passed over; none is answered only at the end of the chain |
| FatLabel.LabelIsFound | utils.c:125-148 | on a directory laid out by the format the label is found, in whichever cluster of the chain and whichever entry it is |
| FatLabel.ChainIsFollowed | utils.c:144-147 | a chain laid out in the FAT, four bytes an entry with the low one first, is followed cluster by cluster |
| FatLabel.EntriesAreTold | utils.c:130-141 | a label entry of eleven bytes is read as they are, one of another kind, free or deleted is passed over |
| FatLabel.GeometryIs | utils.c:103-111 | the geometry of a filesystem that fits the integer widths: clusters behind reserved sectors, FATs and the root directory rounded up to sectors |
| FatLabel.ClusterIsInsideIff | utils.c:48 | under 2^32 bytes of data a cluster of the chain lies in the data area exactly if it is not number 1, at its number less two times its size |
| FatLabel.EntriesAreInside | utils.c:128-130 | every entry of such a cluster lies in the data area in whole |
| FatLabel.FatEndIsRightIff | utils.c:103-106 | the end of the FATs is computed as the format says, in 32-bit signed arithmetic, exactly if it is below 2^31 |
| FatLabel.CountIsRight | utils.c:107-109 | then the number of clusters does not wrap |
| FatLabel.EndMarksEndIff | utils.c:144-147 | the end marks end the walk exactly up to 0xFFFFF8 cluster numbers |
| FatLabel.LinksAreKept | utils.c:144-147 | a link is followed to its cluster whatever its reserved bits |

## Left out

- Cipher, key derivation, MD5 and random number internals; the container hash is taken to be injective and to succeed, and paths to fit their buffers.
- A key in a footer flagged as unencrypted is uninitialised memory in the original; it is an arbitrary value here.
- InPlace.EnableInplace: transfers are full or fail, although the code takes a short one for a success; file offsets are unbounded.
- EnableCrypto.Enable: only "inplace"; wiping, the framework restart, the reboot at the end and the save of the table in between, which writes nothing, are not part of it. Its premises are that no valid footer was there before and that the total is at least 800 sectors, below which the code divides by zero (Progress.DividesByZeroIff).
- PersistStore.StoreIsACrashSafeRegister: each copy is written atomically; a torn first copy with a valid magic would hide the second. It is about copies below 2^31, which SaveIsSeenIff shows to be exactly where a save works.
- PersistStore.SaveIsSeenIff: copies at different offsets are taken not to overlap, which LayoutIsDisjoint shows of the layouts the code makes.
- PersistTable.PersistData.SetKey: the table in memory is at least as large as the size the footer names, which the code does not check.
- KeyLifecycle.RunKeepsTheKey: it assumes that footer writes succeed, only the right key mounts and the counter does not wrap; StepKeepsTheKey, AcceptedIff and FailedMigrationThenChangeLosesTheKey say what happens otherwise. Parsing the scrypt property is left out, and wrapping the key is taken to succeed.
- Progress.AllReportsRise: it is about volumes that succeed.
- Discovery.CounterRefinesMask: the mask is modelled as the set of its bit positions.
- Hotplug.EveryRunIsSound: optical drives, dm-crypt volumes whose device numbers are replaced, and a disk none of whose partitions has a size are not part of it; formatting is one step; some partition has a size when the mount point is looked for.
- Hotplug.OfferedWhenAllSeen: no mount was asked for on the way, and the mount point is ready; PartAddedMoves has the other cases event by event.
- Hotplug.EveryRunIsAccounted: the tunable can be read and written; the volumes start sound, as new ones are.
- VolumeMount.Volume.MountVol: the properties that postpone it until the password is entered, and the dm-crypt mapping of encryptable volumes, are left out; calls are serialised, and only the volume's own mounts are at its mount points.
- VolumeMount.Volume.UnmountVol: an EIO answer, which the code takes for success though the mount may still be there, is excluded; reverting a dm-crypt mapping is left out.
- Removal.NoMountWhileGone: shares and other events that set the state without the lock do not interleave with it.
- Asec.VolumeManager.CreateAsec: raw containers (filesystem "none"), renaming, finalizing and permission repair are left out; the directory of a failed mount stays in the original and is not modelled; an unreadable container directory, which the code takes for a hit, is excluded.
- Asec.VolumeManager.Serve: it assumes that no call fails half-way, that image paths are absolute, and that calls which take something down succeed.
- LoopDevices.Loop.Create: naming the device, its last call, goes through; the failure of it is in Asec.dfy.
- FatLabel.ReadRootEntryLabel: a read delivers all its bytes or fails; the boot sector is readable.
- FatLabel.Walk: its premise is that the walk ends, which TerminatesIff decides for every chain.
- Signature checks, formatting and the external tools of the filesystem drivers, the command and netlink sockets, broadcasts, logging, sleeps and retries that only wait.
