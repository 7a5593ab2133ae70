# A verified model of XAAC Thin Client OS's transactions

XAAC Thin Client OS keeps a thin client's packages, configuration and identity consistent across
updates that can fail and power that can go at any moment.  This project models the parts of it that
carry that burden and proves what they promise.

- **The transactional package updater** (`UpdateModel`, `UpdateHost`, `UpdateRuntime`,
  `UpdateTransaction`, `UpdateRecovery`): a persisted state machine with recovery points, a package
  cache, a registry of blocked bundles, pruning, automatic rollback and recovery at boot.
- **The Debian base updater** (`BaseOs`): one approved plan, simulated twice, installed once.
- **File transactions with undo**: release imports (`ReleaseImport`), policies (`PolicyApplication`),
  IP addressing with bounded snapshots (`IpAddressing`), wired 802.1X, local administrator and network
  services (`SnapshotUndo`, `ShadowEdit`), file integrity (`FileIntegrity`), first boot (`FirstBoot`).
- **Compilers and planners**: firewall plan to nftables (`Firewall`), GPT layout and image builder
  (`Partitioning`), profile inheritance and package resolution (`Profiles`).

`Common` and `Sorting` are shared helpers.

## How the machine is modelled

The updater works on a `Host`, an object whose fields are the state files, recovery points, package
cache, dpkg database and configuration.  Every step that touches it is a method that may return, raise
or lose power (`Outcome` is `Done`, `Raised` or `Crashed`), chosen freely at each call; what a step
has done when it does not return is as free as the original's way of writing allows.  A file written
by an atomic rename is old or new; a file copied in place, or a package set handed to dpkg, may be
left in any state in between.  So a method's contract holds for every failure and power cut at every
point.  The ghost field `calm` says that no step has failed; contracts that start from `calm` say
when an operation must then succeed, so raising too often would break them as surely as leaving
something undone.

The other managers are objects in the same style; loops stay loops, and text that is only written
(JSON, YAML, nft syntax) becomes the value it encodes.  SHA-256 and the encodings are injective.

Results that need a hypothesis state it as a precondition:

- `apply_update` starts when no transaction is in flight, because line 553 overwrites the old state,
  and recovery runs at boot, before any update, because it reads the state before taking its lock.
- Restoring configuration rewrites only archived files; a file created later survives.  The current
  release file is put back only from an intact copy.
- That an update which raises leaves nothing in flight needs a state file that can be written
  (`writable`), and that a bad copy does not stay in the cache needs files that can be removed (`removes`).
- Configured paths are written without a slash at the end.
- Success without a fault also needs cached package files to be what their paths say, and installed
  versions without underscores: the cache path turns colons into underscores
  (`UpdateModel.ReplaceColonsInjective`, `UpdateModel.CachePathCollision`).
- That base updates never lower a package needs apt's simulation to tell the truth about installed
  versions and dpkg to change only what was planned (`truthful`).
- The image builder succeeds for an output of losetup that names a numbered loop device.
- Repair assumes a manifest as installed, and a tree without links and special files.
- An import's path is given resolved, as its first step makes it; outside its family, the packages
  hold no links.
- Managers that work on an image start from a plan whose root was accepted; for the planners and for
  first boot the root is part of the model.

## Where the code and its promises part

- `_cache_candidates` creates a directory without accepting one that exists (line 397), after the
  recovery point has required a file in it.  Read literally (`strictMkdir`), no update is ever
  confirmed, and one without any other fault ends rolled back with its bundle blocked.  Read
  leniently, it completes.  `UpdateTransaction.ApplyUpdate` states both; every run theorem holds for both.
- The documentation speaks of at most two recovery points; pruning spares the current one beyond the
  limit, so one more can stay (`UpdateRuntime.PruneBound`).
- Recovery at boot undoes an interrupted update but does not block its bundle; only the automatic
  rollback does.
- An update that failed to roll back is not undone at boot either; its recovery point stays, and a
  rollback by hand then undoes it (`UpdateRecovery.RollBackAfterFailure`).
- The manual rollback persists nothing before it changes packages, so one that loses power is not
  continued at boot (`UpdateRecovery.ManualRollback`).
- A base update that has completed still audits and cleans apt's cache (lines 803-813); if that raises,
  the healthy machine is recorded as `failed_requires_recovery` (`BaseOs.ApplyUpdate`).
- Repair copies into a directory that has taken a file's place and reports success; the next
  verification still complains (`FileIntegrity.RepairMissesDirectory`, exact condition in `RepairExact`).
- The integrity policy may give the alert state the manifest's path; the manifest is then overwritten
  and a verification finds nothing to check (`FileIntegrity.ManifestSurvives`).
- A JSON link that sorts before the evidence it leads to hides it, and the import is refused
  (`ReleaseImport.LinkHidesEvidence`, exact condition in `LoadMatchingEvidence`).
- A JSON file that is no UTF-8 and sorts before the evidence ends the import with an exception nobody
  catches (`ReleaseImport.UnreadableHidesEvidence`, exact condition in `LoadMatchingEvidence`).
- A failed component import leaves files behind under names outside the family's globs, and drops
  links (`ReleaseImport.EvidenceLeftBehind`, exact condition in `FailureRestoresExactly`).
- Snapshots are read in text mode, so a rollback turns carriage returns into newlines
  (`SnapshotUndo.CarriageReturnIsLost`, exact condition in `RestoredExactly`).
- A failing umount of the image builder is ignored; the mount directory is then removed, which empties
  what is still mounted in an image reported as complete (`Partitioning.ImageBuilder.Execute`).
- Rolling back network services does not remove files the apply created
  (`SnapshotUndo.ServicesUndoExactly`).
- The installed first-boot service passes the root `/`, which the identity manager refuses, so no device
  ever gets its identity from it (`FirstBoot.AsInstalled`; device_identity.py, lines 118-120).
- A first boot that fails after creating its marker, or loses power while recording that failure, can
  never complete again (`FirstBoot.RunRepeatedly`); a machine id left by an interrupted earlier run
  is kept, so it can disagree with the identity recorded later (`FirstBoot.Device.CreateIdentity`).

## Model

| member | source | states |
|---|---|---|
| UpdateModel.InstallReachesExpected | assets/runtime/xaac_update_runtime.py:308-312 | unpacking then configuring honest package files gives exactly the `expected` versions from any database, later pins winning |
| UpdateModel.ExpectedAgrees | assets/runtime/xaac_update_runtime.py:573-573 | a database that agrees with every pin agrees with the `expected` dictionary |
| UpdateModel.LastPinCounts | assets/runtime/xaac_update_runtime.py:573-573 | the value under a package is that of its last pin |
| UpdateModel.CachePathIs | assets/runtime/xaac_update_runtime.py:82-85 | a version is refused as a path exactly if it is empty, `.`, `..` or holds a slash or a zero; otherwise each colon becomes an underscore and nothing else changes |
| UpdateModel.ReplaceColonsInjective | assets/runtime/xaac_update_runtime.py:82-85 | versions without underscores never share a cache file |
| UpdateModel.GateIsExact | assets/runtime/xaac_update_runtime.py:419-446 | an entry stops a bundle if and only if target and set of pins coincide, whatever the component order |
| UpdateRuntime.CopyVerifiedBundle | assets/runtime/xaac_update_runtime.py:178-209 | completed, the manifest names something and no empty field, the staging directory was new, the staged files are the bundle's with the manifest's digests and within the size limit; without a fault it refuses only what cannot be staged |
| UpdateRuntime.CreateRecoveryPoint | assets/runtime/xaac_update_runtime.py:222-293 | a finished point is new and usable and records the installed versions and the release; its archive holds every file at or below a configured path with its text, and no other; other points are untouched |
| UpdateRuntime.RecordPackages | assets/runtime/xaac_update_runtime.py:262-275 | every package's installed version is recorded with the digest of its cached file; without a fault it fails only for want of one |
| UpdateRuntime.InstallDebs | assets/runtime/xaac_update_runtime.py:308-312 | completed, the database is the unpacked and configured one; cut anywhere, nothing outside the named packages changed |
| UpdateRuntime.HealthCheck | assets/runtime/xaac_update_runtime.py:336-388 | healthy if and only if every expected version is installed and the machine reads healthy, written out: a clean audit, no missing program, and every service and client that ran before running again |
| UpdateRuntime.RestartChanged | assets/runtime/xaac_update_runtime.py:315-333 | completed, exactly those of the changed applications that ran before have been restarted |
| UpdateRuntime.CollectDebs | assets/runtime/xaac_update_runtime.py:477-488 | succeeds if and only if every recorded package file is cached with its recorded digest |
| UpdateRuntime.RollbackFromRecovery | assets/runtime/xaac_update_runtime.py:469-517 | completed from any state, the machine is as the point recorded it and healthy, what ran before is restarted, and the release file is the point's copy exactly if that has the recorded digest; cut anywhere, only the point's packages changed |
| UpdateRuntime.RollbackIsDetermined | assets/runtime/xaac_update_runtime.py:469-517 | where a rollback starts makes no difference to any recorded version or archived file |
| UpdateRuntime.RollbackAgain | assets/runtime/xaac_update_runtime.py:469-517 | a completed rollback of a machine already rolled back changes no recorded version and no archived file |
| UpdateRuntime.RollbackTwice | assets/runtime/xaac_update_runtime.py:469-517 | two completed rollbacks of one point: the second leaves every recorded version and every archived file as the first left it |
| UpdateRuntime.IsBlocked | assets/runtime/xaac_update_runtime.py:419-430 | true exactly when some entry has the bundle's target and set of pins |
| UpdateRuntime.BlockFailed | assets/runtime/xaac_update_runtime.py:433-446 | the registry only grows; completed, the bundle is blocked under this transaction |
| UpdateRuntime.CacheCandidates | assets/runtime/xaac_update_runtime.py:391-407 | no cached file is lost or changed wherever it stops; completed, every new package file is kept; read literally, an existing directory always makes it raise |
| UpdateRuntime.CheckCopy | assets/runtime/xaac_update_runtime.py:403-407 | a copy with another digest is removed again if files can be removed at all |
| UpdateRuntime.PruneRecoveryPoints | assets/runtime/xaac_update_runtime.py:449-462 | the survivors are exactly the newest `max_points` points and the current one; cut short, none of those is lost, so a point is only given up for enough others no older than it |
| UpdateRuntime.FrontIsNewest | assets/runtime/xaac_update_runtime.py:455-462 | the first entries of the sorted list are the newest points, none older than any left out |
| UpdateRuntime.PruneBound | assets/runtime/xaac_update_runtime.py:449-462 | never more than `max_points` + 1 points survive |
| UpdateTransaction.Prepare | assets/runtime/xaac_update_runtime.py:555-565 | nothing reaches installation that is blocked or lacks a finished point of the untouched machine |
| UpdateTransaction.RestoredIsOld | assets/runtime/xaac_update_runtime.py:469-517 | restoring a transaction's own point gives the versions and covered configuration from before it |
| UpdateTransaction.AllOldMeans | assets/runtime/xaac_update_runtime.py:469-517 | old is told from database and files alone: no listed package became installed, gone or another version, and every file that was at or below a configured path has its old text |
| UpdateTransaction.AllNewMeans | assets/runtime/xaac_update_runtime.py:584-589 | new is told from the database alone: every listed package is installed at the version its last entry lists |
| UpdateTransaction.PointScope | assets/runtime/xaac_update_runtime.py:477-496 | as the cache only grows, a point stays usable and its rollback stays within the transaction's packages |
| UpdateTransaction.PointIsHonest | assets/runtime/xaac_update_runtime.py:142-144 | honest cached files and Debian versions make a point whose files are the recorded versions |
| UpdateTransaction.InstallCandidate | assets/runtime/xaac_update_runtime.py:566-583 | "installing" is persisted before any package changes, with a point to undo from; packages already at their versions are left alone, and of the others what ran before is restarted |
| UpdateTransaction.ValidateCandidate | assets/runtime/xaac_update_runtime.py:584-589 | passes only with all packages at manifest versions and a healthy machine |
| UpdateTransaction.Confirm | assets/runtime/xaac_update_runtime.py:591-602 | "confirmed" is only written with all packages new, the candidates kept and the release recorded; points are pruned and staging removed only after it |
| UpdateTransaction.Undo | assets/runtime/xaac_update_runtime.py:609-620 | "rolled_back" is only written with all packages old and the bundle already blocked |
| UpdateTransaction.TryUpdate | assets/runtime/xaac_update_runtime.py:554-603 | whatever step fails, the persisted status keeps its promise and the failure handler has what it needs |
| UpdateTransaction.Transact | assets/runtime/xaac_update_runtime.py:554-640 | from "preparing" on, the try block and its handler together end confirmed, rolled back, or with the point to undo from still there |
| UpdateTransaction.ApplyUpdate | assets/runtime/xaac_update_runtime.py:520-640 | at every failure and power cut the persisted status keeps its promise about the machine; a normal return means confirmed, new and healthy, with the services that ran before running; a blocked bundle changes nothing; as long as the state file can be written, an update that raises leaves nothing in flight; a promising bundle without a fault completes, or under the literal reading is rolled back and blocked |
| UpdateTransaction.HandleFailure | assets/runtime/xaac_update_runtime.py:604-638 | never returns normally; if the state file can be written it ends rolled back or `rollback_failed`; without a fault it ends rolled back and blocked |
| UpdateRecovery.RecoverInterrupted | assets/runtime/xaac_update_runtime.py:724-756 | an installing, validating or rolling-back transaction is restored to its point, with a healthy machine, and renamed once that is done; any other state is left alone; without a fault it completes |
| UpdateRecovery.LatestRecoveryPoint | assets/runtime/xaac_update_runtime.py:643-651 | the newest point with finished metadata; none exactly when there is none |
| UpdateRecovery.ManualRollback | assets/runtime/xaac_update_runtime.py:654-683 | completed, the machine is as the newest finished point recorded it; the state file changes only then; cut anywhere, only packages of a newest point changed; without a fault it succeeds whenever the newest point is whole and its files are what it recorded |
| UpdateRecovery.RollBackAfterFailure | assets/runtime/xaac_update_runtime.py:621-683 | after `rollback_failed` the transaction's point is still there: while no later one is finished, a manual rollback that completes undoes the transaction, and without a fault it completes |
| UpdateRecovery.RestoreLatestConfiguration | assets/runtime/xaac_update_runtime.py:686-721 | completed, exactly the archived files are rewritten, from an archive with the recorded digest; cut anywhere, no other file changed; without a fault it succeeds whenever there is a finished point and the newest has its archive |
| UpdateRecovery.UpdateThenBoots | assets/runtime/xaac_update_runtime.py:520-756 | all or nothing: after a crashed update and any crashed boots, once nothing is in flight the packages are all new or all old, or the rollback itself failed and the point to undo it from is still there; written out, a rolled-back machine has every listed package and every file at or below a configured path as before, and a confirmed one every listed version; with honest package files no package outside the manifest ever changed |
| UpdateRecovery.UpdateThenCalmBoot | assets/runtime/xaac_update_runtime.py:724-756 | one boot without a fault always settles an interrupted update |
| UpdateRecovery.Run | assets/runtime/xaac_update_runtime.py:410-756 | over every run of updates, boots and manual operations: a transaction in flight can always be undone, the cache loses nothing, the registry only grows, no automatically rolled back bundle is installed again, and a recovery point stays whole and usable until as many others no older are there as the tightest policy allows |
| BaseOs.InstRoundTrip | assets/runtime/xaac_base_os_update_runtime.py:28-29 | an installation line is read back exactly, with or without an installed version, whatever blanks separate its parts and whatever follows |
| BaseOs.InstIsOnly | assets/runtime/xaac_base_os_update_runtime.py:28-28 | what is read as an installation line has that shape |
| BaseOs.RemvRoundTrip | assets/runtime/xaac_base_os_update_runtime.py:28-29 | a removal line is read back exactly, whatever blanks separate its parts and whatever follows |
| BaseOs.RemvIsOnly | assets/runtime/xaac_base_os_update_runtime.py:29-29 | what is read as a removal line has that shape |
| BaseOs.ParsePlan | assets/runtime/xaac_base_os_update_runtime.py:450-477 | the parsed plan is the one the output describes |
| BaseOs.BaseNameOf | assets/runtime/xaac_base_os_update_runtime.py:460-460 | the base name is what stands before the first colon |
| BaseOs.PlanIsComplete | assets/runtime/xaac_base_os_update_runtime.py:450-477 | every installation line appears in the plan, in order, and no other; any removal line shows |
| BaseOs.ValidatePlan | assets/runtime/xaac_base_os_update_runtime.py:480-516 | accepted if and only if nothing is removed, the limits on changed and new packages hold, no change bears a protected name or that name with a colon and an architecture, and nothing is downgraded; a reboot is advised exactly for the configured prefixes |
| BaseOs.FingerprintFixesPlan | assets/runtime/xaac_base_os_update_runtime.py:519-531 | equal fingerprints of parsed plans mean equal ordered change lists |
| BaseOs.CheckUpdates | assets/runtime/xaac_base_os_update_runtime.py:534-568 | completed, the plan is acceptable, is the simulation's, its fingerprint, size and status are recorded, and whether a reboot is advised is returned |
| BaseOs.PostHealth | assets/runtime/xaac_base_os_update_runtime.py:677-726 | healthy if and only if the probes are good and every planned package is at its candidate |
| BaseOs.DownloadAndCompare | assets/runtime/xaac_base_os_update_runtime.py:757-770 | installation is reached only if the second simulation repeats the approved list |
| BaseOs.ApplyUpdate | assets/runtime/xaac_base_os_update_runtime.py:729-830 | every installation follows two simulations of one acceptable list; a completed run has every approved package at its candidate; a caught failure after a change, or after completion, is recorded as needing recovery; when nothing fails it refuses, stops or installs exactly as the two simulations decide; a completed run took every step in its order, and a failed run of apt was repaired by dpkg and checked before it went on |
| BaseOs.UpdateRepeatedly | assets/runtime/xaac_base_os_update_runtime.py:480-830 | over any number of updates, completed, failed or cut short, no package ends lower than it began, and none called by a protected name, alone or with an architecture, changes, if apt and dpkg keep their word |
| BaseOs.AptHost.WriteState | assets/runtime/xaac_base_os_update_runtime.py:139-157 | the update is merged into the persisted state, atomically |
| Firewall.WalkAppend | src/xaac_thin_client_os/firewall_configuration.py:42-70 | an appended rule decides exactly the packets no earlier rule took |
| Firewall.PortRule | src/xaac_thin_client_os/firewall_configuration.py:36-40 | one port or a set, the rule matches exactly the listed ports of the protocol |
| Firewall.GeneralRules | src/xaac_thin_client_os/firewall_configuration.py:49-57 | first match over the general rules is loopback, then invalid, established, DHCP and ICMP as enabled |
| Firewall.ManagementRules | src/xaac_thin_client_os/firewall_configuration.py:62-68 | a family's rules accept exactly new connections from its networks to an offered protocol and port |
| Firewall.RulesetText | src/xaac_thin_client_os/firewall_configuration.py:42-70 | meaning preserved for every packet: the input chain accepts what the plan allows, drops other invalid packets, and leaves the rest to the policy; every set a rule names is declared with its family, no port list is empty, and set elements overlap only if the plan's networks do |
| Firewall.ParsePorts | src/xaac_thin_client_os/firewall_configuration.py:102-111 | an error if and only if some item is no port; else exactly the listed ports, rising and distinct |
| Firewall.CreatePlan | src/xaac_thin_client_os/firewall_configuration.py:114-166 | a plan if and only if the root is a deep enough `rootfs` and the configuration acceptable; it opens exactly the configured ports to the configured networks |
| Firewall.AcceptedExactly | src/xaac_thin_client_os/firewall_configuration.py:114-166 | acceptable, written out: drop policies, at least one network, none with a host bit set, ports from 1 to 65535, a state path below the agent's directory |
| Firewall.ContainsIs | src/xaac_thin_client_os/firewall_configuration.py:135-141 | a network without host bits holds exactly the addresses that share its prefix |
| Firewall.PrefixIs | src/xaac_thin_client_os/firewall_configuration.py:137-137 | the prefix is the quotient by a power of two, and the host bits are zero exactly if there is no remainder |
| Firewall.NoOverlapExactly | src/xaac_thin_client_os/firewall_configuration.py:135-141 | splitting the sources by family creates no overlap and hides none |
| Firewall.Compile | src/xaac_thin_client_os/firewall_configuration.py:114-200 | from configuration to ruleset, a packet gets in if and only if the configuration says so, with the kinds of ICMP, the acceptance conditions and the networks' prefixes written out; nothing is forwarded, and the output policy is the configured one; it is loaded at boot if and only if enabled; no address lies in two elements of a set if and only if none lies in two configured networks of a family |
| Partitioning.Commands | src/xaac_thin_client_os/partitioning.py:44-64 | command by command: the disk is wiped, partition i is created with its own number, type and label where the one before ends, the table is read again, and partition i's own node gets the file system its entry names |
| Partitioning.LayoutFits | src/xaac_thin_client_os/partitioning.py:149-155 | for every accepted plan the intervals are consecutive, disjoint, and inside alignment and disk size |
| Partitioning.ReadSpecs | src/xaac_thin_client_os/partitioning.py:119-148 | accepted if and only if every partition is sound and unlike each other one in number, label and mount |
| Partitioning.CreatePlan | src/xaac_thin_client_os/partitioning.py:101-155 | a plan if and only if the root is neither `/` nor right below it, no part of the device's path below /dev is `..`, and every rule on the configuration, written out, holds; its partitions are the configured ones in number order, their type codes in upper case |
| Partitioning.AcceptedExactly | src/xaac_thin_client_os/partitioning.py:106-155 | the configuration's rules, written out |
| Partitioning.ImageBuilder.PartitionDevice | src/xaac_thin_client_os/bootable_image.py:164-174 | completed, the builder has wiped, created, reread and formatted command by command as the plan's entries say, on nodes named with a `p`; nothing runs after the first command that fails |
| Partitioning.SameLayout | src/xaac_thin_client_os/bootable_image.py:164-174 | the builder's commands are the plan's if and only if the device name ends in a digit or there is nothing to format |
| Partitioning.ImageBuilder.Execute | src/xaac_thin_client_os/bootable_image.py:136-200 | a completed build ran the whole script for an image of the planned size; however it ends, an umount is attempted for every mount in reverse order and whatever losetup named is detached; where removing the mount directory meets no error, a completed build keeps what was written to its root if and only if every umount succeeded; without a fault it completes for a loop device |
| Profiles.ChainLoader.Visit | src/xaac_thin_client_os/packages.py:56-81 | terminates on every finite profile set; returns the rest of the lineage or the error the links lead to |
| Profiles.LoadProfileChain | src/xaac_thin_client_os/packages.py:56-81 | a cycle error if and only if the links meet a name twice; it succeeds if and only if there is a line of files each extending the one before, without repeats, in which nothing is both asked for and excluded, and returns it, oldest first; any other error says what is wrong with the parent it names |
| Profiles.LineageHasNoRepeats | src/xaac_thin_client_os/packages.py:62-72 | a complete lineage rules out any repeated name along the links |
| Profiles.LineageIsChain | src/xaac_thin_client_os/packages.py:56-81 | following the links and reading off the files tell the same line |
| Profiles.LoadExactly | src/xaac_thin_client_os/packages.py:37-53 | a profile fails to load exactly as its file, its name or its packages are wrong |
| Profiles.AcceptGroups | src/xaac_thin_client_os/packages.py:99-104 | each source is recorded sorted, without exclusions, and the selection is their union |
| Profiles.ResolvePackages | src/xaac_thin_client_os/packages.py:84-111 | the list is sorted, distinct, equal to the wanted minus the excluded, and equal to the union of its recorded sources, which are the four groups and one for each profile, by name; it succeeds if and only if the line of profiles does |
| Sorting.StrictIsUnique | src/xaac_thin_client_os/packages.py:106-108 | a sorted repeat-free list is determined by its members |
| Sorting.StringLeIs | src/xaac_thin_client_os/packages.py:102-107 | names are ordered by the first character in which they differ |
| FileIntegrity.Rootfs.FilesUnder | src/xaac_thin_client_os/file_integrity.py:64-77 | the enumeration yields exactly the monitored files of the tree as it was, whatever has been copied meanwhile |
| FileIntegrity.Rootfs.Install | src/xaac_thin_client_os/file_integrity.py:78-95 | the manifest lists exactly the watched files, told by path and name, with the digests of what they held; only outputs, baseline and new directories change, and the tree stays a file system; nothing then differs; a fresh baseline holds every file; unless another output has its path, the manifest is what is at the manifest's path; it succeeds whenever every copy and output has a free place |
| FileIntegrity.ManifestSurvives | src/xaac_thin_client_os/file_integrity.py:86-95 | if no later output has the manifest's path, verification reads back exactly the recorded entries; if one has, it reads none |
| FileIntegrity.OpenAfterCopy | src/xaac_thin_client_os/file_integrity.py:82-94 | a copy to the baseline takes the place of no other copy and of no output |
| FileIntegrity.CopyToBaseline | src/xaac_thin_client_os/file_integrity.py:82-84 | copying one file keeps the monitored tree and every earlier copy |
| FileIntegrity.StaysWellFormed | src/xaac_thin_client_os/file_integrity.py:82-95 | copies and writes create the directories above what they put there |
| FileIntegrity.Rootfs.InstallThenVerify | src/xaac_thin_client_os/file_integrity.py:78-108 | a verification right after installation reports nothing, or fails because another output has taken the manifest's place |
| FileIntegrity.Rootfs.Verify | src/xaac_thin_client_os/file_integrity.py:96-108 | reports exactly the entries whose file is gone or differs, changing nothing without repair; a file that is no JSON object fails it, and an object without a list counts as empty |
| FileIntegrity.RepairExact | src/xaac_thin_client_os/file_integrity.py:100-107 | repair completes and verifies clean if and only if no differing file was replaced by a directory or lost one above it to a file |
| FileIntegrity.RepairMissesDirectory | src/xaac_thin_client_os/file_integrity.py:104-107 | a concrete tree on which repair reports success and leaves a difference |
| FileIntegrity.CopiedInto | src/xaac_thin_client_os/file_integrity.py:104-106 | a directory in the place of a file takes the copy in, under the file's name |
| FileIntegrity.Rootfs.RepairThenVerify | src/xaac_thin_client_os/file_integrity.py:96-108 | repair then verify is clean exactly under that condition, told by what stands at and above each differing path; every entry then holds its recorded contents, and nothing changed but at and below the entries' paths |
| ReleaseImport.FamiliesAreDisjoint | src/xaac_thin_client_os/component_release_import.py:51-80 | no file matches the globs of two components, nor the Agent's |
| ReleaseImport.FamilyIs | src/xaac_thin_client_os/component_release_import.py:51-80 | each component's package and file names, written out |
| ReleaseImport.AgentFamilyIs | src/xaac_thin_client_os/agent_release_import.py:84-86 | the Agent's file names, written out |
| ReleaseImport.BaseNameIs | src/xaac_thin_client_os/component_release_import.py:153-171 | the name of a path is its last part, whatever stands before it and however it ends |
| ReleaseImport.VouchesExactly | src/xaac_thin_client_os/component_release_import.py:153-239 | evidence vouches for a file exactly if it states its package, version and digest, the digest possibly only under its artifact, and every architecture, name or size it states is the file's |
| ReleaseImport.VouchesForOne | src/xaac_thin_client_os/component_release_import.py:196-239 | no evidence vouches for two different files, nor, if it states a name, under two names |
| ReleaseImport.PlacesAre | src/xaac_thin_client_os/component_release_import.py:135-143 | for a release `stem.deb` the candidates begin with `stem.json`, `stem.evidence.json` and `stem.provenance.json`, and the others are the names that end in `.json` |
| ReleaseImport.WithJsonIs | src/xaac_thin_client_os/component_release_import.py:138-138 | the derived name drops what follows the last dot, unless that dot begins or ends the name |
| ReleaseImport.JsonCandidates | src/xaac_thin_client_os/component_release_import.py:135-150 | the JSON files of the directory, the artifact's own name first, each resolved path once: a file is left out exactly when an earlier one leads to it |
| ReleaseImport.LoadMatchingEvidence | src/xaac_thin_client_os/component_release_import.py:196-239 | evidence is found if and only if some vouching file that no earlier link has claimed comes before every file whose reading raises what nobody catches; it is the first such, and vouches for this very file; an error if and only if there is neither |
| ReleaseImport.LinkHidesEvidence | src/xaac_thin_client_os/component_release_import.py:143-206 | a concrete directory in which a link hides the vouching file it leads to |
| ReleaseImport.UnreadableHidesEvidence | src/xaac_thin_client_os/component_release_import.py:206-213 | a concrete directory in which a file that is no UTF-8 ends the search before the vouching file |
| ReleaseImport.FailureRestoresExactly | src/xaac_thin_client_os/component_release_import.py:323-364 | an import that fails its final validation leaves the packages as they were if and only if no family member was a link and each of artifact and evidence is in the family or was there with the same file |
| ReleaseImport.EvidenceLeftBehind | src/xaac_thin_client_os/component_release_import.py:323-364 | a concrete importable directory whose failed import leaves its evidence behind |
| ReleaseImport.Repository.Import | src/xaac_thin_client_os/component_release_import.py:270-373 | success: the profile names the imported file with matching metadata and digest, with a document beside it that attests it, no other file of the component is left and every other file is as it was; caught failure: profile restored, packages too exactly under the conditions above; refused if and only if not importable, unless the search breaks off, which leaves everything untouched; imported if importable and no step fails |
| ReleaseImport.Repository.ImportAgent | src/xaac_thin_client_os/agent_release_import.py:58-122 | the same for the Agent, where links come back as the files they led to and a linked provenance, named after the artifact, is imported as the file it leads to; the profile takes the version, name and digest of the imported file |
| ReleaseImport.ProvenanceInFamily | src/xaac_thin_client_os/agent_release_import.py:84-86 | a matching artifact name makes its provenance name match too |
| PolicyApplication.StagedNameInjective | src/xaac_thin_client_os/policy_application.py:138-143 | staging one policy never overwrites another's staged file |
| PolicyApplication.ValidatesExactly | src/xaac_thin_client_os/policy_application.py:77-98 | a document is valid exactly if it has the profile's format and version, a well-formed identifier, a revision from 1, some sections and only allowed ones, the payload's own digest, and no more than the allowed size |
| PolicyApplication.DecimalIs | src/xaac_thin_client_os/policy_application.py:140-140 | a revision's digits have its value |
| PolicyApplication.Manager.Stage | src/xaac_thin_client_os/policy_application.py:138-143 | only a valid document is staged, under a name made of its identifier and revision; every other staged policy and all policy files stay |
| PolicyApplication.Manager.Apply | src/xaac_thin_client_os/policy_application.py:145-158 | only a valid staged document becomes active, and without a failed step it does; wherever it is cut, the previous policy is still active or is the rollback copy |
| PolicyApplication.Manager.Confirm | src/xaac_thin_client_os/policy_application.py:160-164 | the state names the active policy; refused without one |
| PolicyApplication.Manager.Rollback | src/xaac_thin_client_os/policy_application.py:166-174 | fails for want of an intact copy only, which only an interrupted apply can damage; repeatable |
| PolicyApplication.ApplyThenRollBack | src/xaac_thin_client_os/policy_application.py:145-174 | with any staging and confirming between, rollback makes the previous policy active again and the state names it |
| PolicyApplication.Run | src/xaac_thin_client_os/policy_application.py:120-187 | over every run the active policy is valid; the rollback copy is intact unless an apply failed and none has completed since; after any completed call the state names the active policy; without a fault both always hold, and a rollback completes if and only if two applies did before it |
| IpAddressing.RankIsIndex | src/xaac_thin_client_os/ip_addressing.py:154-155 | entry k of the falling list has exactly k newer snapshots |
| IpAddressing.AtMostKeep | src/xaac_thin_client_os/ip_addressing.py:153-155 | at most `keep_snapshots` snapshots are among the newest |
| IpAddressing.Manager.Prune | src/xaac_thin_client_os/ip_addressing.py:153-155 | exactly the newest survive; cut short, none of those is lost |
| IpAddressing.Manager.Apply | src/xaac_thin_client_os/ip_addressing.py:134-156 | whatever the clock says: either nothing changed, or the text that was active is, as read, among the snapshots and none of the newest is lost; completed, exactly the newest remain; an active file that is no text is never replaced; where the active file changed and the pending marker is gone, the state says applied |
| IpAddressing.Manager.Rollback | src/xaac_thin_client_os/ip_addressing.py:158-168 | the newest snapshot, as read, becomes active and is kept; refused without one, or if it is no text |
| IpAddressing.ApplyThenRollBack | src/xaac_thin_client_os/ip_addressing.py:134-168 | an apply completed or interrupted after its snapshot, then any rollbacks, gives back the newest snapshot taken; unless one is named later than the clock, that is the exact text from before if and only if it held no carriage return |
| SnapshotUndo.Rootfs.ApplySupplicant | src/xaac_thin_client_os/ieee8021x_configuration.py:82-92 | wherever it stops, targets are untouched or the snapshot holds them as they were read; a target that is no text stops it before any change; where a target changed and the pending marker is gone, every target and status file is written |
| SnapshotUndo.Rootfs.Rollback | src/xaac_thin_client_os/ieee8021x_configuration.py:93-103 | completed, every target is as the snapshot has it, absent ones removed |
| SnapshotUndo.CarriageReturnIsLost | src/xaac_thin_client_os/ieee8021x_configuration.py:86-86 | a concrete file that the snapshot does not give back |
| SnapshotUndo.RestoredExactly | src/xaac_thin_client_os/ieee8021x_configuration.py:86-102 | targets that hold what the snapshot held are as they were before if and only if none held a carriage return |
| SnapshotUndo.UndoSupplicant | src/xaac_thin_client_os/ieee8021x_configuration.py:82-103 | apply completed or cut after its snapshot, then rollback, gives every target back as it was read, absent ones absent; exactly as it was if and only if none held a carriage return |
| SnapshotUndo.Rootfs.ApplyAdmin | src/xaac_thin_client_os/local_admin.py:118-136 | the same for the administrator's files; the shadow file is as it was or completely edited |
| SnapshotUndo.UndoAdmin | src/xaac_thin_client_os/local_admin.py:118-147 | apply then rollback gives every target back under the same exact condition; the shadow file is not undone: after a completed apply it is completely edited |
| ShadowEdit.RewriteShadow | src/xaac_thin_client_os/local_admin.py:128-134 | rewritten if and only if some line's first field of several is the user; an error if and only if such a line has fewer than three fields; read back field by field, in those lines only the hash and, if forced, the date are new, and all other lines are equal |
| ShadowEdit.UserLineIs | src/xaac_thin_client_os/local_admin.py:131-131 | a line is the user's if and only if its first field of several is the name |
| ShadowEdit.EditLineFields | src/xaac_thin_client_os/local_admin.py:131-132 | only the hash and, if forced, the date field change; the user stays |
| ShadowEdit.SplitJoin | src/xaac_thin_client_os/local_admin.py:132-132 | joined fields split back into themselves |
| ShadowEdit.JoinSplit | src/xaac_thin_client_os/local_admin.py:132-132 | a split line joins back into itself |
| ShadowEdit.LinesOfJoin | src/xaac_thin_client_os/local_admin.py:129-134 | the rewritten file reads back as the edited lines |
| SnapshotUndo.Rootfs.ApplyServices | src/xaac_thin_client_os/network_services.py:159-172 | wherever it stops, targets are untouched or the snapshot holds them as they were read |
| SnapshotUndo.Rootfs.RollbackServices | src/xaac_thin_client_os/network_services.py:174-190 | completed, exactly the targets of the snapshot are put back, the others left as they are |
| SnapshotUndo.ServicesUndoExactly | src/xaac_thin_client_os/network_services.py:159-190 | the undo is exact if and only if no target that existed held a carriage return and no target the apply created is there |
| SnapshotUndo.UndoServices | src/xaac_thin_client_os/network_services.py:159-190 | a completed apply is undone exactly if and only if all targets existed before and none held a carriage return |
| Common.TranslateExact | src/xaac_thin_client_os/network_services.py:164-164 | reading in text mode gives the stored text if and only if it holds no carriage return |
| Common.TranslateBreaks | src/xaac_thin_client_os/network_services.py:164-164 | each of the three line breaks becomes one newline and nothing else changes |
| FirstBoot.ReadSerial | src/xaac_thin_client_os/device_identity.py:73-81 | the first file with a usable serial; an error if and only if none has one |
| FirstBoot.UsableSerialIs | src/xaac_thin_client_os/device_identity.py:73-81 | a stripped serial is usable exactly if it has one to 128 letters, digits and allowed marks and is none of the placeholders, in any case |
| FirstBoot.ReadMac | src/xaac_thin_client_os/device_identity.py:84-99 | the usable address of the interface whose name sorts first; an error if and only if none has one |
| FirstBoot.UsableMacIs | src/xaac_thin_client_os/device_identity.py:94-96 | an address is usable exactly if it reads as six pairs of hexadecimal digits, is not all zero and is no group address |
| FirstBoot.Device.CreateIdentity | src/xaac_thin_client_os/device_identity.py:117-175 | refused under `/` or a root right below it whatever is there; else an existing identity is returned unchanged, and a new one is recorded last: its host name is the prefix, a hyphen and the first eight digits of the UUID, its serial and address are the first usable ones, and a blank or absent machine id becomes the UUID's digits; with no failed step it succeeds if and only if the root is accepted and there is an identity or what makes one |
| FirstBoot.HostnamesAgree | src/xaac_thin_client_os/device_identity.py:136-136 | two devices of one prefix share a host name if and only if their UUIDs share the first eight digits |
| FirstBoot.HostIs | src/xaac_thin_client_os/device_identity.py:22-22 | a host name is one to sixty-three letters, digits and hyphens that neither begins nor ends with a hyphen |
| FirstBoot.Device.Run | src/xaac_thin_client_os/first_boot.py:159-194 | an identity once recorded never changes; a completed run reports it; a marker without a completed state is left only by a run that failed after creating it; with the marker present nothing changes, and without a completed state the run fails; a first run completes only on sound hardware under an accepted root with an identity or what makes one, and then does if no step fails |
| FirstBoot.RunRepeatedly | src/xaac_thin_client_os/first_boot.py:159-201 | over any runs and power cuts all completed runs report one identity, with the host name in agreement; the marker implies a completed state after any runs that completed or lost power before failing; once it does not, no later run completes; under a root the identity manager refuses no run completes at all |
| FirstBoot.AsInstalled | src/xaac_thin_client_os/first_boot.py:136-136 | the installed service passes `/`: from a freshly imaged device no run ever completes and no identity is ever recorded |

## Left out

- State-file fields nobody reads back: timestamps, previous and changed package lists, check details, error texts.
- Lock contents and the audit log: a step that may fail, without other effect.
- What a restart does to an application: it shows only in the health readings, which are free.  A service whose unit systemd no longer knows counts as restarted.
- Signatures, symbolic-link defences, file modes, ownership and path-traversal checks: their results are hypotheses.
- JSON, YAML, tar, nft and systemd text: taken as the values they encode.
- The updater's own state files are assumed disjoint from the archived configuration and from what dpkg unpacks.
- UpdateRecovery.ManualRollback: does not promise to be continued after a power cut, because the code persists nothing before it starts.
- UpdateTransaction.ApplyUpdate: a `rollback_failed` status says nothing of the transaction's own packages, which may be in any state; it promises the point to restore them from.
- UpdateRecovery.Run: a point whose removal was cut short still counts among the others, as it does in the code.
- BaseOs.ApplyUpdate: preflight, sources, downloads and service probes are steps with a free result, recorded as taken; an exception the code does not catch counts as a power cut.
- BaseOs.UpdateRepeatedly: version order is any total preorder, as section 5.6.12 of the Debian Policy Manual defines one.
- Firewall.RulesetText: reading a network from its text is not modelled; networks come parsed.  What nft does with overlapping elements is up to nft; when there are any is stated.
- Firewall.CreatePlan: missing or unknown keys in the YAML file are refused by the code; the model starts from a file with the right keys.
- Partitioning.LayoutFits: arithmetic in MiB, as in the code; sector-exact ends and the backup table are not modelled.
- Partitioning.ImageBuilder.Execute: compressing and hashing the finished image are left out.
- Profiles.ResolvePackages: reading a profile's other fields.
- FileIntegrity.Rootfs.Install: failures of the operating system are those the shape of the tree forces; sizes and the log are not modelled, entries come in some order, and a disk that fills up is not modelled.
- FileIntegrity.Rootfs.Verify: the generated stand-alone verifier script is text to the program; repair assumes a manifest as installed.
- ReleaseImport.Repository.Import: directories among the packages and links outside the family are excluded; only failures the code catches promise a restoration.
- ReleaseImport.Repository.ImportAgent: the Agent's canonical-release and integration checks are free to refuse for more than the shared checks.
- PolicyApplication.Manager.Install: on an empty root only; on a used one it would reset the state under an active policy.
- IpAddressing.Manager.Apply: rendering and validating the network plan (gateway, DNS) is left out.
- SnapshotUndo.Rootfs.ApplyAdmin: the profile is assumed to give every file its own path; the shadow file's only line breaks are newlines and carriage returns.
- FirstBoot.AsInstalled: an image whose identity or completed state was put there by other means is not a freshly imaged device; for it `Run` holds.
- FirstBoot.Device.Run: reading memory, product name and eMMC is one free result; random identifiers are given.
- The many validate-and-write modules (hardening, kiosk, graphics, audio, recovery assets), hardware inventory, `cli.py`, the recovery menu and text sanitising: field checks, text and dispatch that would add only easy members.
