/** The machine under the transactional updater: its files, its dpkg database, and the single steps
    that change them.  Every step may raise, and the power may fail before, after or inside it. */
module UpdateHost {
  import opened Common
  import opened UpdateModel

  /** Which of the updated applications ran before the packages were touched. */
  datatype Before = Before(clientRunning: bool, agentActive: bool, vpnActive: bool)

  /** One reading of everything the health check looks at besides package versions. */
  datatype Reading = Reading(
    auditClean: bool, aptClean: bool, missingExecutables: set<Package>,
    agentActive: bool, vpnActive: bool, clientSeen: bool)

  const EXECUTABLES: set<Package> := {
    "xaac-thinclient", "xaac-thin-client-vpn", "xaac-thin-client-network", "xaac-thin-client-dock", "xaac-agent"
  }

  predicate Healthy(r: Reading, packages: set<Package>, before: Before) {
    && r.auditClean && r.aptClean
    && packages * EXECUTABLES * r.missingExecutables == {}
    && (before.agentActive ==> r.agentActive)
    && (before.vpnActive ==> r.vpnActive)
    && (before.clientRunning ==> r.clientSeen)
  }

  class Host {
    /** True: creating a cache directory that exists raises, as `Path.mkdir` does without
        `exist_ok`.  False: it is accepted. */
    const strictMkdir: bool

    /** Hypotheses about the disk: the state file can be written, a file just written can be removed. */
    const writable: bool
    const removes: bool

    var txState: Option<TxState>             // transaction-state.json
    var rollbackState: Option<TxId>          // rollback-state.json
    var blocked: seq<BlockedEntry>           // blocked-versions.json
    var release: Option<File>                // current-release.json
    var staging: map<TxId, map<string, File>>
    var points: Points
    var cache: Cache
    var cacheDirs: set<Package>
    var dpkg: Database
    var config: Configuration

    /** Every state file ever written, in order. */
    ghost var journal: seq<Entry>

    /** The latest reading of the machine's health. */
    ghost var reading: Option<Reading>

    /** The applications restarted since packages last changed. */
    ghost var restarted: set<Package>

    /** Which applications ran when the machine was last looked at before a change. */
    ghost var probed: Before

    /** No step of the current call has raised, lost power or read an unhealthy machine. */
    ghost var calm: bool

    /** What every run keeps, at every point where the power can fail. */
    ghost predicate Valid()
      reads this
    {
      && (forall k <- cache :: k.0 in cacheDirs)
      && Recoverable()
      && NoReinstall(journal)
      && JournalBlocked(journal, blocked)
      && (txState.Some? && txState.value.status.RolledBack? ==>
            exists e <- blocked :: e.txid == txState.value.txid)
    }

    /** A transaction in flight names a recovery point from which it can be undone. */
    ghost predicate Recoverable()
      reads this
    {
      InFlight(txState) ==>
        && txState.value.point.Some?
        && txState.value.point.value in points
        && Usable(points[txState.value.point.value], cache)
    }

    constructor (
      strictMkdir: bool, writable: bool, removes: bool, dpkg: Database, config: Configuration, cache: Cache)
      ensures Valid() && this.strictMkdir == strictMkdir && this.writable == writable && this.removes == removes
      ensures this.dpkg == dpkg && this.config == config && this.cache == cache
      ensures txState.None? && blocked == [] && points == map[]
    {
      this.strictMkdir, this.writable, this.removes := strictMkdir, writable, removes;
      this.dpkg := dpkg;
      this.config := config;
      this.cache := cache;
      cacheDirs := set k | k in cache :: k.0;
      txState, rollbackState, release := None, None, None;
      probed, restarted := Before(false, false, false), {};
      blocked, staging, points, journal, calm, reading := [], map[], map[], [], true, None;
    }

    /** A step without lasting effect: a probe, the lock, the audit log, a service restart. */
    method Step() returns (o: Outcome)
      modifies this`calm
      ensures calm <==> old(calm) && o.Done?
    {
      o := *;
      calm := calm && o.Done?;
    }

    // -------------------------------------------------------------- state files (atomic replace)

    method WriteTxState(state: TxState, ghost about: Option<Bundle>) returns (o: Outcome)
      modifies this`txState, this`journal, this`calm
      ensures calm <==> old(calm) && o.Done?
      ensures o.Done? ==> txState == Some(state)
      ensures o.Raised? ==> txState == old(txState) && !writable
      ensures || (txState == old(txState) && journal == old(journal))
              || (txState == Some(state) && journal == old(journal) + [Entry(state.status, about)])
    {
      o := *;
      if writable && o.Raised? {
        o := Done;
      }
      var reached: bool := *;
      if o.Done? || (o.Crashed? && reached) {
        txState := Some(state);
        journal := journal + [Entry(state.status, about)];
      }
      calm := calm && o.Done?;
    }

    method WriteRollbackState(txid: TxId) returns (o: Outcome)
      modifies this`rollbackState, this`calm
      ensures calm <==> old(calm) && o.Done?
      ensures o.Done? ==> rollbackState == Some(txid)
    {
      o := *;
      var reached: bool := *;
      if o.Done? || reached {
        rollbackState := Some(txid);
      }
      calm := calm && o.Done?;
    }

    method WriteBlocked(registry: seq<BlockedEntry>) returns (o: Outcome)
      modifies this`blocked, this`calm
      ensures calm <==> old(calm) && o.Done?
      ensures o.Done? ==> blocked == registry
      ensures blocked == old(blocked) || blocked == registry
    {
      o := *;
      var reached: bool := *;
      if o.Done? || (o.Crashed? && reached) {
        blocked := registry;
      }
      calm := calm && o.Done?;
    }

    // -------------------------------------------------------------- copies (not atomic)

    method WriteRelease(file: File) returns (o: Outcome)
      modifies this`release, this`calm
      ensures calm <==> old(calm) && o.Done?
      ensures o.Done? ==> release == Some(file)
    {
      o := *;
      release := *;
      if o.Done? {
        release := Some(file);
      }
      calm := calm && o.Done?;
    }

    method CreateStaging(txid: TxId) returns (o: Outcome)
      modifies this`staging, this`calm
      ensures calm ==> old(calm)
      ensures o.Done? && old(calm) ==> calm
      ensures o.Done? ==> txid !in old(staging) && staging == old(staging)[txid := map[]]
      ensures calm && txid !in old(staging) ==> o.Done?
      ensures forall t <- old(staging) :: t in staging && staging[t] == old(staging)[t]
    {
      if txid in staging {
        return Raised;
      }
      o := *;
      var reached: bool := *;
      if o.Done? || reached {
        staging := staging[txid := map[]];
      }
      calm := calm && o.Done?;
    }

    method StageFile(txid: TxId, name: string, file: File) returns (o: Outcome)
      requires txid in staging
      modifies this`staging, this`calm
      ensures calm <==> old(calm) && o.Done?
      ensures staging.Keys == old(staging).Keys
      ensures o.Done? ==> staging == old(staging)[txid := old(staging)[txid][name := file]]
    {
      o := *;
      var torn: File := *;
      staging := staging[txid := staging[txid][name := if o.Done? then file else torn]];
      calm := calm && o.Done?;
    }

    /** `shutil.rmtree(..., ignore_errors=True)`: never raises, may leave anything behind. */
    method DropStaging(txid: TxId) returns (o: Outcome)
      modifies this`staging, this`calm
      ensures calm ==> old(calm) && o.Done? && staging == old(staging) - {txid}
      ensures !o.Raised? && staging - {txid} == old(staging) - {txid}
    {
      var lost: bool, complete: bool, rest: map<string, File> := *, *, *;
      o := if lost then Crashed else Done;
      staging := if complete then staging - {txid} else staging[txid := rest];
      calm := calm && o.Done? && complete;
    }

    // -------------------------------------------------------------- recovery points

    method CreatePoint(txid: TxId) returns (o: Outcome)
      modifies this`points, this`calm
      ensures calm ==> old(calm)
      ensures o.Done? && old(calm) ==> calm
      ensures o.Done? ==> txid !in old(points) && points.Keys == old(points).Keys + {txid}
      ensures calm && txid !in old(points) ==> o.Done?
      ensures forall t <- old(points) :: t in points && points[t] == old(points)[t]
      ensures points.Keys <= old(points).Keys + {txid}
    {
      if txid in points {
        return Raised;
      }
      o := *;
      var reached: bool := *;
      var now: nat := *;
      if o.Done? || reached {
        points := points[txid := Point(now, None, None, None)];
      }
      calm := calm && o.Done?;
    }

    /** Writes one file of a point; a copy cut short leaves that file in any state. */
    method WriteArchive(txid: TxId, archive: Configuration) returns (o: Outcome)
      requires txid in points
      modifies this`points, this`calm
      ensures calm <==> old(calm) && o.Done?
      ensures points.Keys == old(points).Keys
      ensures forall t <- points :: t != txid ==> points[t] == old(points)[t]
      ensures o.Done? ==> points[txid].archive == Some(archive)
    {
      o := *;
      var torn: Option<Configuration> := *;
      var now: nat := *;
      points := points[txid := points[txid].(mtime := now, archive := if o.Done? then Some(archive) else torn)];
      calm := calm && o.Done?;
    }

    method WriteReleaseCopy(txid: TxId, file: File) returns (o: Outcome)
      requires txid in points
      modifies this`points, this`calm
      ensures calm <==> old(calm) && o.Done?
      ensures points.Keys == old(points).Keys
      ensures forall t <- points :: t != txid ==> points[t] == old(points)[t]
      ensures o.Done? ==> points[txid].releaseCopy == Some(file) && points[txid].archive == old(points)[txid].archive
    {
      o := *;
      var torn: Option<File> := *;
      var now: nat := *;
      points := points[txid := points[txid].(mtime := now, releaseCopy := if o.Done? then Some(file) else torn)];
      calm := calm && o.Done?;
    }

    method WriteMetadata(txid: TxId, metadata: Metadata) returns (o: Outcome)
      requires txid in points
      modifies this`points, this`calm
      ensures calm <==> old(calm) && o.Done?
      ensures points.Keys == old(points).Keys
      ensures forall t <- points :: t != txid ==> points[t] == old(points)[t]
      ensures o.Done? ==>
        exists now: nat :: points[txid] == old(points)[txid].(mtime := now, metadata := Some(metadata))
    {
      o := *;
      var reached: bool := *;
      var now: nat := *;
      if o.Done? || reached {
        points := points[txid := points[txid].(mtime := now, metadata := Some(metadata))];
      }
      calm := calm && o.Done?;
    }

    /** `shutil.rmtree`: cut short, it leaves the directory with any of its files gone. */
    method RemovePoint(txid: TxId) returns (o: Outcome)
      requires txid in points
      modifies this`points, this`calm
      ensures calm <==> old(calm) && o.Done?
      ensures o.Done? ==> points == old(points) - {txid}
      ensures points.Keys <= old(points).Keys
      ensures forall t <- old(points) :: t != txid ==> t in points && points[t] == old(points)[t]
    {
      o := *;
      var gone: bool := *;
      var now: nat, lostArchive: bool, lostCopy: bool, lostMetadata: bool := *, *, *, *;
      if o.Done? || gone {
        points := points - {txid};
      } else {
        var p := points[txid];
        points := points[txid := Point(
          now,
          if lostArchive then None else p.archive,
          if lostCopy then None else p.releaseCopy,
          if lostMetadata then None else p.metadata)];
      }
      calm := calm && o.Done?;
    }

    // -------------------------------------------------------------- package cache

    method CreateCacheDir(package: Package) returns (o: Outcome)
      modifies this`cacheDirs, this`calm
      ensures calm ==> old(calm)
      ensures o.Done? && old(calm) ==> calm
      ensures o.Done? ==> package in cacheDirs
      ensures old(cacheDirs) <= cacheDirs
      ensures strictMkdir && package in old(cacheDirs) ==> o.Raised?
      ensures calm && !(strictMkdir && package in old(cacheDirs)) ==> o.Done?
    {
      if strictMkdir && package in cacheDirs {
        return Raised;
      }
      o := *;
      var reached: bool := *;
      if o.Done? || reached {
        cacheDirs := cacheDirs + {package};
      }
      calm := calm && o.Done?;
    }

    method CopyToCache(key: CacheKey, file: File) returns (o: Outcome)
      requires key !in cache
      modifies this`cache, this`calm
      ensures calm ==> old(calm) && o.Done? && cache == old(cache)[key := file]
      ensures CacheGrows(old(cache), cache) && cache.Keys <= old(cache).Keys + {key}
      ensures o.Done? ==> key in cache
    {
      o := *;
      var torn: File, reached: bool, exact: bool := *, *, *;
      if o.Done? || reached {
        cache := cache[key := if exact then file else torn];
      }
      calm := calm && o.Done? && exact;
    }

    method RemoveFromCache(key: CacheKey) returns (o: Outcome)
      requires key in cache
      modifies this`cache, this`calm
      ensures calm <==> old(calm) && o.Done?
      ensures o.Done? ==> cache == old(cache) - {key}
      ensures o.Raised? ==> !removes
      ensures cache == old(cache) || cache == old(cache) - {key}
    {
      o := *;
      if removes && o.Raised? {
        o := Done;
      }
      var reached: bool := *;
      if o.Done? || reached {
        cache := cache - {key};
      }
      calm := calm && o.Done?;
    }

    // -------------------------------------------------------------- packages and configuration

    method QueryInstalled(package: Package) returns (o: Outcome, version: Option<Version>)
      modifies this`calm
      ensures calm <==> old(calm) && o.Done?
      ensures o.Done? ==> version == InstalledVersion(dpkg, package)
    {
      o := Step();
      version := InstalledVersion(dpkg, package);
    }

    /** `dpkg --unpack`.  Maintainer scripts may rewrite any configuration file; a run that fails
        may have changed any subset of the packages it was given, to any state. */
    method Unpack(debs: seq<File>) returns (o: Outcome)
      modifies this`dpkg, this`config, this`calm, this`restarted
      ensures calm ==> old(calm)
      ensures o.Done? && old(calm) ==> calm
      ensures o.Done? ==> (forall f <- debs :: f.Deb?) && dpkg == UnpackAll(old(dpkg), debs)
      ensures restarted == {}
      ensures SameOutside(old(dpkg), dpkg, DebNames(debs))
      ensures calm && (forall f <- debs :: f.Deb?) ==> o.Done?
    {
      o := *;
      config := *;
      restarted := {};
      calm := calm && o.Done?;
      if o.Done? && forall f <- debs :: f.Deb? {
        UnpackAllFrame(dpkg, debs);
        dpkg := UnpackAll(dpkg, debs);
      } else {
        if o.Done? {
          o := Raised;
        }
        var damage: Database := *;
        var names := DebNames(debs);
        dpkg := (map p | p in dpkg && p !in names :: dpkg[p]) + (map p | p in damage && p in names :: damage[p]);
      }
    }

    /** `dpkg --configure`: an error unless every named package is waiting to be configured. */
    method Configure(names: set<Package>) returns (o: Outcome)
      modifies this`dpkg, this`config, this`calm, this`restarted
      ensures calm ==> old(calm)
      ensures o.Done? && old(calm) ==> calm
      ensures o.Done? ==> dpkg == ConfigureAll(old(dpkg), names)
      ensures restarted == {}
      ensures SameOutside(old(dpkg), dpkg, names)
      ensures calm && (forall p <- names :: p in old(dpkg) && old(dpkg)[p].Unpacked?) ==> o.Done?
    {
      o := *;
      config := *;
      restarted := {};
      calm := calm && o.Done?;
      if o.Done? && forall p <- names :: p in dpkg && dpkg[p].Unpacked? {
        dpkg := ConfigureAll(dpkg, names);
      } else {
        if o.Done? {
          o := Raised;
        }
        var damage: Database := *;
        dpkg := (map p | p in dpkg && p !in names :: dpkg[p]) + (map p | p in damage && p in names :: damage[p]);
      }
    }

    /** Extracts an archive over the root: rewrites its members and nothing else. */
    method Extract(archive: Configuration) returns (o: Outcome)
      modifies this`config, this`calm
      ensures calm <==> old(calm) && o.Done?
      ensures o.Done? ==> config == old(config) + archive
      ensures config - archive.Keys == old(config) - archive.Keys
    {
      o := *;
      calm := calm && o.Done?;
      if o.Done? {
        config := config + archive;
      } else {
        var damage: Configuration := *;
        config := (config - archive.Keys) + (map path | path in damage && path in archive :: damage[path]);
      }
    }

    /** Restarts an application; of a service only if systemd still knows it. */
    method Restart(package: Package) returns (o: Outcome)
      modifies this`calm, this`restarted
      ensures calm <==> old(calm) && o.Done?
      ensures o.Done? ==> restarted == old(restarted) + {package}
      ensures old(restarted) <= restarted <= old(restarted) + {package}
    {
      o := Step();
      if o.Done? {
        restarted := restarted + {package};
      }
    }

    // -------------------------------------------------------------- probes

    /** The services part of a snapshot; a stopped service is not a fault. */
    method ProbeBefore(packages: set<Package>) returns (o: Outcome, before: Before)
      modifies this`calm, this`probed
      ensures calm <==> old(calm) && o.Done?
      ensures probed == before
      ensures before.clientRunning ==> "xaac-thinclient" in packages
      ensures before.agentActive ==> "xaac-agent" in packages
      ensures before.vpnActive ==> "xaac-thin-client-vpn" in packages
    {
      o := Step();
      var client: bool, agent: bool, vpn: bool := *, *, *;
      before := Before(
        "xaac-thinclient" in packages && client,
        "xaac-agent" in packages && agent,
        "xaac-thin-client-vpn" in packages && vpn);
      probed := before;
    }

    method ReadHealth(packages: set<Package>, before: Before) returns (o: Outcome, r: Reading)
      modifies this`calm, this`reading
      ensures calm <==> old(calm) && o.Done? && Healthy(r, packages, before)
      ensures reading == Some(r)
    {
      o := Step();
      r := *;
      reading := Some(r);
      calm := calm && Healthy(r, packages, before);
    }
  }

  lemma {:induction false} UnpackAllFrame(db: Database, debs: seq<File>)
    requires forall f <- debs :: f.Deb?
    ensures SameOutside(db, UnpackAll(db, debs), DebNames(debs))
  {
    if debs != [] {
      var front := debs[..|debs| - 1];
      UnpackAllFrame(db, front);
      assert debs[|debs| - 1] in debs;
      assert DebNames(debs) == DebNames(front) + {debs[|debs| - 1].package};
    }
  }
}
