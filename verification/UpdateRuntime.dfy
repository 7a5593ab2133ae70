/** The transactional updater itself: recovery points, installation, health check, rollback, the
    registry of blocked bundles, pruning, and recovery at boot. */
module UpdateRuntime {
  import opened Common
  import opened UpdateModel
  import opened UpdateHost
  import Sorting

  // ---------------------------------------------------------------- staging

  function TotalSize(bundle: map<string, File>, cs: seq<Component>): nat
    requires forall c <- cs :: c.filename in bundle
  {
    if cs == [] then 0 else TotalSize(bundle, cs[..|cs| - 1]) + Size(bundle[cs[|cs| - 1].filename])
  }

  ghost predicate Verified(files: map<string, File>, cs: seq<Component>) {
    forall c <- cs :: c.filename in files && Sha256(files[c.filename]) == c.sha256
  }

  /** Every artefact is a package file with the control fields its component announces. */
  ghost predicate HonestBundle(files: map<string, File>, cs: seq<Component>) {
    && Verified(files, cs)
    && forall c <- cs ::
         var f := files[c.filename];
         f.Deb? && f.package == c.package && f.version == c.version
  }

  ghost predicate CanStage(policy: Policy, m: Manifest, bundle: map<string, File>, txid: TxId,
                           staging: map<TxId, map<string, File>>) {
    && WellFormed(m)
    && txid !in staging
    && Verified(bundle, m.components)
    && TotalSize(bundle, m.components) <= policy.maximumBundleBytes
  }

  /** No component's file name overwrites the staged manifest. */
  predicate NoClash(m: Manifest) {
    forall c <- m.components :: c.filename != STAGED_MANIFEST
  }

  method CopyVerifiedBundle(h: Host, policy: Policy, m: Manifest, bundle: map<string, File>, txid: TxId)
    returns (o: Outcome)
    modifies h`staging, h`calm
    ensures h.calm ==> old(h.calm)
    ensures o.Done? && old(h.calm) ==> h.calm
    ensures o.Done? ==>
      && WellFormed(m)
      && txid in h.staging && STAGED_MANIFEST in h.staging[txid]
      && Verified(h.staging[txid], m.components)
      && (forall c <- m.components :: c.filename in bundle && h.staging[txid][c.filename] == bundle[c.filename])
      && (NoClash(m) ==> h.staging[txid][STAGED_MANIFEST] == Json(m))
    ensures o.Done? ==> CanStage(policy, m, bundle, txid, old(h.staging))
    ensures o.Done? ==>
      && m.components != []
      && (forall c <- m.components :: c.package != "" && c.version != "" && c.filename != "")
      && txid in h.staging && "update-manifest.json" in h.staging[txid]
      && ((forall c <- m.components :: c.filename != "update-manifest.json") ==>
            h.staging[txid]["update-manifest.json"] == Json(m))
    ensures h.calm && CanStage(policy, m, bundle, txid, old(h.staging)) ==> o.Done?
  {
    o := h.Step();
    if o.IsFailure() {
      return;
    }
    if !WellFormed(m) {
      return Raised;
    }
    :- h.CreateStaging(txid);
    :- h.StageFile(txid, STAGED_MANIFEST, Json(m));
    var total :- StageComponents(h, m, bundle, txid);
    return if total > policy.maximumBundleBytes then Raised else Done;
  }

  method StageComponents(h: Host, m: Manifest, bundle: map<string, File>, txid: TxId) returns (o: Outcome, total: nat)
    requires txid in h.staging
    modifies h`staging, h`calm
    ensures h.calm ==> old(h.calm)
    ensures o.Done? && old(h.calm) ==> h.calm
    ensures o.Done? ==>
      && txid in h.staging
      && Verified(h.staging[txid], m.components)
      && (forall c <- m.components :: c.filename in bundle && h.staging[txid][c.filename] == bundle[c.filename])
      && total == TotalSize(bundle, m.components)
      && (forall name <- old(h.staging)[txid] :: name in h.staging[txid])
      && (NoClash(m) && STAGED_MANIFEST in old(h.staging)[txid] ==>
            h.staging[txid][STAGED_MANIFEST] == old(h.staging)[txid][STAGED_MANIFEST])
    ensures h.calm && Verified(bundle, m.components) ==> o.Done?
  {
    total := 0;
    for i := 0 to |m.components|
      invariant h.calm <==> old(h.calm)
      invariant txid in h.staging
      invariant forall name <- old(h.staging)[txid] :: name in h.staging[txid]
      invariant NoClash(m) && STAGED_MANIFEST in old(h.staging)[txid] ==>
        h.staging[txid][STAGED_MANIFEST] == old(h.staging)[txid][STAGED_MANIFEST]
      invariant forall j :: 0 <= j < i ==>
        var c := m.components[j];
        && c.filename in bundle && c.filename in h.staging[txid]
        && h.staging[txid][c.filename] == bundle[c.filename] && Sha256(bundle[c.filename]) == c.sha256
      invariant forall c <- m.components[..i] :: c.filename in bundle
      invariant total == TotalSize(bundle, m.components[..i])
    {
      var c := m.components[i];
      assert c in m.components;
      assert m.components[..i + 1] == m.components[..i] + [c];
      if c.filename !in bundle {
        return Raised, total;
      }
      :- h.StageFile(txid, c.filename, bundle[c.filename]);
      total := total + Size(bundle[c.filename]);
      if Sha256(h.staging[txid][c.filename]) != c.sha256 {
        return Raised, total;
      }
      assert m.components[..i + 1][..i] == m.components[..i];
    }
    assert m.components[..|m.components|] == m.components;
    o := Done;
  }

  // ---------------------------------------------------------------- recovery points

  /** `previous` is what dpkg reported for each of the manifest's packages, in order. */
  ghost predicate RecordsOf(records: seq<PackageRecord>, m: Manifest, db: Database) {
    && |records| == |m.components|
    && forall i :: 0 <= i < |records| ==>
         && records[i].package == m.components[i].package
         && InstalledVersion(db, records[i].package) == Some(records[i].version)
         && CachePath(records[i].package, records[i].version) == Some(records[i].deb)
  }

  /** Every package of the manifest has the package file of its installed version in the cache. */
  ghost predicate RollbackReady(m: Manifest, db: Database, cache: Cache) {
    forall c <- m.components ::
      var v := InstalledVersion(db, c.package);
      v.Some? && CachePath(c.package, v.value).Some? && CachePath(c.package, v.value).value in cache
  }

  method RecordPackages(h: Host, m: Manifest) returns (o: Outcome, records: seq<PackageRecord>)
    modifies h`calm
    ensures h.calm ==> old(h.calm)
    ensures o.Done? && old(h.calm) ==> h.calm
    ensures o.Done? ==> RecordsOf(records, m, h.dpkg) && forall r <- records :: RecordUsable(r, h.cache)
    ensures h.calm && RollbackReady(m, h.dpkg, h.cache) ==> o.Done?
  {
    records := [];
    for i := 0 to |m.components|
      invariant h.calm <==> old(h.calm)
      invariant |records| == i
      invariant forall j :: 0 <= j < i ==>
        && records[j].package == m.components[j].package
        && InstalledVersion(h.dpkg, records[j].package) == Some(records[j].version)
        && CachePath(records[j].package, records[j].version) == Some(records[j].deb)
        && RecordUsable(records[j], h.cache)
    {
      var package := m.components[i].package;
      assert m.components[i] in m.components;
      var version :- h.QueryInstalled(package);
      if version.None? {
        return Raised, records;
      }
      var path := CachePath(package, version.value);
      if path.None? || path.value !in h.cache {
        return Raised, records;
      }
      records := records + [PackageRecord(package, version.value, path.value, Sha256(h.cache[path.value]))];
    }
    o := Done;
  }

  method CreateRecoveryPoint(h: Host, policy: Policy, txid: TxId, m: Manifest)
    returns (o: Outcome, records: seq<PackageRecord>)
    requires m.components != []
    modifies h`points, h`calm
    ensures h.calm ==> old(h.calm)
    ensures o.Done? && old(h.calm) ==> h.calm
    ensures forall t <- old(h.points) :: t in h.points && h.points[t] == old(h.points)[t]
    ensures h.points.Keys <= old(h.points).Keys + {txid}
    ensures o.Done? ==>
      && txid !in old(h.points) && txid in h.points
      && Usable(h.points[txid], h.cache)
      && h.points[txid].archive == Some(Covered(policy, h.config))
      && h.points[txid].metadata.value.packages == records
      && h.points[txid].metadata.value.txid == txid
      && RecordsOf(records, m, h.dpkg)
      && (h.release.Some? ==> h.points[txid].releaseCopy == h.release
                              && h.points[txid].metadata.value.releaseSha256 == Some(Sha256(h.release.value)))
    ensures o.Done? ==>
      var archive := h.points[txid].archive.value;
      && (forall path :: path in archive <==>
            path in h.config && exists root <- policy.configurationPaths :: path == root || root + "/" <= path)
      && (forall path <- archive :: archive[path] == h.config[path])
    ensures h.calm && txid !in old(h.points) && RollbackReady(m, h.dpkg, h.cache) ==> o.Done?
  {
    records := [];
    :- h.CreatePoint(txid);
    records :- RecordPackages(h, m);
    var archive := Covered(policy, h.config);
    :- h.WriteArchive(txid, archive);
    var releaseSha256 := None;
    if h.release.Some? {
      :- h.WriteReleaseCopy(txid, h.release.value);
      releaseSha256 := Some(Sha256(h.release.value));
    }
    :- h.WriteMetadata(txid, Metadata(txid, records, ArchiveDigest(archive), releaseSha256));
    return Done, records;
  }

  // ---------------------------------------------------------------- installing and checking

  /** dpkg can configure every named package after unpacking these files. */
  ghost predicate Unpackable(db: Database, debs: seq<File>, names: set<Package>) {
    && (forall f <- debs :: f.Deb?)
    && forall p <- names :: p in UnpackAll(db, debs) && UnpackAll(db, debs)[p].Unpacked?
  }

  method InstallDebs(h: Host, debs: seq<File>, names: set<Package>) returns (o: Outcome)
    modifies h`dpkg, h`config, h`calm, h`restarted
    ensures h.calm ==> old(h.calm)
    ensures o.Done? && old(h.calm) ==> h.calm
    ensures o.Done? ==> h.restarted == {}
    ensures o.Done? ==> (forall f <- debs :: f.Deb?) && h.dpkg == ConfigureAll(UnpackAll(old(h.dpkg), debs), names)
    ensures SameOutside(old(h.dpkg), h.dpkg, DebNames(debs) + names)
    ensures h.calm && Unpackable(old(h.dpkg), debs, names) ==> o.Done?
  {
    o := h.Unpack(debs);
    if o.IsFailure() {
      return;
    }
    :- h.Configure(names);
    return Done;
  }

  /** Told from database and readings alone: every expected package is installed at its version, dpkg
      and apt have no complaint, the applications' programs are there, and what ran before runs. */
  ghost predicate IsSound(db: Database, reading: Option<Reading>, expected: map<Package, Version>, before: Before) {
    && reading.Some?
    && (forall p <- expected :: p in db && db[p] == Installed(expected[p]))
    && reading.value.auditClean && reading.value.aptClean
    && (forall p <- expected :: p in {
          "xaac-thinclient", "xaac-thin-client-vpn", "xaac-thin-client-network", "xaac-thin-client-dock",
          "xaac-agent"} ==> p !in reading.value.missingExecutables)
    && (before.agentActive ==> reading.value.agentActive)
    && (before.vpnActive ==> reading.value.vpnActive)
    && (before.clientRunning ==> reading.value.clientSeen)
  }

  lemma SoundMeans(db: Database, reading: Option<Reading>, expected: map<Package, Version>, before: Before)
    ensures IsSound(db, reading, expected, before) <==>
            reading.Some? && AllAt(db, expected) && Healthy(reading.value, expected.Keys, before)
  {
    if AllAt(db, expected) {
      forall p <- expected
        ensures p in db && db[p] == Installed(expected[p])
      {
        assert InstalledVersion(db, p) == Some(expected[p]);
      }
    }
    if reading.Some? {
      ProgramsThere(reading.value, expected.Keys);
    }
  }

  lemma ProgramsThere(r: Reading, packages: set<Package>)
    ensures packages * EXECUTABLES * r.missingExecutables == {} <==>
            forall p <- packages :: p in EXECUTABLES ==> p !in r.missingExecutables
  {
    if packages * EXECUTABLES * r.missingExecutables == {} {
      forall p <- packages | p in EXECUTABLES
        ensures p !in r.missingExecutables
      {
        assert p !in packages * EXECUTABLES * r.missingExecutables;
      }
    }
  }

  /** `ok` is exactly: every expected version is installed and the machine reads healthy. */
  method HealthCheck(h: Host, expected: map<Package, Version>, before: Before)
    returns (o: Outcome, ok: bool)
    modifies h`calm, h`reading
    ensures h.calm ==> old(h.calm)
    ensures o.Done? && ok && old(h.calm) ==> h.calm
    ensures o.Done? ==> (ok <==> AllAt(h.dpkg, expected) && HealthyHost(h, expected.Keys, before))
    ensures o.Done? ==> (ok <==> IsSound(h.dpkg, h.reading, expected, before))
    ensures h.calm ==> o.Done? && (ok <==> AllAt(h.dpkg, expected))
  {
    hide IsSound;
    ok := true;
    var rest := expected.Keys;
    while rest != {}
      invariant rest <= expected.Keys
      invariant h.calm <==> old(h.calm)
      invariant ok <==> forall p <- expected :: p !in rest ==> InstalledVersion(h.dpkg, p) == Some(expected[p])
      decreases |rest|
    {
      var p :| p in rest;
      var actual :- h.QueryInstalled(p);
      ok := ok && actual == Some(expected[p]);
      rest := rest - {p};
    }
    var reading :- h.ReadHealth(expected.Keys, before);
    ok := ok && Healthy(reading, expected.Keys, before);
    SoundMeans(h.dpkg, h.reading, expected, before);
    o := Done;
  }

  ghost predicate HealthyHost(h: Host, packages: set<Package>, before: Before)
    reads h`reading
  {
    h.reading.Some? && Healthy(h.reading.value, packages, before)
  }

  /** This application ran before the packages were touched. */
  ghost predicate RanBefore(p: Package, before: Before) {
    || (p == "xaac-agent" && before.agentActive)
    || (p == "xaac-thin-client-vpn" && before.vpnActive)
    || (p == "xaac-thinclient" && before.clientRunning)
  }

  /** Of these packages, what ran before has been restarted since they changed. */
  ghost predicate Restarted(h: Host, packages: set<Package>, before: Before)
    reads h`restarted
  {
    forall p <- packages :: RanBefore(p, before) ==> p in h.restarted
  }

  /** Reloads systemd and restarts exactly what ran before; only the services are affected. */
  method RestartChanged(h: Host, packages: set<Package>, before: Before) returns (o: Outcome)
    modifies h`calm, h`restarted
    ensures h.calm ==> old(h.calm) && o.Done?
    ensures o.Done? ==>
      forall p :: p in h.restarted <==> p in old(h.restarted) || (p in packages && RanBefore(p, before))
    ensures o.Done? && old(h.calm) ==> h.calm
  {
    o := h.Step();
    if o.IsFailure() {
      return;
    }
    if "xaac-agent" in packages && before.agentActive {
      :- h.Restart("xaac-agent");
    }
    if "xaac-thin-client-vpn" in packages && before.vpnActive {
      :- h.Restart("xaac-thin-client-vpn");
    }
    if "xaac-thinclient" in packages && before.clientRunning {
      :- h.Restart("xaac-thinclient");
    }
    return Done;
  }

  // ---------------------------------------------------------------- rollback

  /** The packages a rollback from this point can touch. */
  function TouchedBy(point: Point, cache: Cache): set<Package> {
    if point.metadata.None? then {}
    else
      var records := point.metadata.value.packages;
      (set r | r in records :: r.package)
      + (set r | r in records && r.deb in cache && cache[r.deb].Deb? :: cache[r.deb].package)
  }

  /** Puts back what the point recorded, from whatever state the machine is in. */
  method RollbackFromRecovery(h: Host, txid: TxId, before: Before) returns (o: Outcome)
    modifies h`dpkg, h`config, h`release, h`rollbackState, h`calm, h`reading, h`restarted
    ensures h.calm ==> old(h.calm)
    ensures o.Done? && old(h.calm) ==> h.calm
    ensures o.Done? ==>
      && txid in h.points
      && RestoredTo(h.dpkg, h.config, h.points[txid])
      && Usable(h.points[txid], h.cache)
      && HealthyHost(h, Expected(RecordPins(h.points[txid].metadata.value.packages)).Keys, before)
      && Restarted(h, Expected(RecordPins(h.points[txid].metadata.value.packages)).Keys, before)
      && h.rollbackState == Some(h.points[txid].metadata.value.txid)
      && h.release == (if ReleaseSaved(h.points[txid]) then h.points[txid].releaseCopy else old(h.release))
      && (if KeptRelease(h.points[txid]) then h.release == h.points[txid].releaseCopy else h.release == old(h.release))
    ensures SameOutside(old(h.dpkg), h.dpkg, if txid in h.points then TouchedBy(h.points[txid], h.cache) else {})
    ensures h.calm && txid in h.points && Usable(h.points[txid], h.cache) && HonestPoint(h.points[txid], h.cache)
            ==> o.Done?
  {
    hide SameOutside, HonestPoint, Unpackable, AllAt, Contains, Healthy, Restarted;
    Unchanged(h.dpkg);
    if txid !in h.points || h.points[txid].metadata.None? {
      return Raised;
    }
    var point := h.points[txid];
    var meta := point.metadata.value;
    if meta.packages == [] {
      return Raised;
    }
    var debs :- CollectDebs(h, meta.packages);
    var expected := Expected(RecordPins(meta.packages));
    RollbackScope(point, h.cache, debs);
    if HonestPoint(point, h.cache) {
      HonestDebs(point, h.cache, debs);
      CanReinstall(h.dpkg, debs, RecordPins(meta.packages));
    }
    ghost var db := h.dpkg;
    o := Reinstall(h, point, debs, expected, before);
    Widened(db, h.dpkg, DebNames(debs) + expected.Keys, TouchedBy(point, h.cache));
    if !o.Done? {
      return;
    }
    if ReleaseSaved(point) {
      :- h.WriteRelease(point.releaseCopy.value);
    }
    :- h.WriteRollbackState(meta.txid);
    return Done;
  }

  lemma CanReinstall(db: Database, debs: seq<File>, pins: seq<Pin>)
    requires |debs| == |pins|
    requires forall i :: 0 <= i < |debs| ==>
      debs[i].Deb? && debs[i].package == pins[i].package && debs[i].version == pins[i].version
    ensures Unpackable(db, debs, Expected(pins).Keys)
    ensures AllAt(ConfigureAll(UnpackAll(db, debs), Expected(pins).Keys), Expected(pins))
  {
    InstallReachesExpected(db, debs, pins);
  }

  lemma Unchanged(db: Database)
    ensures forall names :: SameOutside(db, db, names)
  {
  }

  lemma Widened(a: Database, b: Database, names: set<Package>, wider: set<Package>)
    requires SameOutside(a, b, names) && names <= wider
    ensures SameOutside(a, b, wider)
  {
  }

  /** Old packages, then old configuration, then the health check. */
  method Reinstall(h: Host, point: Point, debs: seq<File>, expected: map<Package, Version>, before: Before)
    returns (o: Outcome)
    requires point.metadata.Some?
    modifies h`dpkg, h`config, h`calm, h`reading, h`restarted
    ensures h.calm ==> old(h.calm)
    ensures o.Done? && old(h.calm) ==> h.calm
    ensures o.Done? ==>
      && AllAt(h.dpkg, expected)
      && HealthyHost(h, expected.Keys, before)
      && point.archive.Some? && ArchiveDigest(point.archive.value) == point.metadata.value.archiveSha256
      && Contains(h.config, point.archive.value)
      && Restarted(h, expected.Keys, before)
    ensures SameOutside(old(h.dpkg), h.dpkg, DebNames(debs) + expected.Keys)
    ensures h.calm && Unpackable(old(h.dpkg), debs, expected.Keys)
            && AllAt(ConfigureAll(UnpackAll(old(h.dpkg), debs), expected.Keys), expected)
            && point.archive.Some? && ArchiveDigest(point.archive.value) == point.metadata.value.archiveSha256
            ==> o.Done?
  {
    hide IsSound;
    o := InstallDebs(h, debs, expected.Keys);
    if o.IsFailure() {
      return;
    }
    if point.archive.None? || ArchiveDigest(point.archive.value) != point.metadata.value.archiveSha256 {
      return Raised;
    }
    :- h.Extract(point.archive.value);
    :- RestartChanged(h, expected.Keys, before);
    var ok :- HealthCheck(h, expected, before);
    return if ok then Done else Raised;
  }

  /** The release file is put back only if the point holds an intact copy of it. */
  predicate ReleaseSaved(point: Point)
    requires point.metadata.Some?
  {
    var sha := point.metadata.value.releaseSha256;
    sha.Some? && point.releaseCopy.Some? && Sha256(point.releaseCopy.value) == sha.value
  }

  /** The copy of the release file is there and its digest is the recorded one. */
  ghost predicate KeptRelease(point: Point) {
    && point.metadata.Some? && point.releaseCopy.Some?
    && point.metadata.value.releaseSha256 == Some(Digest(point.releaseCopy.value))
  }

  method CollectDebs(h: Host, records: seq<PackageRecord>) returns (o: Outcome, debs: seq<File>)
    ensures !o.Crashed?
    ensures o.Done? <==> forall r <- records :: RecordUsable(r, h.cache)
    ensures o.Done? ==> |debs| == |records| && forall j :: 0 <= j < |debs| ==>
      records[j].deb in h.cache && debs[j] == h.cache[records[j].deb]
  {
    debs := [];
    for i := 0 to |records|
      invariant |debs| == i
      invariant forall j :: 0 <= j < i ==> RecordUsable(records[j], h.cache) && debs[j] == h.cache[records[j].deb]
    {
      assert records[i] in records;
      if records[i].deb !in h.cache || Sha256(h.cache[records[i].deb]) != records[i].sha256 {
        return Raised, debs;
      }
      debs := debs + [h.cache[records[i].deb]];
    }
    return Done, debs;
  }

  lemma HonestDebs(point: Point, cache: Cache, debs: seq<File>)
    requires point.metadata.Some? && HonestPoint(point, cache)
    requires var records := point.metadata.value.packages;
             |debs| == |records| &&
             forall j :: 0 <= j < |debs| ==> records[j].deb in cache && debs[j] == cache[records[j].deb]
    ensures var pins := RecordPins(point.metadata.value.packages);
            forall i :: 0 <= i < |debs| ==>
              debs[i].Deb? && debs[i].package == pins[i].package && debs[i].version == pins[i].version
  {
    var records := point.metadata.value.packages;
    forall i | 0 <= i < |records|
      ensures debs[i].Deb? && debs[i].package == records[i].package && debs[i].version == records[i].version
    {
      assert records[i] in records;
    }
  }

  lemma RollbackScope(point: Point, cache: Cache, debs: seq<File>)
    requires point.metadata.Some?
    requires var records := point.metadata.value.packages;
             |debs| == |records| &&
             forall j :: 0 <= j < |debs| ==> records[j].deb in cache && debs[j] == cache[records[j].deb]
    ensures DebNames(debs) + Expected(RecordPins(point.metadata.value.packages)).Keys <= TouchedBy(point, cache)
  {
    var records := point.metadata.value.packages;
    forall p | p in DebNames(debs) ensures p in TouchedBy(point, cache) {
      var f :| f in debs && f.Deb? && f.package == p;
      var j :| 0 <= j < |debs| && debs[j] == f;
      assert records[j] in records;
    }
    forall p | p in Expected(RecordPins(records)) ensures p in TouchedBy(point, cache) {
      var j :| 0 <= j < |records| && RecordPins(records)[j].package == p;
      assert records[j] in records;
    }
  }

  /** Every package the point recorded has the same version, and every archived file the same text. */
  ghost predicate SameRecorded(
    db1: Database, config1: Configuration, db2: Database, config2: Configuration, point: Point)
    requires point.metadata.Some? && point.archive.Some?
  {
    && (forall r <- point.metadata.value.packages ::
          InstalledVersion(db1, r.package) == InstalledVersion(db2, r.package))
    && (forall path <- point.archive.value ::
          path in config1 && path in config2 && config1[path] == config2[path])
  }

  /** Where a rollback starts from makes no difference to any recorded package or archived file. */
  lemma RollbackIsDetermined(db1: Database, config1: Configuration, db2: Database, config2: Configuration, point: Point)
    requires RestoredTo(db1, config1, point) && RestoredTo(db2, config2, point)
    ensures SameRecorded(db1, config1, db2, config2, point)
  {
    var records := point.metadata.value.packages;
    forall r | r in records
      ensures InstalledVersion(db1, r.package) == InstalledVersion(db2, r.package)
    {
      var i :| 0 <= i < |records| && records[i] == r;
      assert RecordPins(records)[i].package == r.package;
      assert r.package in Expected(RecordPins(records));
    }
  }

  /** A rollback of a machine already rolled back changes no recorded package and no archived file. */
  method RollbackAgain(h: Host, txid: TxId, before: Before) returns (o: Outcome)
    requires txid in h.points && RestoredTo(h.dpkg, h.config, h.points[txid])
    modifies h`dpkg, h`config, h`release, h`rollbackState, h`calm, h`reading, h`restarted
    ensures h.calm ==> old(h.calm)
    ensures o.Done? && old(h.calm) ==> h.calm
    ensures o.Done? ==> SameRecorded(old(h.dpkg), old(h.config), h.dpkg, h.config, h.points[txid])
    ensures h.calm && Usable(h.points[txid], h.cache) && HonestPoint(h.points[txid], h.cache) ==> o.Done?
  {
    hide SameOutside, HonestPoint, RestoredTo, SameRecorded, Healthy;
    ghost var db, config := h.dpkg, h.config;
    o := RollbackFromRecovery(h, txid, before);
    if o.Done? {
      RollbackIsDetermined(db, config, h.dpkg, h.config, h.points[txid]);
    }
  }

  /** Two rollbacks of one point; `db` and `config` are what the first of them left. */
  method RollbackTwice(h: Host, txid: TxId, first: Before, second: Before)
    returns (o: Outcome, ghost db: Database, ghost config: Configuration)
    modifies h`dpkg, h`config, h`release, h`rollbackState, h`calm, h`reading, h`restarted
    ensures h.calm ==> old(h.calm)
    ensures o.Done? && old(h.calm) ==> h.calm
    ensures o.Done? ==>
      && txid in h.points && RestoredTo(db, config, h.points[txid])
      && SameRecorded(db, config, h.dpkg, h.config, h.points[txid])
    ensures h.calm && txid in h.points && Usable(h.points[txid], h.cache) && HonestPoint(h.points[txid], h.cache)
            ==> o.Done?
  {
    hide SameOutside, HonestPoint, SameRecorded, Healthy, AllAt, Contains;
    o := RollbackFromRecovery(h, txid, first);
    db, config := h.dpkg, h.config;
    if o.Done? {
      o := RollbackAgain(h, txid, second);
    }
  }

  // ---------------------------------------------------------------- blocked bundles

  method IsBlocked(registry: seq<BlockedEntry>, m: Manifest) returns (blocked: bool)
    ensures blocked <==> Blocked(registry, BundleOf(m))
  {
    var bundle := BundleOf(m);
    for i := 0 to |registry|
      invariant forall j :: 0 <= j < i ==>
        !(registry[j].target == bundle.target && (set pin | pin in registry[j].packages) == bundle.pins)
    {
      var e := registry[i];
      if e.target == bundle.target && (set pin | pin in e.packages) == bundle.pins {
        assert e in registry;
        return true;
      }
    }
    return false;
  }

  method BlockFailed(h: Host, m: Manifest, txid: TxId) returns (o: Outcome)
    modifies h`blocked, h`calm
    ensures h.calm ==> old(h.calm) && o.Done?
    ensures old(h.blocked) <= h.blocked
    ensures o.Done? ==> Blocked(h.blocked, BundleOf(m)) && exists e <- h.blocked :: e.txid == txid
  {
    o := h.Step();
    if o.IsFailure() {
      return;
    }
    var e := BlockedEntry(txid, m.target, Pins(m.components));
    ghost var registry := h.blocked + [e];
    assert e in registry;
    :- h.WriteBlocked(h.blocked + [e]);
    return Done;
  }

  // ---------------------------------------------------------------- keeping candidates

  /** No two of these package files would end up in one cache file with different contents. */
  ghost predicate Cacheable(cs: seq<Component>, cache: Cache) {
    forall c <- cs ::
      && CachePath(c.package, c.version).Some?
      && var key := CachePath(c.package, c.version).value;
         && (key in cache ==> Sha256(cache[key]) == c.sha256)
         && forall d <- cs :: CachePath(d.package, d.version) == Some(key) ==> d.sha256 == c.sha256
  }

  ghost predicate IsKept(c: Component, cache: Cache) {
    var key := CachePath(c.package, c.version);
    key.Some? && key.value in cache && Sha256(cache[key.value]) == c.sha256
  }

  /** The package files of the new versions are there for the next rollback. */
  ghost predicate Kept(cs: seq<Component>, cache: Cache) {
    forall c <- cs :: IsKept(c, cache)
  }

  method CacheCandidates(h: Host, m: Manifest, files: map<string, File>) returns (o: Outcome)
    requires m.components != [] && Verified(files, m.components)
    modifies h`cache, h`cacheDirs, h`calm
    ensures h.calm ==> old(h.calm)
    ensures CacheGrows(old(h.cache), h.cache)
    ensures o.Done? ==> Kept(m.components, h.cache)
    ensures old(h.cacheDirs) <= h.cacheDirs
    ensures (forall k <- old(h.cache) :: k.0 in old(h.cacheDirs)) ==> forall k <- h.cache :: k.0 in h.cacheDirs
    ensures h.strictMkdir && m.components[0].package in old(h.cacheDirs) ==> o.Raised?
    ensures h.calm && !h.strictMkdir && Cacheable(m.components, old(h.cache)) ==> o.Done?
  {
    ghost var before := h.cache;
    for i := 0 to |m.components|
      invariant h.calm ==> old(h.calm)
      invariant i > 0 ==> !(h.strictMkdir && m.components[0].package in old(h.cacheDirs))
      invariant i == 0 ==> h.cacheDirs == old(h.cacheDirs)
      invariant CacheGrows(before, h.cache) && old(h.cacheDirs) <= h.cacheDirs
      invariant (forall k <- before :: k.0 in old(h.cacheDirs)) ==> forall k <- h.cache :: k.0 in h.cacheDirs
      invariant forall j :: 0 <= j < i ==> IsKept(m.components[j], h.cache)
      invariant h.calm ==> forall k <- h.cache :: k in before || exists c <- m.components ::
        CachePath(c.package, c.version) == Some(k) && Sha256(h.cache[k]) == c.sha256
    {
      assert m.components[i] in m.components;
      :- KeepOne(h, m.components[i], files[m.components[i].filename]);
    }
    return Done;
  }

  /** The cache has no other file under this component's path. */
  ghost predicate Fits(c: Component, cache: Cache) {
    var path := CachePath(c.package, c.version);
    path.Some? && (path.value in cache ==> Sha256(cache[path.value]) == c.sha256)
  }

  method KeepOne(h: Host, c: Component, file: File) returns (o: Outcome)
    requires Sha256(file) == c.sha256
    modifies h`cache, h`cacheDirs, h`calm
    ensures h.calm ==> old(h.calm)
    ensures o.Done? ==> IsKept(c, h.cache)
    ensures CacheGrows(old(h.cache), h.cache) && old(h.cacheDirs) <= h.cacheDirs
    ensures forall k <- h.cache ::
      k in old(h.cache) || (CachePath(c.package, c.version) == Some(k) && c.package in h.cacheDirs)
    ensures h.strictMkdir && c.package in old(h.cacheDirs) ==> o.Raised?
    ensures h.calm ==> forall k <- h.cache :: k in old(h.cache) || Sha256(h.cache[k]) == c.sha256
    ensures h.calm && !h.strictMkdir && Fits(c, old(h.cache)) ==> o.Done?
  {
    var path := CachePath(c.package, c.version);
    if path.None? {
      return Raised;
    }
    var key := path.value;
    :- h.CreateCacheDir(c.package);
    if key in h.cache {
      return if Sha256(h.cache[key]) == c.sha256 then Done else Raised;
    }
    :- h.CopyToCache(key, file);
    o := CheckCopy(h, key, c.sha256);
  }

  /** The digest of a copy just made; one that differs is removed again. */
  method CheckCopy(h: Host, key: CacheKey, sha256: Digest) returns (o: Outcome)
    requires key in h.cache
    modifies h`cache, h`calm
    ensures h.calm ==> old(h.calm)
    ensures o.Done? && old(h.calm) ==> h.calm
    ensures Sha256(old(h.cache)[key]) == sha256 ==> o.Done? && h.cache == old(h.cache) && h.calm == old(h.calm)
    ensures Sha256(old(h.cache)[key]) != sha256 ==>
      && !o.Done? && h.cache in {old(h.cache), old(h.cache) - {key}}
      && (h.removes && o.Raised? ==> h.cache == old(h.cache) - {key})
  {
    if Sha256(h.cache[key]) == sha256 {
      return Done;
    }
    o := h.RemoveFromCache(key);
    if o.Done? {
      o := Raised;
    }
  }

  // ---------------------------------------------------------------- pruning

  lemma {:induction false} NewestExists(points: Points, rest: set<TxId>) returns (t: TxId)
    requires rest != {} && rest <= points.Keys
    ensures t in rest && forall u <- rest :: points[t].mtime >= points[u].mtime
    decreases |rest|
  {
    t :| t in rest;
    if rest != {t} {
      var u := NewestExists(points, rest - {t});
      if points[u].mtime > points[t].mtime {
        t := u;
      }
    }
  }

  ghost predicate IsNewestFirst(order: seq<TxId>, points: Points) {
    && (forall t :: t in order <==> t in points)
    && (forall i, j :: 0 <= i < j < |order| ==> order[i] != order[j])
    && (forall i, j :: 0 <= i < j < |order| ==>
          order[i] in points && order[j] in points && points[order[i]].mtime >= points[order[j]].mtime)
  }

  method NewestFirst(points: Points) returns (order: seq<TxId>)
    ensures IsNewestFirst(order, points)
  {
    order := [];
    var rest := points.Keys;
    while rest != {}
      invariant rest <= points.Keys
      invariant forall t :: t in order <==> t in points.Keys - rest
      invariant forall i :: 0 <= i < |order| ==> order[i] in points && order[i] !in rest
      invariant forall i, j :: 0 <= i < j < |order| ==> order[i] != order[j]
      invariant forall i, j :: 0 <= i < j < |order| ==> points[order[i]].mtime >= points[order[j]].mtime
      invariant forall i, t :: 0 <= i < |order| && t in rest ==> points[order[i]].mtime >= points[t].mtime
      decreases |rest|
    {
      ghost var witnessed := NewestExists(points, rest);
      var t :| t in rest && forall u <- rest :: points[t].mtime >= points[u].mtime;
      order := order + [t];
      rest := rest - {t};
    }
  }

  function Limit(maximum: int, available: nat): nat {
    if maximum <= 0 then 0 else if maximum < available then maximum else available
  }

  /** `newest` are as many points as the policy allows, none older than any point left out. */
  ghost predicate IsNewest(newest: set<TxId>, points: Points, maximum: int) {
    && newest <= points.Keys
    && |newest| == Limit(maximum, |points|)
    && forall a <- newest, b <- points.Keys - newest :: points[a].mtime >= points[b].mtime
  }

  /** Cutting the sorted list short keeps as many points as entries, and no others. */
  lemma FrontIsListed(order: seq<TxId>, points: Points, n: nat)
    requires IsNewestFirst(order, points) && n <= |order|
    ensures |set t | t in order[..n]| == n && (set t | t in order[..n]) <= points.Keys
    ensures forall k :: 0 <= k < |order| ==> (order[k] in order[..n] <==> k < n)
  {
    Sorting.DistinctSize(order[..n]);
    assert forall k :: 0 <= k < n ==> order[k] == order[..n][k];
  }

  lemma ListedSize(order: seq<TxId>, points: Points)
    requires IsNewestFirst(order, points)
    ensures |order| == |points|
  {
    FrontIsListed(order, points, |order|);
    assert order[..|order|] == order;
    assert (set t | t in order) == points.Keys;
  }

  lemma FrontIsOlderThanNone(order: seq<TxId>, points: Points, n: nat, a: TxId, b: TxId)
    requires IsNewestFirst(order, points) && n <= |order|
    requires a in order[..n] && b in points && b !in order[..n]
    ensures points[a].mtime >= points[b].mtime
  {
    var i :| 0 <= i < n && order[..n][i] == a;
    var j :| 0 <= j < |order| && order[j] == b;
  }

  /** The first `maximum` entries of the sorted list are the newest points. */
  lemma FrontIsNewest(order: seq<TxId>, points: Points, maximum: int) returns (newest: set<TxId>)
    requires IsNewestFirst(order, points)
    ensures IsNewest(newest, points, maximum)
    ensures forall k :: 0 <= k < |order| ==> (order[k] in newest <==> k < maximum)
  {
    hide IsNewestFirst;
    ListedSize(order, points);
    var n := Limit(maximum, |order|);
    newest := set t | t in order[..n];
    FrontIsListed(order, points, n);
    forall a, b | a in newest && b in points.Keys - newest ensures points[a].mtime >= points[b].mtime {
      FrontIsOlderThanNone(order, points, n, a, b);
    }
  }

  /** Keeps exactly the newest points and the current one; cut short, it has lost none of those. */
  method PruneRecoveryPoints(h: Host, policy: Policy, keep: TxId) returns (o: Outcome)
    modifies h`points, h`calm
    ensures h.calm ==> old(h.calm) && o.Done?
    ensures exists newest: set<TxId> ::
      IsNewest(newest, old(h.points), policy.maxPoints) && Pruned(old(h.points), h.points, newest + {keep}, o.Done?)
    ensures Outlasted(old(h.points), h.points, policy.maxPoints)
  {
    hide IsNewestFirst, IsNewest, Pruned, Outlasted;
    ghost var before := h.points;
    var order := NewestFirst(h.points);
    ghost var newest := FrontIsNewest(order, h.points, policy.maxPoints);
    o := RemoveAllBut(h, order, policy.maxPoints, keep, newest + {keep});
    PrunedIsOutlasted(before, h.points, newest, policy.maxPoints, keep, o.Done?);
  }

  /** At least `limit` directories are no older than this. */
  ghost predicate Superseded(mtime: nat, points: Points, limit: int) {
    exists newer: set<TxId> :: AreSince(newer, points, mtime) && |newer| >= limit
  }

  ghost predicate AreSince(newer: set<TxId>, points: Points, mtime: nat) {
    newer <= points.Keys && forall t <- newer :: points[t].mtime >= mtime
  }

  /** Every point is as it was, or was given up for enough others no older than it. */
  ghost predicate Outlasted(before: Points, after: Points, limit: int) {
    forall t <- before :: (t in after && after[t] == before[t]) || Superseded(before[t].mtime, after, limit)
  }

  lemma PrunedIsOutlasted(before: Points, after: Points, newest: set<TxId>, maximum: int, keep: TxId, complete: bool)
    requires IsNewest(newest, before, maximum) && Pruned(before, after, newest + {keep}, complete)
    ensures Outlasted(before, after, maximum)
  {
    forall t | t in before && !(t in after && after[t] == before[t])
      ensures Superseded(before[t].mtime, after, maximum)
    {
      assert t in before.Keys - newest;
      if |newest| == |before| {
        FullSubset(newest, before.Keys);
      }
      assert forall u <- newest :: u in after && after[u] == before[u];
      assert AreSince(newest, after, before[t].mtime);
    }
  }

  lemma {:induction false} FullSubset(a: set<TxId>, b: set<TxId>)
    requires a <= b && |a| == |b|
    ensures a == b
  {
    if b - a != {} {
      var x :| x in b - a;
      SubsetSize(a, b - {x});
    }
  }

  /** What outlasts one change outlasts the next, as long as neither allows fewer points. */
  lemma OutlastedTwice(a: Points, b: Points, c: Points, limit: int, first: int, second: int)
    requires Outlasted(a, b, first) && Outlasted(b, c, second) && limit <= first && limit <= second
    ensures Outlasted(a, c, limit)
  {
    forall t | t in a && !(t in c && c[t] == a[t])
      ensures Superseded(a[t].mtime, c, limit)
    {
      if !(t in b && b[t] == a[t]) {
        var newer: set<TxId> :| AreSince(newer, b, a[t].mtime) && |newer| >= first;
        if forall u <- newer :: u in c && c[u] == b[u] {
          assert AreSince(newer, c, a[t].mtime);
        } else {
          var u :| u in newer && !(u in c && c[u] == b[u]);
          StillSuperseded(a[t].mtime, b[u].mtime, c, limit, second);
        }
      } else {
        StillSuperseded(a[t].mtime, b[t].mtime, c, limit, second);
      }
    }
  }

  lemma StillSuperseded(mtime: nat, later: nat, points: Points, limit: int, more: int)
    requires mtime <= later && limit <= more && Superseded(later, points, more)
    ensures Superseded(mtime, points, limit)
  {
    var newer: set<TxId> :| AreSince(newer, points, later) && |newer| >= more;
    assert AreSince(newer, points, mtime);
  }

  /** Adding points, or changing none, gives nothing up. */
  lemma GrownIsOutlasted(before: Points, after: Points, limit: int)
    requires forall t <- before :: t in after && after[t] == before[t]
    ensures Outlasted(before, after, limit)
  {
  }

  ghost predicate Pruned(before: Points, after: Points, kept: set<TxId>, complete: bool) {
    && (forall t <- before :: t in kept ==> t in after && after[t] == before[t])
    && after.Keys <= before.Keys
    && (complete ==> after == map t | t in before && t in kept :: before[t])
  }

  method RemoveAllBut(h: Host, order: seq<TxId>, maximum: int, keep: TxId, ghost kept: set<TxId>) returns (o: Outcome)
    requires IsNewestFirst(order, h.points)
    requires keep in kept
    requires forall k :: 0 <= k < |order| ==> (order[k] in kept <==> order[k] == keep || k < maximum)
    modifies h`points, h`calm
    ensures h.calm ==> old(h.calm) && o.Done?
    ensures Pruned(old(h.points), h.points, kept, o.Done?)
  {
    ghost var before := h.points;
    var retained := 0;
    for i := 0 to |order|
      invariant h.calm ==> old(h.calm)
      invariant if i <= maximum then retained == i else retained >= maximum
      invariant h.points.Keys <= before.Keys
      invariant forall t <- before :: t in kept ==> t in h.points
      invariant forall j :: i <= j < |order| ==> order[j] in h.points
      invariant forall t <- h.points :: h.points[t] == before[t]
      invariant forall j :: 0 <= j < i && order[j] in h.points ==> order[j] in kept
    {
      if order[i] == keep || retained < maximum {
        retained := retained + 1;
      } else {
        o := h.RemovePoint(order[i]);
        if !o.Done? {
          return;
        }
      }
    }
    assert forall t <- h.points :: t in order;
    return Done;
  }

  /** So one more point than the policy's limit can stay, but never two. */
  lemma PruneBound(before: Points, newest: set<TxId>, maximum: int, keep: TxId)
    requires IsNewest(newest, before, maximum)
    ensures var after := map t | t in before && t in newest + {keep} :: before[t];
            |after| <= Limit(maximum, |before|) + 1 && (keep in newest ==> |after| <= Limit(maximum, |before|))
  {
    var after := map t | t in before && t in newest + {keep} :: before[t];
    assert after.Keys <= newest + {keep};
    SubsetSize(after.Keys, newest + {keep});
    if keep in newest {
      assert newest + {keep} == newest;
    }
  }

  lemma {:induction false} SubsetSize(a: set<TxId>, b: set<TxId>)
    requires a <= b
    ensures |a| <= |b|
  {
    if a != {} {
      var x :| x in a;
      SubsetSize(a - {x}, b - {x});
    }
  }
}
