/** A whole update: its phases in order, its automatic rollback, and what the persisted status
    promises about the machine at every step. */
module UpdateTransaction {
  import opened Common
  import opened UpdateModel
  import opened UpdateHost
  import opened UpdateRuntime

  // ---------------------------------------------------------------- what a transaction owes its start

  /** Where a transaction started: its bundle and the machine before it. */
  datatype Origin = Origin(
    policy: Policy, manifest: Manifest, txid: TxId,
    db: Database, config: Configuration, cache: Cache, scope: set<Package>)

  /** The packages dpkg can be asked to touch for this bundle, forwards or backwards. */
  function Scope(m: Manifest, bundle: map<string, File>, cache: Cache): set<Package> {
    Names(m)
    + (set c | c in m.components && c.filename in bundle && bundle[c.filename].Deb? :: bundle[c.filename].package)
    + (set k | k in cache && k.0 in Names(m) && cache[k].Deb? :: cache[k].package)
  }

  /** With honest package files these are just the packages of the manifest. */
  lemma HonestScope(m: Manifest, bundle: map<string, File>, cache: Cache)
    requires HonestBundle(bundle, m.components) && HonestCache(cache)
    ensures Scope(m, bundle, cache) == Names(m)
  {
  }

  ghost predicate SameVersions(a: Database, b: Database, names: set<Package>) {
    forall p <- names :: InstalledVersion(a, p) == InstalledVersion(b, p)
  }

  ghost predicate AllNew(db: Database, org: Origin) {
    AllAt(db, Expected(Pins(org.manifest.components)))
  }

  ghost predicate AllOld(db: Database, config: Configuration, org: Origin) {
    && SameVersions(db, org.db, Names(org.manifest))
    && Contains(config, Covered(org.policy, org.config))
  }

  /** Told from the database alone: the last component of each package is fully installed. */
  ghost predicate InstalledAsListed(db: Database, cs: seq<Component>) {
    forall i :: 0 <= i < |cs| && (forall j :: i < j < |cs| ==> cs[j].package != cs[i].package) ==>
      cs[i].package in db && db[cs[i].package] == Installed(cs[i].version)
  }

  lemma AllNewMeans(db: Database, org: Origin)
    requires AllNew(db, org)
    ensures InstalledAsListed(db, org.manifest.components)
  {
    var cs := org.manifest.components;
    forall i | 0 <= i < |cs| && (forall j :: i < j < |cs| ==> cs[j].package != cs[i].package)
      ensures cs[i].package in db && db[cs[i].package] == Installed(cs[i].version)
    {
      LastPinCounts(Pins(cs), i);
    }
  }

  /** Told from database and files alone: no component's package has become installed, gone or another
      version, and every file at or below a configured path that was there has its old text. */
  ghost predicate AsBefore(
    db: Database, config: Configuration, before: Database, files: Configuration, cs: seq<Component>, roots: set<string>)
  {
    && (forall c <- cs, v: Version ::
          c.package in db && db[c.package] == Installed(v) <==>
          c.package in before && before[c.package] == Installed(v))
    && (forall path <- files, root <- roots :: path == root || root + "/" <= path ==>
          path in config && config[path] == files[path])
  }

  lemma AllOldMeans(db: Database, config: Configuration, org: Origin)
    requires AllOld(db, config, org)
    ensures AsBefore(db, config, org.db, org.config, org.manifest.components, org.policy.configurationPaths)
  {
    forall c <- org.manifest.components, v: Version
      ensures c.package in db && db[c.package] == Installed(v) <==>
              c.package in org.db && org.db[c.package] == Installed(v)
    {
      assert c.package in Names(org.manifest);
      assert InstalledVersion(db, c.package) == InstalledVersion(org.db, c.package);
    }
    forall path <- org.config, root <- org.policy.configurationPaths | path == root || root + "/" <= path
      ensures path in config && config[path] == org.config[path]
    {
      assert path in Covered(org.policy, org.config);
    }
  }

  /** The point was completed before any package changed. */
  ghost predicate PointOf(point: Point, org: Origin) {
    && Usable(point, org.cache)
    && point.archive == Some(Covered(org.policy, org.config))
    && RecordsOf(point.metadata.value.packages, org.manifest, org.db)
  }

  /** What the persisted status promises about the machine. */
  ghost predicate Promise(state: TxState, db: Database, config: Configuration, points: Points, org: Origin) {
    match state.status
    case Preparing => db == org.db && config == org.config
    case Installing | Validating | RollingBack | RollbackFailed =>
      state.point == Some(org.txid) && org.txid in points && PointOf(points[org.txid], org)
    case Confirmed => AllNew(db, org)
    case RolledBack | RolledBackAfterInterruption => AllOld(db, config, org)
    case RolledBackManual | ConfigurationRestoredManual => false
  }

  ghost predicate Story(h: Host, org: Origin)
    reads h`txState, h`dpkg, h`config, h`points, h`cache
  {
    && h.txState.Some? && h.txState.value.txid == org.txid
    && SameOutside(org.db, h.dpkg, org.scope)
    && CacheGrows(org.cache, h.cache)
    && Promise(h.txState.value, h.dpkg, h.config, h.points, org)
  }

  /** The origin lists every package that undoing it can touch. */
  ghost predicate Scoped(org: Origin) {
    Names(org.manifest) <= org.scope &&
    forall k <- org.cache :: k.0 in Names(org.manifest) && org.cache[k].Deb? ==> org.cache[k].package in org.scope
  }

  /** Restoring a transaction's own point is restoring its start. */
  lemma RestoredIsOld(point: Point, db: Database, config: Configuration, org: Origin)
    requires PointOf(point, org) && RestoredTo(db, config, point)
    ensures AllOld(db, config, org)
  {
    var records := point.metadata.value.packages;
    var pins := RecordPins(records);
    forall pin | pin in pins ensures InstalledVersion(org.db, pin.package) == Some(pin.version) {
      var i :| 0 <= i < |pins| && pins[i] == pin;
    }
    ExpectedAgrees(pins, org.db);
    forall p | p in Names(org.manifest)
      ensures InstalledVersion(db, p) == InstalledVersion(org.db, p)
    {
      var c :| c in org.manifest.components && c.package == p;
      var i :| 0 <= i < |records| && org.manifest.components[i] == c;
      assert pins[i].package == p;
    }
  }

  lemma PointScope(point: Point, cache: Cache, org: Origin)
    requires PointOf(point, org) && Scoped(org) && CacheGrows(org.cache, cache)
    ensures Usable(point, cache)
    ensures TouchedBy(point, cache) <= org.scope
  {
    var records := point.metadata.value.packages;
    forall r | r in records
      ensures r.package in Names(org.manifest) && r.deb.0 == r.package
      ensures r.deb in org.cache && cache[r.deb] == org.cache[r.deb]
    {
      var i :| 0 <= i < |records| && records[i] == r;
      assert org.manifest.components[i] in org.manifest.components;
    }
  }

  /** Honest cached files under Debian version numbers make an honest point. */
  lemma PointIsHonest(point: Point, cache: Cache, org: Origin)
    requires PointOf(point, org) && CacheGrows(org.cache, cache) && HonestCache(org.cache)
    requires DebianVersions(org.manifest, org.db)
    ensures HonestPoint(point, cache)
  {
    var records := point.metadata.value.packages;
    forall r | r in records
      ensures r.deb in cache && cache[r.deb].Deb?
      ensures cache[r.deb].package == r.package && cache[r.deb].version == r.version
    {
      var i :| 0 <= i < |records| && records[i] == r;
      assert org.manifest.components[i] in org.manifest.components;
      ReplaceColonsInjective(org.cache[r.deb].version, r.version);
    }
  }

  // ---------------------------------------------------------------- writing the state file

  /** Writes the state file; the record of everything ever persisted stays in order. */
  method Persist(h: Host, state: TxState, ghost about: Option<Bundle>) returns (o: Outcome)
    requires NoReinstall(h.journal) && JournalBlocked(h.journal, h.blocked)
    requires state.status.RolledBack? ==> about.Some? && Blocked(h.blocked, about.value)
    requires state.status.Installing? ==> about.Some? && !Blocked(h.blocked, about.value)
    modifies h`txState, h`journal, h`calm
    ensures h.calm <==> old(h.calm) && o.Done?
    ensures NoReinstall(h.journal) && JournalBlocked(h.journal, h.blocked)
    ensures old(h.journal) <= h.journal
    ensures o.Done? ==> h.txState == Some(state)
    ensures o.Raised? ==> h.txState == old(h.txState) && !h.writable
    ensures h.txState == old(h.txState) || h.txState == Some(state)
  {
    JournalStep(h.journal, h.blocked, Entry(state.status, about));
    o := h.WriteTxState(state, about);
  }

  // ---------------------------------------------------------------- an update, phase by phase

  /** Staging, the gate, the service snapshot and the recovery point: no package is touched. */
  method Prepare(h: Host, policy: Policy, m: Manifest, bundle: map<string, File>, txid: TxId)
    returns (o: Outcome, before: Before, records: seq<PackageRecord>)
    modifies h`staging, h`points, h`calm, h`probed
    ensures h.calm ==> old(h.calm)
    ensures o.Done? && old(h.calm) ==> h.calm
    ensures forall t <- old(h.points) :: t in h.points && h.points[t] == old(h.points)[t]
    ensures o.Done? ==>
      && before == h.probed
      && !Blocked(h.blocked, BundleOf(m))
      && WellFormed(m)
      && txid in h.staging && STAGED_MANIFEST in h.staging[txid]
      && Verified(h.staging[txid], m.components)
      && (forall c <- m.components :: c.filename in bundle && h.staging[txid][c.filename] == bundle[c.filename])
      && txid in h.points && Usable(h.points[txid], h.cache)
      && h.points[txid].archive == Some(Covered(policy, h.config))
      && h.points[txid].metadata.value.packages == records
      && RecordsOf(records, m, h.dpkg)
      && (NoClash(m) ==> h.staging[txid][STAGED_MANIFEST] == Json(m))
    ensures h.calm && CanStage(policy, m, bundle, txid, old(h.staging)) && !Blocked(h.blocked, BundleOf(m))
            && txid !in old(h.points) && RollbackReady(m, h.dpkg, h.cache)
            ==> o.Done?
  {
    hide Verified, RecordsOf, Usable, RollbackReady, CanStage, Covered, BundleOf, Blocked, WellFormed, IsCovered,
      TotalSize, CachePath, Pins;
    before, records := Before(false, false, false), [];
    :- CopyVerifiedBundle(h, policy, m, bundle, txid);
    :- h.Step();
    var blocked := IsBlocked(h.blocked, m);
    if blocked {
      return Raised, before, records;
    }
    before :- h.ProbeBefore(Names(m));
    records :- CreateRecoveryPoint(h, policy, txid, m);
    return Done, before, records;
  }

  /** `changed_packages`: the expected packages not already at their version. */
  method ChangedPackages(h: Host, expected: map<Package, Version>) returns (o: Outcome, changed: set<Package>)
    modifies h`calm
    ensures h.calm <==> old(h.calm) && o.Done?
    ensures o.Done? ==> changed == set p | p in expected && InstalledVersion(h.dpkg, p) != Some(expected[p])
  {
    changed := {};
    var rest := expected.Keys;
    while rest != {}
      invariant rest <= expected.Keys
      invariant h.calm <==> old(h.calm)
      invariant changed == set p | p in expected && p !in rest && InstalledVersion(h.dpkg, p) != Some(expected[p])
      decreases |rest|
    {
      var p :| p in rest;
      var actual :- h.QueryInstalled(p);
      if actual != Some(expected[p]) {
        changed := changed + {p};
      }
      rest := rest - {p};
    }
    o := Done;
  }

  ghost predicate Honest(debs: seq<File>, cs: seq<Component>) {
    && |debs| == |cs|
    && forall i :: 0 <= i < |debs| ==>
         debs[i].Deb? && debs[i].package == cs[i].package && debs[i].version == cs[i].version
  }

  /** "installing" reaches the disk, and the audit log, before any package changes. */
  method BeginInstalling(h: Host, m: Manifest, state: TxState, ghost org: Origin) returns (o: Outcome)
    requires h.Valid() && Story(h, org) && h.txState.value.status.Preparing? && Scoped(org)
    requires org.txid in h.points && PointOf(h.points[org.txid], org)
    requires state.txid == org.txid && state.point == Some(org.txid) && state.status.Installing?
    requires !Blocked(h.blocked, BundleOf(m))
    modifies h`txState, h`journal, h`calm
    ensures h.calm <==> old(h.calm) && o.Done?
    ensures h.Valid() && Story(h, org) && old(h.journal) <= h.journal
    ensures h.txState == old(h.txState) || h.txState == Some(state)
    ensures o.Done? ==> h.txState == Some(state)
  {
    hide NoReinstall, JournalBlocked, Blocked, Usable, RecordsOf, PointOf, AllAt, BundleOf, SameOutside, CacheGrows;
    PointScope(h.points[org.txid], h.cache, org);
    :- Persist(h, state, Some(BundleOf(m)));
    o := h.Step();
  }

  /** "installing": unpacks and configures what is not yet at its version. */
  method InstallCandidate(h: Host, m: Manifest, debs: seq<File>, before: Before, start: TxState, ghost org: Origin)
    returns (o: Outcome, state: TxState)
    requires h.Valid() && Story(h, org) && h.txState.value.status.Preparing?
    requires org.manifest == m && Scoped(org) && DebNames(debs) <= org.scope
    requires org.txid in h.points && PointOf(h.points[org.txid], org)
    requires start.txid == org.txid && start.point == Some(org.txid) && start.status.Installing?
    requires !Blocked(h.blocked, BundleOf(m))
    modifies h`txState, h`journal, h`dpkg, h`restarted, h`config, h`calm, h`reading
    ensures h.calm ==> old(h.calm)
    ensures o.Done? && old(h.calm) ==> h.calm
    ensures h.Valid() && Story(h, org) && old(h.journal) <= h.journal
    ensures state.txid == org.txid && state.point == Some(org.txid) && state.status.Installing?
    ensures h.txState.value.status in {Preparing, Installing}
    ensures h.calm && Honest(debs, m.components) ==> o.Done?
    ensures o.Done? ==> Restarted(h, Outdated(m, org.db), before)
    ensures h.dpkg != old(h.dpkg) ==> h.txState == Some(start)
    ensures AllNew(org.db, org) ==> h.dpkg == old(h.dpkg) && h.config == old(h.config)
    ensures h.calm && o.Done? && Honest(debs, m.components) ==> AllNew(h.dpkg, org)
  {
    hide NoReinstall, JournalBlocked, Blocked, Usable, RecordsOf, PointOf, AllAt, BundleOf, SameOutside, Restarted,
      Outdated, Honest, Covered, CacheGrows, Expected, Pins, AllOld, DebNames;
    state := start;
    :- BeginInstalling(h, m, state, org);
    ghost var db := h.dpkg;
    o := InstallChanged(h, m, debs, before);
    SameOutsideChain(org.db, db, h.dpkg, DebNames(debs) + Names(m), org.scope);
  }

  /** The packages that are not at the version the manifest wants. */
  ghost function Outdated(m: Manifest, db: Database): set<Package> {
    set p | p in Expected(Pins(m.components)) && InstalledVersion(db, p) != Some(Expected(Pins(m.components))[p])
  }

  method InstallChanged(h: Host, m: Manifest, debs: seq<File>, before: Before) returns (o: Outcome)
    modifies h`dpkg, h`restarted, h`config, h`calm
    ensures h.calm ==> old(h.calm)
    ensures o.Done? && old(h.calm) ==> h.calm
    ensures SameOutside(old(h.dpkg), h.dpkg, DebNames(debs) + Names(m))
    ensures o.Done? ==> Restarted(h, Outdated(m, old(h.dpkg)), before)
    ensures AllAt(old(h.dpkg), Expected(Pins(m.components))) ==> h.dpkg == old(h.dpkg) && h.config == old(h.config)
    ensures h.calm && Honest(debs, m.components) ==> o.Done? && AllAt(h.dpkg, Expected(Pins(m.components)))
  {
    var expected := Expected(Pins(m.components));
    ExpectedNames(m);
    var changed :- ChangedPackages(h, expected);
    if changed == {} {
      NothingToChange(expected, h.dpkg, changed);
      return Done;
    }
    o := InstallAll(h, m, debs, changed, before);
  }

  method InstallAll(h: Host, m: Manifest, debs: seq<File>, changed: set<Package>, before: Before) returns (o: Outcome)
    modifies h`dpkg, h`restarted, h`config, h`calm
    ensures h.calm ==> old(h.calm)
    ensures o.Done? && old(h.calm) ==> h.calm
    ensures SameOutside(old(h.dpkg), h.dpkg, DebNames(debs) + Names(m))
    ensures o.Done? ==> Restarted(h, changed, before)
    ensures h.calm && Honest(debs, m.components) ==> o.Done? && AllAt(h.dpkg, Expected(Pins(m.components)))
  {
    var expected := Expected(Pins(m.components));
    ExpectedNames(m);
    if Honest(debs, m.components) {
      InstallReachesExpected(h.dpkg, debs, Pins(m.components));
    }
    :- InstallDebs(h, debs, expected.Keys);
    :- RestartChanged(h, changed, before);
    return Done;
  }

  lemma SameOutsideChain(a: Database, b: Database, c: Database, names: set<Package>, scope: set<Package>)
    requires SameOutside(a, b, scope) && SameOutside(b, c, names) && names <= scope
    ensures SameOutside(a, c, scope)
  {
  }

  lemma ExpectedNames(m: Manifest)
    ensures Expected(Pins(m.components)).Keys == Names(m)
  {
    forall p | p in Expected(Pins(m.components)) ensures p in Names(m) {
      var i :| 0 <= i < |m.components| && Pins(m.components)[i].package == p;
      assert m.components[i] in m.components;
    }
    forall p | p in Names(m) ensures p in Expected(Pins(m.components)) {
      var c :| c in m.components && c.package == p;
      var i :| 0 <= i < |m.components| && m.components[i] == c;
      assert Pins(m.components)[i].package == p;
    }
  }

  lemma NothingToChange(expected: map<Package, Version>, db: Database, changed: set<Package>)
    requires changed == {} && changed == set p | p in expected && InstalledVersion(db, p) != Some(expected[p])
    ensures AllAt(db, expected)
  {
    forall p | p in expected ensures InstalledVersion(db, p) == Some(expected[p]) {
      assert p !in changed;
    }
  }

  /** "validating": nothing counts as installed before the health check says so. */
  method ValidateCandidate(h: Host, m: Manifest, before: Before, start: TxState, ghost org: Origin)
    returns (o: Outcome)
    requires h.Valid() && Story(h, org) && org.manifest == m && Scoped(org)
    requires org.txid in h.points && PointOf(h.points[org.txid], org)
    requires start.txid == org.txid && start.point == Some(org.txid) && start.status.Validating?
    requires h.txState.value.status in {Preparing, Installing}
    modifies h`txState, h`journal, h`calm, h`reading
    ensures h.calm ==> old(h.calm)
    ensures o.Done? && old(h.calm) ==> h.calm
    ensures h.Valid() && Story(h, org) && old(h.journal) <= h.journal
    ensures h.txState == old(h.txState) || h.txState == Some(start)
    ensures o.Done? ==> h.txState == Some(start) && AllNew(h.dpkg, org) && HealthyHost(h, Names(m), before)
    ensures h.calm && AllNew(h.dpkg, org) ==> o.Done?
  {
    hide NoReinstall, JournalBlocked, Blocked, Usable, RecordsOf, PointOf, AllAt, BundleOf, Healthy, IsSound;
    PointScope(h.points[org.txid], h.cache, org);
    :- Persist(h, start, Some(BundleOf(m)));
    ExpectedNames(m);
    var ok :- HealthCheck(h, Expected(Pins(m.components)), before);
    return if ok then Done else Raised;
  }

  /** Keeps the candidates, records the release, confirms, audits, prunes, cleans up. */
  method Confirm(h: Host, policy: Policy, m: Manifest, start: TxState, ghost org: Origin)
    returns (o: Outcome, state: TxState)
    requires h.Valid() && Story(h, org) && h.txState == Some(start) && start.status.Validating?
    requires org.manifest == m && m.components != [] && AllNew(h.dpkg, org) && Scoped(org)
    requires org.txid in h.staging && STAGED_MANIFEST in h.staging[org.txid]
    requires Verified(h.staging[org.txid], m.components)
    modifies h`cache, h`cacheDirs, h`release, h`txState, h`journal, h`points, h`staging, h`calm
    ensures h.calm ==> old(h.calm)
    ensures h.Valid() && Story(h, org) && old(h.journal) <= h.journal
    ensures CacheGrows(old(h.cache), h.cache)
    ensures state == start || state == start.(status := Confirmed)
    ensures h.txState == Some(start) || h.txState == Some(start.(status := Confirmed))
    ensures o.Raised? && state.status.Validating? ==> h.txState == Some(start)
    ensures o.Done? ==>
      && h.txState.value.status.Confirmed?
      && Kept(m.components, h.cache) && h.release == Some(old(h.staging)[org.txid][STAGED_MANIFEST])
    ensures !h.txState.value.status.Confirmed? ==> h.points == old(h.points)
    ensures h.points.Keys <= old(h.points).Keys
    ensures o.Done? ==> exists newest: set<TxId> ::
      IsNewest(newest, old(h.points), policy.maxPoints) && Pruned(old(h.points), h.points, newest + {org.txid}, true)
    ensures Outlasted(old(h.points), h.points, policy.maxPoints)
    ensures h.writable && o.Raised? && state.status.Confirmed? ==> h.txState.value.status.Confirmed?
    ensures o.Done? && h.calm ==>
      h.staging == if policy.preserveOnSuccess then old(h.staging) else old(h.staging) - {org.txid}
    ensures h.strictMkdir ==> o.Raised? && state == start && h.release == old(h.release)
    ensures h.calm && !h.strictMkdir && Cacheable(m.components, old(h.cache)) ==> o.Done?
  {
    hide NoReinstall, JournalBlocked, Blocked, Usable, RecordsOf, PointOf, AllAt, BundleOf, SameOutside, IsNewest,
      Pruned, Outlasted, Verified, Cacheable, Scoped, Kept, AllOld, AllNew, CacheGrows, Covered, Names;
    state := start;
    GrownIsOutlasted(h.points, h.points, policy.maxPoints);
    :- KeepCandidate(h, m, h.staging[start.txid], org);
    state := state.(status := Confirmed);
    :- Persist(h, state, Some(BundleOf(m)));
    o := CleanUp(h, policy, start.txid);
  }

  method KeepCandidate(h: Host, m: Manifest, files: map<string, File>, ghost org: Origin) returns (o: Outcome)
    requires h.Valid() && Story(h, org) && h.txState.value.status.Validating?
    requires org.manifest == m && m.components != [] && Scoped(org)
    requires STAGED_MANIFEST in files && Verified(files, m.components)
    modifies h`cache, h`cacheDirs, h`release, h`calm
    ensures h.calm ==> old(h.calm)
    ensures h.Valid() && Story(h, org) && CacheGrows(old(h.cache), h.cache)
    ensures o.Done? ==> Kept(m.components, h.cache) && h.release == Some(files[STAGED_MANIFEST])
    ensures h.strictMkdir ==> o.Raised? && h.release == old(h.release)
    ensures h.calm && !h.strictMkdir && Cacheable(m.components, old(h.cache)) ==> o.Done?
  {
    hide NoReinstall, JournalBlocked, Blocked, Usable, RecordsOf, PointOf, SameOutside, Verified, Cacheable, Scoped,
      Kept;
    FirstDirPresent(h, m, org);
    o := CacheCandidates(h, m, files);
    PointScope(h.points[org.txid], h.cache, org);
    if o.Done? {
      o := h.WriteRelease(files[STAGED_MANIFEST]);
    }
  }

  /** What a completed update leaves behind besides the new versions. */
  ghost predicate Completed(h: Host, org: Origin, before: Before)
    reads h
  {
    && HealthyHost(h, Names(org.manifest), before)
    && Restarted(h, Outdated(org.manifest, org.db), before)
    && Kept(org.manifest.components, h.cache)
    && (NoClash(org.manifest) ==> h.release == Some(Json(org.manifest)))
  }

  method CleanUp(h: Host, policy: Policy, txid: TxId) returns (o: Outcome)
    modifies h`points, h`staging, h`calm
    ensures h.calm ==> old(h.calm) && o.Done?
    ensures h.points.Keys <= old(h.points).Keys
    ensures o.Done? ==> exists newest: set<TxId> ::
      IsNewest(newest, old(h.points), policy.maxPoints) && Pruned(old(h.points), h.points, newest + {txid}, true)
    ensures Outlasted(old(h.points), h.points, policy.maxPoints)
    ensures policy.preserveOnSuccess ==> h.staging == old(h.staging)
    ensures h.calm && !policy.preserveOnSuccess ==> h.staging == old(h.staging) - {txid}
  {
    hide IsNewest, Outlasted, Superseded;
    GrownIsOutlasted(h.points, h.points, policy.maxPoints);
    :- h.Step();
    :- PruneRecoveryPoints(h, policy, txid);
    if !policy.preserveOnSuccess {
      :- h.DropStaging(txid);
    }
    return Done;
  }

  /** The directory the first candidate goes into already holds that package's rollback file. */
  lemma FirstDirPresent(h: Host, m: Manifest, org: Origin)
    requires h.Valid() && Story(h, org) && org.manifest == m && m.components != []
    requires org.txid in h.points && PointOf(h.points[org.txid], org)
    ensures m.components[0].package in h.cacheDirs
  {
    var r := h.points[org.txid].metadata.value.packages[0];
    assert r in h.points[org.txid].metadata.value.packages;
    assert r.deb in h.cache;
  }

  /** The `except` branch: roll back, block the bundle, persist. */
  method Undo(h: Host, m: Manifest, before: Before, start: TxState, ghost org: Origin)
    returns (o: Outcome)
    requires h.Valid() && Story(h, org) && h.txState.value.status in {Preparing, Installing, Validating}
    requires org.manifest == m && Scoped(org)
    requires org.txid in h.points && PointOf(h.points[org.txid], org)
    requires start.txid == org.txid && start.point == Some(org.txid)
    modifies h`txState, h`journal, h`dpkg, h`restarted, h`config, h`release, h`rollbackState, h`blocked, h`calm,
      h`reading
    ensures h.calm ==> old(h.calm)
    ensures h.Valid() && Story(h, org) && old(h.journal) <= h.journal && old(h.blocked) <= h.blocked
    ensures o.Done? ==> h.txState.value.status.RolledBack? && Blocked(h.blocked, BundleOf(m))
    ensures h.txState.value.status != Confirmed
    ensures h.calm && HonestPoint(h.points[org.txid], h.cache) ==> o.Done?
  {
    hide NoReinstall, JournalBlocked, Blocked, Usable, RecordsOf, PointOf, BundleOf, RestoredTo, HonestPoint, AllOld;
    :- RollBack(h, m, before, start.(status := RollingBack), org);
    o := BlockAndPersist(h, m, start.(status := RolledBack), org);
  }

  method RollBack(h: Host, m: Manifest, before: Before, state: TxState, ghost org: Origin) returns (o: Outcome)
    requires h.Valid() && Story(h, org) && h.txState.value.status in {Preparing, Installing, Validating}
    requires org.manifest == m && Scoped(org)
    requires org.txid in h.points && PointOf(h.points[org.txid], org)
    requires state.txid == org.txid && state.point == Some(org.txid) && state.status.RollingBack?
    modifies h`txState, h`journal, h`dpkg, h`restarted, h`config, h`release, h`rollbackState, h`calm, h`reading
    ensures h.calm ==> old(h.calm)
    ensures o.Done? && old(h.calm) ==> h.calm
    ensures h.Valid() && Story(h, org) && old(h.journal) <= h.journal
    ensures h.txState.value.status in {Preparing, Installing, Validating, RollingBack}
    ensures o.Done? ==> h.txState == Some(state) && AllOld(h.dpkg, h.config, org)
    ensures h.calm && HonestPoint(h.points[org.txid], h.cache) ==> o.Done?
  {
    hide NoReinstall, JournalBlocked, Blocked, Usable, RecordsOf, PointOf, BundleOf, RestoredTo, HonestPoint, AllOld,
      SameOutside, HealthyHost, Expected, RecordPins, TouchedBy, ReleaseSaved, AllNew, CacheGrows, Scoped, Covered,
      Names;
    PointScope(h.points[org.txid], h.cache, org);
    :- Persist(h, state, Some(BundleOf(m)));
    ghost var db := h.dpkg;
    o := RollbackFromRecovery(h, state.txid, before);
    SameOutsideChain(org.db, db, h.dpkg, TouchedBy(h.points[org.txid], h.cache), org.scope);
    if o.Done? {
      RestoredIsOld(h.points[org.txid], h.dpkg, h.config, org);
    }
  }

  method BlockAndPersist(h: Host, m: Manifest, state: TxState, ghost org: Origin) returns (o: Outcome)
    requires h.Valid() && Story(h, org) && h.txState.value.status.RollingBack? && AllOld(h.dpkg, h.config, org)
    requires state.txid == org.txid && state.status.RolledBack?
    modifies h`txState, h`journal, h`blocked, h`calm
    ensures h.calm ==> old(h.calm) && o.Done?
    ensures h.Valid() && Story(h, org) && old(h.journal) <= h.journal && old(h.blocked) <= h.blocked
    ensures h.txState.value.status in {RollingBack, RolledBack}
    ensures o.Done? ==> h.txState == Some(state) && Blocked(h.blocked, BundleOf(m))
  {
    hide NoReinstall, JournalBlocked, Blocked, Usable, RecordsOf, PointOf, BundleOf, AllOld;
    ghost var registry := h.blocked;
    o := BlockFailed(h, m, state.txid);
    GrownRegistry(h.journal, registry, h.blocked);
    if !o.Done? {
      return;
    }
    :- Persist(h, state, Some(BundleOf(m)));
    :- h.Step();
    return Done;
  }

  lemma GrownRegistry(journal: seq<Entry>, a: seq<BlockedEntry>, b: seq<BlockedEntry>)
    requires a <= b && JournalBlocked(journal, a)
    ensures JournalBlocked(journal, b)
  {
    forall e | e in journal && e.status.RolledBack?
      ensures Blocked(b, e.about.value)
    {
      BlockedForGood(a, b, e.about.value);
    }
  }

  // ---------------------------------------------------------------- apply_update

  /** A bundle that stages, is not blocked, replaces packages whose files are in the cache, and
      whose files and cached files are what they claim to be. */
  ghost predicate Promising(
    policy: Policy, m: Manifest, bundle: map<string, File>, txid: TxId, staging: map<TxId, map<string, File>>,
    blocked: seq<BlockedEntry>, points: Points, db: Database, cache: Cache)
  {
    && CanStage(policy, m, bundle, txid, staging)
    && HonestBundle(bundle, m.components)
    && !Blocked(blocked, BundleOf(m))
    && txid !in points
    && RollbackReady(m, db, cache)
    && HonestCache(cache)
    && DebianVersions(m, db)
    && Cacheable(m.components, cache)
  }

  lemma PromisingMeans(
    policy: Policy, m: Manifest, bundle: map<string, File>, txid: TxId, staging: map<TxId, map<string, File>>,
    blocked: seq<BlockedEntry>, points: Points, db: Database, cache: Cache)
    requires Promising(policy, m, bundle, txid, staging, blocked, points, db, cache)
    ensures CanStage(policy, m, bundle, txid, staging) && HonestBundle(bundle, m.components)
    ensures !Blocked(blocked, BundleOf(m)) && txid !in points && RollbackReady(m, db, cache)
    ensures HonestCache(cache) && DebianVersions(m, db) && Cacheable(m.components, cache)
  {
  }

  ghost predicate DebianVersions(m: Manifest, db: Database) {
    forall c <- m.components ::
      var v := InstalledVersion(db, c.package);
      v.Some? ==> '_' !in v.value
  }

  /** The staged package files, in manifest order. */
  function StagedDebs(files: map<string, File>, cs: seq<Component>): (r: seq<File>)
    requires forall c <- cs :: c.filename in files
    ensures |r| == |cs| && forall i :: 0 <= i < |cs| ==> cs[i].filename in files && r[i] == files[cs[i].filename]
  {
    seq(|cs|, i requires 0 <= i < |cs| => assert cs[i] in cs; files[cs[i].filename])
  }

  lemma StagedScope(m: Manifest, bundle: map<string, File>, files: map<string, File>, cache: Cache)
    requires forall c <- m.components ::
      c.filename in bundle && c.filename in files && files[c.filename] == bundle[c.filename]
    ensures DebNames(StagedDebs(files, m.components)) <= Scope(m, bundle, cache)
    ensures HonestBundle(bundle, m.components) ==> Honest(StagedDebs(files, m.components), m.components)
  {
    var debs := StagedDebs(files, m.components);
    forall f | f in debs && f.Deb? ensures f.package in Scope(m, bundle, cache) {
      var i :| 0 <= i < |debs| && debs[i] == f;
      assert m.components[i] in m.components;
    }
    if HonestBundle(bundle, m.components) {
      forall i | 0 <= i < |debs|
        ensures debs[i].Deb? && debs[i].package == m.components[i].package && debs[i].version == m.components[i].version
      {
        assert m.components[i] in m.components;
      }
    }
  }

  lemma OriginIsScoped(m: Manifest, bundle: map<string, File>, org: Origin)
    requires org.manifest == m && org.scope == Scope(m, bundle, org.cache)
    ensures Scoped(org)
  {
  }

  /** The `try` block.  `recovered` says that the recovery point exists. */
  method TryUpdate(h: Host, policy: Policy, m: Manifest, bundle: map<string, File>, txid: TxId, start: TxState,
                   ghost org: Origin)
    returns (o: Outcome, state: TxState, before: Before, recovered: bool)
    requires h.Valid() && h.txState == Some(start) && start.status.Preparing? && start.txid == txid
    requires org == Origin(policy, m, txid, h.dpkg, h.config, h.cache, Scope(m, bundle, h.cache))
    modifies h`staging, h`points, h`cache, h`cacheDirs, h`release, h`txState, h`journal, h`dpkg, h`restarted,
      h`config, h`calm, h`reading, h`probed
    ensures h.calm ==> old(h.calm)
    ensures h.Valid() && Story(h, org) && old(h.journal) <= h.journal
    ensures recovered ==> before == h.probed && state.txid == txid && state.point == Some(txid)
    ensures recovered && InFlightStatus(state.status) && o.Raised? ==>
      h.txState.value.status in {Preparing, Installing, Validating} && txid in h.points && PointOf(h.points[txid], org)
    ensures o.Done? ==> h.txState.value.status.Confirmed? && Completed(h, org, h.probed)
    ensures h.txState.value.status in {Preparing, Installing, Validating, Confirmed}
    ensures h.strictMkdir ==> !o.Done? && !h.txState.value.status.Confirmed? && h.release == old(h.release)
    ensures Outlasted(old(h.points), h.points, policy.maxPoints)
    ensures h.writable && o.Raised? && !(recovered && InFlightStatus(state.status)) ==>
      h.txState.value.status in {Preparing, Confirmed}
    ensures !h.txState.value.status.Confirmed? ==>
      forall t <- old(h.points) :: t in h.points && h.points[t] == old(h.points)[t]
    ensures Blocked(h.blocked, BundleOf(m)) ==>
      !o.Done? && !recovered && h.txState == old(h.txState) && h.journal == old(h.journal)
    ensures h.calm && old(Promising(policy, m, bundle, txid, h.staging, h.blocked, h.points, h.dpkg, h.cache)) ==>
      if h.strictMkdir then o.Raised? && recovered && state.status.Validating? else o.Done?
  {
    hide NoReinstall, JournalBlocked, Blocked, Usable, PointOf, BundleOf, SameOutside, Verified, Cacheable,
      HonestBundle, CanStage, RollbackReady, Honest, Scope, DebNames, Completed, NoClash, Outlasted, AllOld, AllNew,
      CacheGrows, Covered, Names, Scoped, Promising;
    ghost var points := h.points;
    if Promising(policy, m, bundle, txid, h.staging, h.blocked, h.points, h.dpkg, h.cache) {
      PromisingMeans(policy, m, bundle, txid, h.staging, h.blocked, h.points, h.dpkg, h.cache);
    }
    OriginIsScoped(m, bundle, org);
    state, recovered := start, false;
    var debs;
    o, before, debs := PrepareOwn(h, policy, m, bundle, start, org);
    GrownIsOutlasted(points, h.points, policy.maxPoints);
    if !o.Done? {
      return;
    }
    ghost var prepared := h.points;
    recovered := true;
    state := state.(point := Some(txid), status := Installing);
    o, state := InstallAndConfirm(h, policy, m, debs, before, state, org);
    OutlastedTwice(points, prepared, h.points, policy.maxPoints, policy.maxPoints, policy.maxPoints);
  }

  /** Prepares a transaction that is "preparing" on disk: its own point exists, the machine is untouched. */
  method PrepareOwn(h: Host, policy: Policy, m: Manifest, bundle: map<string, File>, start: TxState, ghost org: Origin)
    returns (o: Outcome, before: Before, debs: seq<File>)
    requires h.Valid() && h.txState == Some(start) && start.status.Preparing?
    requires org == Origin(policy, m, start.txid, h.dpkg, h.config, h.cache, Scope(m, bundle, h.cache))
    modifies h`staging, h`points, h`calm, h`probed
    ensures h.calm ==> old(h.calm)
    ensures o.Done? && old(h.calm) ==> h.calm
    ensures h.Valid() && Story(h, org)
    ensures forall t <- old(h.points) :: t in h.points && h.points[t] == old(h.points)[t]
    ensures o.Done? ==>
      && before == h.probed && m.components != [] && !Blocked(h.blocked, BundleOf(m))
      && org.txid in h.points && PointOf(h.points[org.txid], org)
      && org.txid in h.staging && STAGED_MANIFEST in h.staging[org.txid]
      && Verified(h.staging[org.txid], m.components)
      && (NoClash(m) ==> h.staging[org.txid][STAGED_MANIFEST] == Json(m))
      && DebNames(debs) <= org.scope
      && (HonestBundle(bundle, m.components) ==> Honest(debs, m.components))
    ensures h.calm && CanStage(policy, m, bundle, start.txid, old(h.staging)) && !Blocked(h.blocked, BundleOf(m))
            && start.txid !in old(h.points) && RollbackReady(m, h.dpkg, h.cache)
            ==> o.Done?
  {
    hide NoReinstall, JournalBlocked, Blocked, Usable, PointOf, BundleOf, SameOutside, RecordsOf, HonestBundle,
      CanStage, RollbackReady, Honest, Scope, DebNames, NoClash, AllOld, AllNew, CacheGrows, Covered, Names;
    SameOutsideSelf(org);
    debs := [];
    var records: seq<PackageRecord>;
    o, before, records := Prepare(h, policy, m, bundle, start.txid);
    if o.Done? {
      PreparedPoint(h.points[start.txid], org);
      StagedScope(m, bundle, h.staging[start.txid], h.cache);
      debs := StagedDebs(h.staging[start.txid], m.components);
    }
  }

  lemma SameOutsideSelf(org: Origin)
    ensures SameOutside(org.db, org.db, org.scope) && CacheGrows(org.cache, org.cache)
  {
  }

  lemma PreparedPoint(point: Point, org: Origin)
    requires Usable(point, org.cache) && point.archive == Some(Covered(org.policy, org.config))
    requires RecordsOf(point.metadata.value.packages, org.manifest, org.db)
    ensures PointOf(point, org)
  {
  }

  method InstallAndConfirm(h: Host, policy: Policy, m: Manifest, debs: seq<File>, before: Before, start: TxState,
                           ghost org: Origin)
    returns (o: Outcome, state: TxState)
    requires h.Valid() && Story(h, org) && h.txState.value.status.Preparing?
    requires org.manifest == m && m.components != [] && Scoped(org) && DebNames(debs) <= org.scope
    requires org.txid in h.points && PointOf(h.points[org.txid], org)
    requires start.txid == org.txid && start.point == Some(org.txid) && start.status.Installing?
    requires !Blocked(h.blocked, BundleOf(m))
    requires org.txid in h.staging && STAGED_MANIFEST in h.staging[org.txid]
    requires Verified(h.staging[org.txid], m.components)
    requires NoClash(m) ==> h.staging[org.txid][STAGED_MANIFEST] == Json(m)
    modifies h`staging, h`points, h`cache, h`cacheDirs, h`release, h`txState, h`journal, h`dpkg, h`restarted,
      h`config, h`calm, h`reading
    ensures h.calm ==> old(h.calm)
    ensures h.Valid() && Story(h, org) && old(h.journal) <= h.journal
    ensures state.txid == org.txid && state.point == Some(org.txid)
    ensures InFlightStatus(state.status) && o.Raised? ==>
      h.txState.value.status in {Preparing, Installing, Validating} && h.points == old(h.points)
    ensures o.Done? ==> h.txState.value.status.Confirmed? && Completed(h, org, before)
    ensures h.txState.value.status in {Preparing, Installing, Validating, Confirmed}
    ensures !h.txState.value.status.Confirmed? ==> h.points == old(h.points)
    ensures Outlasted(old(h.points), h.points, policy.maxPoints)
    ensures h.writable && o.Raised? && !InFlightStatus(state.status) ==> h.txState.value.status.Confirmed?
    ensures h.strictMkdir ==> !o.Done? && !h.txState.value.status.Confirmed? && h.release == old(h.release)
    ensures h.calm && Honest(debs, m.components) ==>
      && (h.strictMkdir ==> o.Raised? && state.status.Validating?)
      && (!h.strictMkdir && Cacheable(m.components, old(h.cache)) ==> o.Done?)
  {
    hide NoReinstall, JournalBlocked, Blocked, Usable, PointOf, AllNew, BundleOf, SameOutside, IsNewest, Pruned,
      Outlasted, Verified, Cacheable, Honest, Scoped, Kept, HealthyHost, AllOld, CacheGrows, Covered, Names,
      Restarted, Outdated;
    GrownIsOutlasted(h.points, h.points, policy.maxPoints);
    o, state := InstallAndValidate(h, m, debs, before, start, org);
    if o.Done? {
      o, state := Confirm(h, policy, m, state, org);
    }
  }

  /** The two phases before anything counts as confirmed. */
  method InstallAndValidate(h: Host, m: Manifest, debs: seq<File>, before: Before, start: TxState, ghost org: Origin)
    returns (o: Outcome, state: TxState)
    requires h.Valid() && Story(h, org) && h.txState.value.status.Preparing?
    requires org.manifest == m && Scoped(org) && DebNames(debs) <= org.scope
    requires org.txid in h.points && PointOf(h.points[org.txid], org)
    requires start.txid == org.txid && start.point == Some(org.txid) && start.status.Installing?
    requires !Blocked(h.blocked, BundleOf(m))
    modifies h`txState, h`journal, h`dpkg, h`restarted, h`config, h`calm, h`reading
    ensures h.calm ==> old(h.calm)
    ensures o.Done? && old(h.calm) ==> h.calm
    ensures h.Valid() && Story(h, org) && old(h.journal) <= h.journal
    ensures state.txid == org.txid && state.point == Some(org.txid) && state.status in {Installing, Validating}
    ensures h.txState.value.status in {Preparing, Installing, Validating}
    ensures o.Done? ==>
      && state.status.Validating? && h.txState == Some(state) && AllNew(h.dpkg, org)
      && HealthyHost(h, Names(m), before) && Restarted(h, Outdated(m, org.db), before)
    ensures h.calm && Honest(debs, m.components) ==> o.Done?
  {
    hide NoReinstall, JournalBlocked, Blocked, Usable, PointOf, AllNew, BundleOf, SameOutside, Honest, Scoped,
      HealthyHost, AllOld, CacheGrows, Covered, Names, DebNames, Restarted, Outdated;
    o, state := InstallCandidate(h, m, debs, before, start, org);
    if o.Done? {
      state := state.(status := Validating);
      o := ValidateCandidate(h, m, before, state, org);
    }
  }

  /** `apply_update`.  Whatever happens, and wherever the power fails, either nothing was started or
      the persisted status keeps its promise about the machine. */
  method ApplyUpdate(h: Host, policy: Policy, m: Manifest, bundle: map<string, File>, txid: TxId)
    returns (o: Outcome, ghost org: Origin)
    requires h.Valid()
    modifies h
    ensures org == Origin(policy, m, txid, old(h.dpkg), old(h.config), old(h.cache), Scope(m, bundle, old(h.cache)))
    ensures h.Valid() && old(h.journal) <= h.journal && old(h.blocked) <= h.blocked
    ensures || Story(h, org)
            || (h.txState == old(h.txState) && h.dpkg == old(h.dpkg) && h.config == old(h.config)
                && h.points == old(h.points) && h.cache == old(h.cache) && !o.Done?)
    ensures CacheGrows(old(h.cache), h.cache) && Outlasted(old(h.points), h.points, policy.maxPoints)
    ensures o.Done? ==>
      h.txState.Some? && h.txState.value.status.Confirmed? && AllNew(h.dpkg, org) && Completed(h, org, h.probed)
    ensures old(Blocked(h.blocked, BundleOf(m))) ==> !o.Done? && h.dpkg == old(h.dpkg) && h.config == old(h.config)
    ensures h.writable && o.Raised? && !old(InFlight(h.txState)) ==> !InFlight(h.txState)
    ensures h.strictMkdir ==> !o.Done? && (h.txState == old(h.txState) || !h.txState.value.status.Confirmed?)
    ensures h.calm && old(Promising(policy, m, bundle, txid, h.staging, h.blocked, h.points, h.dpkg, h.cache)) ==>
      if h.strictMkdir
      then o.Raised? && h.txState.Some? && h.txState.value.status.RolledBack? && Blocked(h.blocked, BundleOf(m))
      else o.Done?
  {
    hide NoReinstall, JournalBlocked, Blocked, Usable, PointOf, BundleOf, SameOutside, Scope, AllOld, AllNew, Scoped,
      Completed, CacheGrows, Covered, Names, Promising, Outlasted;
    h.calm := true;
    org := Origin(policy, m, txid, h.dpkg, h.config, h.cache, Scope(m, bundle, h.cache));
    SameOutsideSelf(org);
    GrownIsOutlasted(h.points, h.points, policy.maxPoints);
    :- h.Step();
    var start := TxState(Preparing, txid, None);
    :- Persist(h, start, Some(BundleOf(m)));
    o := Transact(h, policy, m, bundle, start, org);
  }

  /** Everything after "preparing" is on disk: the `try` block and its `except`. */
  method Transact(h: Host, policy: Policy, m: Manifest, bundle: map<string, File>, start: TxState, ghost org: Origin)
    returns (o: Outcome)
    requires h.Valid() && h.txState == Some(start) && start.status.Preparing?
    requires org == Origin(policy, m, start.txid, h.dpkg, h.config, h.cache, Scope(m, bundle, h.cache))
    modifies h
    ensures h.calm ==> old(h.calm)
    ensures h.Valid() && Story(h, org) && old(h.journal) <= h.journal && old(h.blocked) <= h.blocked
    ensures Outlasted(old(h.points), h.points, policy.maxPoints)
    ensures o.Done? ==> h.txState.value.status.Confirmed? && Completed(h, org, h.probed)
    ensures old(Blocked(h.blocked, BundleOf(m))) ==> !o.Done? && h.dpkg == old(h.dpkg) && h.config == old(h.config)
    ensures h.writable && o.Raised? ==> !InFlight(h.txState)
    ensures h.strictMkdir ==> !o.Done? && !h.txState.value.status.Confirmed?
    ensures h.calm && old(Promising(policy, m, bundle, start.txid, h.staging, h.blocked, h.points, h.dpkg, h.cache)) ==>
      if h.strictMkdir
      then o.Raised? && h.txState.value.status.RolledBack? && Blocked(h.blocked, BundleOf(m))
      else o.Done?
  {
    hide NoReinstall, JournalBlocked, Blocked, Usable, PointOf, BundleOf, SameOutside, Scope, AllOld, AllNew, Scoped,
      HonestCache, DebianVersions, HonestPoint, Completed, CacheGrows, Covered, Names, Restarted, Outdated,
      HealthyHost, Kept, NoClash, Promising, Outlasted;
    ghost var promising := Promising(policy, m, bundle, start.txid, h.staging, h.blocked, h.points, h.dpkg, h.cache);
    if promising {
      PromisingMeans(policy, m, bundle, start.txid, h.staging, h.blocked, h.points, h.dpkg, h.cache);
    }
    OriginIsScoped(m, bundle, org);
    var state, before, recovered;
    o, state, before, recovered := TryUpdate(h, policy, m, bundle, start.txid, start, org);
    if o.Raised? {
      if promising && recovered && InFlightStatus(state.status) {
        PointIsHonest(h.points[org.txid], h.cache, org);
      }
      o := HandleFailure(h, m, before, state, recovered, org);
    }
  }

  /** The `except` block: always ends in an exception, unless the power fails first. */
  method HandleFailure(h: Host, m: Manifest, before: Before, state: TxState, recovered: bool, ghost org: Origin)
    returns (o: Outcome)
    requires h.Valid() && Story(h, org) && org.manifest == m && Scoped(org)
    requires recovered ==> state.txid == org.txid && state.point == Some(org.txid)
    requires recovered && InFlightStatus(state.status) ==>
      h.txState.value.status in {Preparing, Installing, Validating}
      && org.txid in h.points && PointOf(h.points[org.txid], org)
    modifies h`txState, h`journal, h`dpkg, h`restarted, h`config, h`release, h`rollbackState, h`blocked, h`calm,
      h`reading
    ensures !o.Done?
    ensures h.calm ==> old(h.calm)
    ensures h.Valid() && Story(h, org) && old(h.journal) <= h.journal && old(h.blocked) <= h.blocked
    ensures !recovered ==> h.dpkg == old(h.dpkg) && h.config == old(h.config) && h.txState == old(h.txState)
    ensures h.txState.value.status.Confirmed? ==> old(h.txState.value.status).Confirmed?
    ensures h.writable && recovered && InFlightStatus(state.status) && o.Raised? ==>
      h.txState.value.status in {RolledBack, RollbackFailed}
    ensures !(recovered && InFlightStatus(state.status)) ==> h.txState == old(h.txState)
    ensures h.calm && recovered && InFlightStatus(state.status) && HonestPoint(h.points[org.txid], h.cache) ==>
      o.Raised? && h.txState.value.status.RolledBack? && Blocked(h.blocked, BundleOf(m))
  {
    hide NoReinstall, JournalBlocked, Blocked, Usable, PointOf, BundleOf, SameOutside, HonestPoint, Scoped, AllOld,
      AllNew;
    if recovered && InFlightStatus(state.status) {
      o := Undo(h, m, before, state, org);
      if o.Raised? {
        :- Persist(h, state.(status := RollbackFailed), Some(BundleOf(m)));
        o := h.Step();
      }
    } else {
      o := h.Step();
    }
    if o.Done? {
      o := Raised;
    }
  }
}
