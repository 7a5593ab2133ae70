/** Undoing a transaction at boot or by hand, and what holds over runs of all operations. */
module UpdateRecovery {
  import opened Common
  import opened UpdateModel
  import opened UpdateHost
  import opened UpdateRuntime
  import opened UpdateTransaction

  /** A rollback to this point ended with a healthy machine, and the services that ran are restarted. */
  ghost predicate Checked(h: Host, point: Point)
    reads h`reading, h`restarted, h`probed
  {
    && point.metadata.Some?
    && var packages := set r | r in point.metadata.value.packages :: r.package;
       HealthyHost(h, packages, h.probed) && Restarted(h, packages, h.probed)
  }

  lemma NowChecked(h: Host, point: Point)
    requires point.metadata.Some?
    requires var packages := Expected(RecordPins(point.metadata.value.packages)).Keys;
             HealthyHost(h, packages, h.probed) && Restarted(h, packages, h.probed)
    ensures Checked(h, point)
  {
    RecordedNames(point.metadata.value.packages);
  }

  lemma UsableHasMetadata(point: Point, cache: Cache)
    ensures Usable(point, cache) ==> point.metadata.Some?
  {
  }

  lemma RecordedNames(records: seq<PackageRecord>)
    ensures Expected(RecordPins(records)).Keys == set r | r in records :: r.package
  {
    forall p | p in Expected(RecordPins(records))
      ensures exists r <- records :: r.package == p
    {
      var i :| 0 <= i < |records| && RecordPins(records)[i].package == p;
      assert records[i] in records;
    }
    forall r <- records
      ensures r.package in Expected(RecordPins(records))
    {
      var i :| 0 <= i < |records| && records[i] == r;
      assert RecordPins(records)[i].package == r.package;
    }
  }

  /** `recover_interrupted`: completes the rollback of a transaction found in flight. */
  method RecoverInterrupted(h: Host, ghost org: Origin) returns (o: Outcome)
    requires h.Valid() && Scoped(org)
    modifies h`txState, h`journal, h`dpkg, h`restarted, h`config, h`release, h`rollbackState, h`calm, h`reading,
      h`probed
    ensures h.Valid() && old(h.journal) <= h.journal
    ensures old(Story(h, org)) ==> Story(h, org)
    ensures !old(InFlight(h.txState)) ==>
      h.txState == old(h.txState) && h.dpkg == old(h.dpkg) && h.config == old(h.config) && h.release == old(h.release)
    ensures o.Done? ==> !InFlight(h.txState)
    ensures old(h.txState).Some? && old(h.txState).value.status !in {Installing, Validating, RollingBack} ==>
      h.txState == old(h.txState) && h.dpkg == old(h.dpkg) && h.config == old(h.config)
    ensures o.Done? && h.txState.Some? ==> h.txState.value.status !in {Installing, Validating, RollingBack}
    ensures o.Done? && old(InFlight(h.txState)) ==>
      && h.txState == Some(old(h.txState).value.(status := RolledBackAfterInterruption))
      && RestoredTo(h.dpkg, h.config, h.points[old(h.txState).value.point.value])
      && Checked(h, h.points[old(h.txState).value.point.value]) && !h.probed.clientRunning
    ensures h.txState == old(h.txState)
         || h.txState == Some(old(h.txState).value.(status := RolledBackAfterInterruption))
    ensures h.calm && old(InFlight(h.txState)) && HonestPoint(h.points[old(h.txState).value.point.value], h.cache)
      ==> o.Done?
  {
    hide NoReinstall, JournalBlocked, Blocked, Usable, PointOf, SameOutside, RestoredTo, HonestPoint, Scoped, AllOld,
      AllNew, Story, CacheGrows, HealthyHost, Expected, RecordPins, TouchedBy, ReleaseSaved, Covered, Names;
    h.calm := true;
    if h.txState.None? {
      return Done;
    }
    :- h.Step();
    var state := h.txState.value;
    if !InFlightStatus(state.status) {
      return Done;
    }
    if state.point.None? {
      return Raised;
    }
    :- h.Step();
    o := CompleteRollback(h, state.point.value, org);
    if o.Done? {
      o := MarkRecovered(h, state, org);
    }
  }

  method MarkRecovered(h: Host, state: TxState, ghost org: Origin) returns (o: Outcome)
    requires h.Valid() && InFlight(h.txState) && h.txState == Some(state)
    modifies h`txState, h`journal, h`calm
    ensures h.calm <==> old(h.calm) && o.Done?
    ensures h.Valid() && old(h.journal) <= h.journal
    ensures old(Story(h, org)) && AllOld(h.dpkg, h.config, org) ==> Story(h, org)
    ensures h.txState == Some(state) || h.txState == Some(state.(status := RolledBackAfterInterruption))
    ensures o.Done? ==> h.txState == Some(state.(status := RolledBackAfterInterruption))
  {
    hide NoReinstall, JournalBlocked, Blocked, Usable, PointOf, SameOutside, AllOld, AllNew, CacheGrows;
    :- Persist(h, state.(status := RolledBackAfterInterruption), None);
    o := h.Step();
  }

  /** Looks at what runs of `watched`, then rolls back. */
  method RollBackWatching(h: Host, txid: TxId, watched: set<Package>) returns (o: Outcome)
    requires txid in h.points && h.points[txid].metadata.Some?
    modifies h`dpkg, h`restarted, h`config, h`release, h`rollbackState, h`calm, h`reading, h`probed
    ensures h.calm ==> old(h.calm)
    ensures o.Done? && old(h.calm) ==> h.calm
    ensures o.Done? ==>
      && RestoredTo(h.dpkg, h.config, h.points[txid]) && Checked(h, h.points[txid])
      && ("xaac-thinclient" !in watched ==> !h.probed.clientRunning)
    ensures SameOutside(old(h.dpkg), h.dpkg, TouchedBy(h.points[txid], h.cache))
    ensures h.calm && Usable(h.points[txid], h.cache) && HonestPoint(h.points[txid], h.cache) ==> o.Done?
  {
    hide Usable, RestoredTo, SameOutside, HonestPoint, HealthyHost, Restarted, Expected, RecordPins, TouchedBy,
      ReleaseSaved, Checked;
    Unchanged(h.dpkg);
    var before :- h.ProbeBefore(watched);
    o := RollbackFromRecovery(h, txid, before);
    if o.Done? {
      NowChecked(h, h.points[txid]);
    }
  }

  method CompleteRollback(h: Host, txid: TxId, ghost org: Origin) returns (o: Outcome)
    requires Scoped(org) && InFlight(h.txState) && h.txState.value.point == Some(txid)
    modifies h`dpkg, h`restarted, h`config, h`release, h`rollbackState, h`calm, h`reading, h`probed
    ensures h.calm ==> old(h.calm)
    ensures o.Done? && old(h.calm) ==> h.calm
    ensures old(Story(h, org)) ==> Story(h, org)
    ensures o.Done? ==>
      && txid in h.points && RestoredTo(h.dpkg, h.config, h.points[txid])
      && Checked(h, h.points[txid]) && !h.probed.clientRunning
      && (old(Story(h, org)) ==> AllOld(h.dpkg, h.config, org))
    ensures h.calm && txid in h.points && Usable(h.points[txid], h.cache) && HonestPoint(h.points[txid], h.cache)
      ==> o.Done?
  {
    hide Usable, PointOf, SameOutside, RestoredTo, HonestPoint, Scoped, AllOld, AllNew, CacheGrows, Checked,
      HealthyHost, Restarted, Expected, RecordPins, TouchedBy;
    ghost var told, db := Story(h, org), h.dpkg;
    if txid in h.points {
      UsableHasMetadata(h.points[txid], h.cache);
    }
    if txid !in h.points || h.points[txid].metadata.None? {
      return Raised;
    }
    var records := h.points[txid].metadata.value.packages;
    o := RollBackWatching(h, txid, (set r | r in records :: r.package) - {"xaac-thinclient"});
    if told {
      StaysInScope(h.points[txid], h.cache, org, db, h.dpkg);
      if o.Done? {
        RestoredIsOld(h.points[txid], h.dpkg, h.config, org);
      }
    }
  }

  lemma StaysInScope(point: Point, cache: Cache, org: Origin, db: Database, after: Database)
    requires PointOf(point, org) && Scoped(org) && CacheGrows(org.cache, cache)
    requires SameOutside(org.db, db, org.scope) && SameOutside(db, after, TouchedBy(point, cache))
    ensures SameOutside(org.db, after, org.scope)
  {
    PointScope(point, cache, org);
  }

  // ---------------------------------------------------------------- by hand

  /** The newest directory that holds finished metadata, whatever else it has lost. */
  ghost predicate IsLatest(points: Points, txid: TxId) {
    && txid in points && points[txid].metadata.Some?
    && forall t <- points :: points[t].metadata.Some? ==> points[txid].mtime >= points[t].mtime
  }

  method LatestRecoveryPoint(h: Host) returns (found: Option<TxId>)
    ensures found.None? ==> forall t <- h.points :: h.points[t].metadata.None?
    ensures found.Some? ==> IsLatest(h.points, found.value)
  {
    var finished := map t | t in h.points && h.points[t].metadata.Some? :: h.points[t];
    var order := NewestFirst(finished);
    if order == [] {
      assert forall t <- h.points :: h.points[t].metadata.Some? ==> t in finished;
      return None;
    }
    assert order[0] in order;
    forall t | t in h.points && h.points[t].metadata.Some?
      ensures h.points[order[0]].mtime >= h.points[t].mtime
    {
      assert t in finished;
      var i :| 0 <= i < |order| && order[i] == t;
    }
    return Some(order[0]);
  }

  ghost predicate ManuallyRestored(h: Host)
    reads h
  {
    && h.txState.Some? && h.txState.value.status.RolledBackManual? && h.txState.value.point.Some?
    && IsLatest(h.points, h.txState.value.point.value)
    && RestoredTo(h.dpkg, h.config, h.points[h.txState.value.point.value])
    && Checked(h, h.points[h.txState.value.point.value])
  }

  /** Whichever directory counts as the newest, a rollback from it finds what it needs. */
  ghost predicate LatestIsSound(points: Points, cache: Cache) {
    forall t :: IsLatest(points, t) ==> Usable(points[t], cache) && HonestPoint(points[t], cache)
  }

  ghost predicate SomeFinished(points: Points) {
    exists t <- points :: points[t].metadata.Some?
  }

  /** The packages a rollback by hand can touch are among these. */
  ghost predicate LatestTouches(points: Points, cache: Cache, names: set<Package>) {
    forall t :: IsLatest(points, t) ==> TouchedBy(points[t], cache) <= names
  }

  /** `manual_rollback`.  No state is persisted before the packages change: cut short, it leaves
      the old status behind, so recovery at boot does not know about it. */
  method ManualRollback(h: Host) returns (o: Outcome)
    requires h.Valid()
    modifies h`txState, h`journal, h`dpkg, h`restarted, h`config, h`release, h`rollbackState, h`calm, h`reading,
      h`probed
    ensures h.Valid() && old(h.journal) <= h.journal
    ensures h.txState == old(h.txState) || ManuallyRestored(h)
    ensures o.Done? ==> ManuallyRestored(h)
    ensures forall names :: LatestTouches(h.points, h.cache, names) ==> SameOutside(old(h.dpkg), h.dpkg, names)
    ensures h.calm && SomeFinished(h.points) && LatestIsSound(h.points, h.cache) ==> o.Done?
  {
    hide NoReinstall, JournalBlocked, Blocked, Usable, HonestPoint, SameOutside, IsLatest, TouchedBy,
      ManuallyRestored;
    h.calm := true;
    Unchanged(h.dpkg);
    :- h.Step();
    var found := LatestRecoveryPoint(h);
    if found.None? {
      return Raised;
    }
    ghost var db := h.dpkg;
    o := RollBackTo(h, found.value);
    forall names | LatestTouches(h.points, h.cache, names) ensures SameOutside(db, h.dpkg, names) {
      Widened(db, h.dpkg, TouchedBy(h.points[found.value], h.cache), names);
    }
  }

  method RollBackTo(h: Host, txid: TxId) returns (o: Outcome)
    requires h.Valid() && IsLatest(h.points, txid) && txid in h.points && h.points[txid].metadata.Some?
    modifies h`txState, h`journal, h`dpkg, h`restarted, h`config, h`release, h`rollbackState, h`calm, h`reading,
      h`probed
    ensures h.calm ==> old(h.calm)
    ensures o.Done? && old(h.calm) ==> h.calm
    ensures h.Valid() && old(h.journal) <= h.journal
    ensures h.txState == old(h.txState) || ManuallyRestored(h)
    ensures o.Done? ==> ManuallyRestored(h)
    ensures SameOutside(old(h.dpkg), h.dpkg, TouchedBy(h.points[txid], h.cache))
    ensures h.calm && Usable(h.points[txid], h.cache) && HonestPoint(h.points[txid], h.cache) ==> o.Done?
  {
    hide NoReinstall, JournalBlocked, Blocked, Usable, RestoredTo, SameOutside, HonestPoint, HealthyHost, Expected,
      RecordPins, TouchedBy, IsLatest, ReleaseSaved, AllAt, Contains, ManuallyRestored, Checked, Restarted;
    var meta := h.points[txid].metadata.value;
    :- RollBackWatching(h, txid, set r | r in meta.packages :: r.package);
    o := MarkRestored(h, txid, meta.txid);
  }

  method MarkRestored(h: Host, txid: TxId, recorded: TxId) returns (o: Outcome)
    requires h.Valid() && IsLatest(h.points, txid) && RestoredTo(h.dpkg, h.config, h.points[txid])
    requires Checked(h, h.points[txid])
    modifies h`txState, h`journal, h`calm
    ensures h.calm <==> old(h.calm) && o.Done?
    ensures h.Valid() && old(h.journal) <= h.journal
    ensures h.txState == old(h.txState) || ManuallyRestored(h)
    ensures o.Done? ==> ManuallyRestored(h)
  {
    hide NoReinstall, JournalBlocked, Blocked, Usable, RestoredTo, Checked;
    :- Persist(h, TxState(RolledBackManual, recorded, Some(txid)), None);
    o := h.Step();
  }

  /** After a rollback that itself failed, the transaction's point is still there: while no later one
      is finished, rolling back by hand undoes the transaction, and without a fault it succeeds. */
  method RollBackAfterFailure(h: Host, ghost org: Origin) returns (o: Outcome)
    requires h.Valid() && Story(h, org) && Scoped(org) && h.txState.value.status.RollbackFailed?
    requires forall t <- h.points ::
      t != org.txid && h.points[t].metadata.Some? ==> h.points[t].mtime < h.points[org.txid].mtime
    modifies h`txState, h`journal, h`dpkg, h`restarted, h`config, h`release, h`rollbackState, h`calm, h`reading,
      h`probed
    ensures h.Valid()
    ensures SameOutside(org.db, h.dpkg, org.scope)
    ensures o.Done? ==> AllOld(h.dpkg, h.config, org)
    ensures h.calm && HonestCache(org.cache) && DebianVersions(org.manifest, org.db) ==> o.Done?
  {
    hide NoReinstall, JournalBlocked, Blocked, Usable, RecordsOf, HonestPoint, SameOutside, RestoredTo, TouchedBy,
      HonestCache, DebianVersions, Scoped, AllOld, AllNew, CacheGrows;
    ghost var db := h.dpkg;
    OwnPointIsLatest(h.points, h.cache, org);
    o := ManualRollback(h);
    SameOutsideChain(org.db, db, h.dpkg, org.scope, org.scope);
    if o.Done? {
      RestoredIsOld(h.points[org.txid], h.dpkg, h.config, org);
    }
  }

  lemma OwnPointIsLatest(points: Points, cache: Cache, org: Origin)
    requires org.txid in points && PointOf(points[org.txid], org) && Scoped(org) && CacheGrows(org.cache, cache)
    requires forall t <- points ::
      t != org.txid && points[t].metadata.Some? ==> points[t].mtime < points[org.txid].mtime
    ensures SomeFinished(points) && forall t :: IsLatest(points, t) ==> t == org.txid
    ensures LatestTouches(points, cache, org.scope)
    ensures HonestCache(org.cache) && DebianVersions(org.manifest, org.db) ==> LatestIsSound(points, cache)
  {
    PointScope(points[org.txid], cache, org);
    if HonestCache(org.cache) && DebianVersions(org.manifest, org.db) {
      PointIsHonest(points[org.txid], cache, org);
    }
  }

  /** A newest point's archive lists this file. */
  ghost predicate InLatestArchive(points: Points, path: string) {
    exists t :: IsLatest(points, t) && points[t].archive.Some? && path in points[t].archive.value
  }

  ghost predicate LatestArchiveIntact(points: Points) {
    forall t :: IsLatest(points, t) ==> ArchiveIntact(points[t])
  }

  ghost predicate ArchiveIntact(point: Point)
    requires point.metadata.Some?
  {
    point.archive.Some? && ArchiveDigest(point.archive.value) == point.metadata.value.archiveSha256
  }

  ghost predicate ConfigurationRestored(h: Host, before: Configuration)
    reads h
  {
    && h.txState.Some? && h.txState.value.status.ConfigurationRestoredManual? && h.txState.value.point.Some?
    && IsLatest(h.points, h.txState.value.point.value)
    && var point := h.points[h.txState.value.point.value];
       ArchiveIntact(point) && h.config == before + point.archive.value
  }

  /** `restore_latest_configuration`: only the archive, after checking its digest. */
  method RestoreLatestConfiguration(h: Host) returns (o: Outcome)
    requires h.Valid()
    modifies h`txState, h`journal, h`config, h`calm
    ensures h.Valid() && old(h.journal) <= h.journal
    ensures h.txState == old(h.txState) || ConfigurationRestored(h, old(h.config))
    ensures o.Done? ==> ConfigurationRestored(h, old(h.config))
    ensures forall path :: !InLatestArchive(h.points, path) ==>
      (path in h.config <==> path in old(h.config)) && (path in h.config ==> h.config[path] == old(h.config)[path])
    ensures h.calm && SomeFinished(h.points) && LatestArchiveIntact(h.points) ==> o.Done?
  {
    hide NoReinstall, JournalBlocked, Blocked, Usable, IsLatest;
    h.calm := true;
    :- h.Step();
    var found := LatestRecoveryPoint(h);
    if found.None? {
      return Raised;
    }
    var point := h.points[found.value];
    var meta := point.metadata.value;
    if point.archive.None? || ArchiveDigest(point.archive.value) != meta.archiveSha256 {
      return Raised;
    }
    ghost var config := h.config;
    o := h.Extract(point.archive.value);
    OnlyArchived(config, h.config, h.points, found.value);
    if o.IsFailure() {
      return;
    }
    :- Persist(h, TxState(ConfigurationRestoredManual, meta.txid, found), None);
    o := h.Step();
  }

  lemma OnlyArchived(before: Configuration, after: Configuration, points: Points, txid: TxId)
    requires IsLatest(points, txid) && points[txid].archive.Some?
    requires before - points[txid].archive.value.Keys == after - points[txid].archive.value.Keys
    ensures forall path :: !InLatestArchive(points, path) ==>
      (path in after <==> path in before) && (path in after ==> after[path] == before[path])
  {
    var archived := points[txid].archive.value.Keys;
    forall path | !InLatestArchive(points, path)
      ensures (path in after <==> path in before) && (path in after ==> after[path] == before[path])
    {
      assert path !in archived;
      assert path in after <==> path in after - archived;
      assert path in before <==> path in before - archived;
    }
  }

  // ---------------------------------------------------------------- all or nothing

  /** Once no transaction is in flight, its packages are all new or all old, and nothing outside its
      scope has changed; after a rollback that itself failed, the point to undo it from is still there. */
  ghost predicate Settled(h: Host, org: Origin, before: Option<TxState>)
    reads h
  {
    || (h.txState == before && h.dpkg == org.db && h.config == org.config)
    || (&& h.txState.Some? && h.txState.value.txid == org.txid
        && SameOutside(org.db, h.dpkg, org.scope)
        && match h.txState.value.status
           case Confirmed => AllNew(h.dpkg, org)
           case Preparing => h.dpkg == org.db && h.config == org.config
           case RolledBack | RolledBackAfterInterruption => AllOld(h.dpkg, h.config, org)
           case RollbackFailed => org.txid in h.points && PointOf(h.points[org.txid], org)
           case _ => false)
  }

  /** An update that may fail or lose power anywhere, and any number of boots, each of which may
      fail or lose power anywhere as well. */
  method UpdateThenBoots(h: Host, policy: Policy, m: Manifest, bundle: map<string, File>, txid: TxId, boots: nat)
    returns (o: Outcome, ghost org: Origin)
    requires h.Valid() && !InFlight(h.txState)
    modifies h
    ensures org == Origin(policy, m, txid, old(h.dpkg), old(h.config), old(h.cache), Scope(m, bundle, old(h.cache)))
    ensures h.Valid()
    ensures !InFlight(h.txState) ==> Settled(h, org, old(h.txState))
    ensures o.Done? ==> !InFlight(h.txState)
    ensures Story(h, org) || (h.txState == old(h.txState) && h.dpkg == org.db && h.config == org.config)
    ensures HonestBundle(bundle, m.components) && HonestCache(old(h.cache)) ==>
      SameOutside(old(h.dpkg), h.dpkg, Names(m))
    ensures boots == 0 && o.Done? ==> h.txState.Some? && h.txState.value.status.Confirmed? && AllNew(h.dpkg, org)
    ensures h.txState != old(h.txState) && h.txState.Some? && h.txState.value.status.Confirmed? ==>
      InstalledAsListed(h.dpkg, m.components)
    ensures h.txState != old(h.txState) && h.txState.Some?
            && h.txState.value.status in {RolledBack, RolledBackAfterInterruption} ==>
      AsBefore(h.dpkg, h.config, old(h.dpkg), old(h.config), m.components, policy.configurationPaths)
  {
    hide NoReinstall, JournalBlocked, Blocked, Usable, PointOf, SameOutside, RestoredTo, HonestPoint, Scope, AllOld,
      AllNew, HonestBundle, HonestCache, Names, Outlasted, Completed, InstalledAsListed, AsBefore;
    ghost var before := h.txState;
    o, org := ApplyUpdate(h, policy, m, bundle, txid);
    OriginIsScoped(m, bundle, org);
    Unchanged(org.db);
    if HonestBundle(bundle, m.components) && HonestCache(org.cache) {
      HonestScope(m, bundle, org.cache);
    }
    for i := 0 to boots
      invariant h.Valid()
      invariant Story(h, org) || (h.txState == before && h.dpkg == org.db && h.config == org.config)
      invariant o.Done? ==> !InFlight(h.txState)
      invariant i == 0 && o.Done? ==> h.txState.Some? && h.txState.value.status.Confirmed? && AllNew(h.dpkg, org)
    {
      o := RecoverInterrupted(h, org);
    }
    if h.txState != before {
      InPlainTerms(h, org);
    }
  }

  lemma InPlainTerms(h: Host, org: Origin)
    requires Story(h, org)
    ensures h.txState.value.status.Confirmed? ==> InstalledAsListed(h.dpkg, org.manifest.components)
    ensures h.txState.value.status in {RolledBack, RolledBackAfterInterruption} ==>
      AsBefore(h.dpkg, h.config, org.db, org.config, org.manifest.components, org.policy.configurationPaths)
  {
    hide InstalledAsListed, AsBefore, AllNew, AllOld;
    if h.txState.value.status.Confirmed? {
      AllNewMeans(h.dpkg, org);
    }
    if h.txState.value.status in {RolledBack, RolledBackAfterInterruption} {
      AllOldMeans(h.dpkg, h.config, org);
    }
  }

  /** One boot without a fault is enough, if the cache holds what its paths say. */
  method UpdateThenCalmBoot(h: Host, policy: Policy, m: Manifest, bundle: map<string, File>, txid: TxId)
    returns (o: Outcome, ghost org: Origin)
    requires h.Valid() && !InFlight(h.txState)
    requires HonestCache(h.cache) && DebianVersions(m, h.dpkg)
    modifies h
    ensures org == Origin(policy, m, txid, old(h.dpkg), old(h.config), old(h.cache), Scope(m, bundle, old(h.cache)))
    ensures h.calm ==> !InFlight(h.txState) && Settled(h, org, old(h.txState))
  {
    hide NoReinstall, JournalBlocked, Blocked, Usable, PointOf, SameOutside, RestoredTo, HonestPoint, Scope, AllOld,
      AllNew, HonestCache, DebianVersions;
    ghost var before := h.txState;
    o, org := ApplyUpdate(h, policy, m, bundle, txid);
    OriginIsScoped(m, bundle, org);
    if InFlight(h.txState) {
      PointIsHonest(h.points[txid], h.cache, org);
    }
    o := RecoverInterrupted(h, org);
  }

  // ---------------------------------------------------------------- every run

  datatype Operation =
    | Update(policy: Policy, manifest: Manifest, bundle: map<string, File>, txid: TxId)
    | Boot
    | Rollback
    | RestoreConfiguration

  /** Every update of the run is allowed at least this many recovery points. */
  ghost predicate AllowAtLeast(operations: seq<Operation>, limit: int) {
    forall op <- operations :: op.Update? ==> limit <= op.policy.maxPoints
  }

  /** Every point is as it was and as usable as it was, or `limit` others no older are there. */
  ghost predicate PointsLast(before: Points, oldCache: Cache, after: Points, cache: Cache, limit: int) {
    forall t <- before ::
      || (t in after && after[t] == before[t] && (Usable(before[t], oldCache) ==> Usable(after[t], cache)))
      || Superseded(before[t].mtime, after, limit)
  }

  /** Any operations in any order, each cut short anywhere: a transaction in flight can always be
      undone, the cache loses nothing, the registry only grows, no bundle that was automatically
      rolled back is ever installed again, and a recovery point is only lost once as many others no
      older than it are there as the tightest policy of the run allows. */
  method Run(h: Host, operations: seq<Operation>, ghost limit: int)
    requires h.Valid() && AllowAtLeast(operations, limit)
    modifies h
    ensures h.Valid()
    ensures CacheGrows(old(h.cache), h.cache)
    ensures old(h.blocked) <= h.blocked
    ensures old(h.journal) <= h.journal && NoReinstall(h.journal)
    ensures PointsLast(old(h.points), old(h.cache), h.points, h.cache, limit)
  {
    hide JournalBlocked, Blocked, Usable, PointOf, SameOutside, RestoredTo, HonestPoint, Scope, AllOld, AllNew,
      Outlasted, PointsLast, LatestTouches, InLatestArchive, Completed;
    GrownIsOutlasted(h.points, h.points, limit);
    for i := 0 to |operations|
      invariant h.Valid() && CacheGrows(old(h.cache), h.cache)
      invariant old(h.blocked) <= h.blocked && old(h.journal) <= h.journal
      invariant Outlasted(old(h.points), h.points, limit)
    {
      var o: Outcome;
      match operations[i] {
        case Update(policy, m, bundle, txid) =>
          ghost var org, points := Nobody(), h.points;
          o, org := ApplyUpdate(h, policy, m, bundle, txid);
          OutlastedTwice(old(h.points), points, h.points, limit, limit, policy.maxPoints);
        case Boot =>
          o := RecoverInterrupted(h, Nobody());
        case Rollback =>
          o := ManualRollback(h);
        case RestoreConfiguration =>
          o := RestoreLatestConfiguration(h);
      }
    }
    OutlastedIsUsable(old(h.points), old(h.cache), h.points, h.cache, limit);
  }

  /** A transaction that never was, for boots of which nothing more is asked. */
  ghost function Nobody(): Origin {
    Origin(Policy(0, 0, false, {}), Manifest(None, []), "", map[], map[], map[], {})
  }

  lemma OutlastedIsUsable(before: Points, oldCache: Cache, after: Points, cache: Cache, limit: int)
    requires Outlasted(before, after, limit) && CacheGrows(oldCache, cache)
    ensures PointsLast(before, oldCache, after, cache, limit)
  {
    forall t | t in before && Usable(before[t], oldCache) ensures Usable(before[t], cache) {
      PointStaysUsable(before[t], oldCache, cache);
    }
  }

  /** A point stays as usable as it was: the cache entries behind it never change. */
  lemma PointStaysUsable(point: Point, before: Cache, after: Cache)
    requires Usable(point, before) && CacheGrows(before, after)
    ensures Usable(point, after)
  {
  }
}
