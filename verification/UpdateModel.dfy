/** The values the transactional updater reads and writes, and what they mean. */
module UpdateModel {
  import opened Common

  type Package = string
  type Version = string
  type TxId = string

  /** A file's bytes.  A package file carries the control fields dpkg will act on. */
  datatype File =
    | Deb(package: Package, version: Version, payload: string)
    | Json(manifest: Manifest)
    | Raw(text: string)

  /** SHA-256, idealised as an injective function. */
  datatype Digest = Digest(of: File)

  function Sha256(file: File): Digest {
    Digest(file)
  }

  function Size(file: File): nat {
    match file
    case Deb(_, _, payload) => |payload|
    case Json(_) => 0
    case Raw(text) => |text|
  }

  datatype Component = Component(package: Package, version: Version, filename: string, sha256: Digest)

  datatype Manifest = Manifest(target: Option<string>, components: seq<Component>)

  /** The key/value pair a component contributes to `expected`. */
  datatype Pin = Pin(package: Package, version: Version)

  datatype Policy = Policy(
    maximumBundleBytes: nat, maxPoints: int, preserveOnSuccess: bool, configurationPaths: set<string>)

  const STAGED_MANIFEST := "update-manifest.json"

  predicate WellFormed(m: Manifest) {
    && m.components != []
    && forall c <- m.components :: c.package != "" && c.version != "" && c.filename != ""
  }

  // ---------------------------------------------------------------- dpkg

  datatype DpkgStatus = Installed(version: Version) | Unpacked(version: Version)

  type Database = map<Package, DpkgStatus>

  /** What dpkg-query reports: a version only when the package is fully installed. */
  function InstalledVersion(db: Database, package: Package): Option<Version> {
    if package in db && db[package].Installed? then Some(db[package].version) else None
  }

  function UnpackAll(db: Database, debs: seq<File>): Database
    requires forall f <- debs :: f.Deb?
  {
    if debs == [] then db
    else
      var last := debs[|debs| - 1];
      UnpackAll(db, debs[..|debs| - 1])[last.package := Unpacked(last.version)]
  }

  function ConfigureAll(db: Database, names: set<Package>): Database {
    map p | p in db :: if p in names && db[p].Unpacked? then Installed(db[p].version) else db[p]
  }

  function DebNames(debs: seq<File>): set<Package> {
    set f | f in debs && f.Deb? :: f.package
  }

  ghost predicate SameOutside(a: Database, b: Database, names: set<Package>) {
    forall p :: p !in names ==> (p in a <==> p in b) && (p in a ==> a[p] == b[p])
  }

  ghost predicate AllAt(db: Database, pins: map<Package, Version>) {
    forall p <- pins :: InstalledVersion(db, p) == Some(pins[p])
  }

  /** The `expected` dictionary: a later pin for the same package overwrites an earlier one. */
  function Expected(pins: seq<Pin>): (r: map<Package, Version>)
    ensures forall p :: p in r <==> exists i :: 0 <= i < |pins| && pins[i].package == p
  {
    if pins == [] then map[]
    else
      var last := pins[|pins| - 1];
      Expected(pins[..|pins| - 1])[last.package := last.version]
  }

  function Pins(cs: seq<Component>): (r: seq<Pin>)
    ensures |r| == |cs| && forall i :: 0 <= i < |cs| ==> r[i] == Pin(cs[i].package, cs[i].version)
  {
    seq(|cs|, i requires 0 <= i < |cs| => Pin(cs[i].package, cs[i].version))
  }

  function Names(m: Manifest): set<Package> {
    set c | c in m.components :: c.package
  }

  /** If every pin agrees with a database, so does the whole `expected` dictionary. */
  lemma {:induction false} ExpectedAgrees(pins: seq<Pin>, db: Database)
    requires forall pin <- pins :: InstalledVersion(db, pin.package) == Some(pin.version)
    ensures AllAt(db, Expected(pins))
  {
    if pins != [] {
      ExpectedAgrees(pins[..|pins| - 1], db);
    }
  }

  /** A package's last pin is the one that counts. */
  lemma {:induction false} LastPinCounts(pins: seq<Pin>, i: nat)
    requires i < |pins| && forall j :: i < j < |pins| ==> pins[j].package != pins[i].package
    ensures pins[i].package in Expected(pins) && Expected(pins)[pins[i].package] == pins[i].version
  {
    if i < |pins| - 1 {
      LastPinCounts(pins[..|pins| - 1], i);
    }
  }

  /** Unpacking and then configuring honest package files leaves exactly the expected versions,
      whatever the database held before. */
  lemma {:induction false} InstallReachesExpected(db: Database, debs: seq<File>, pins: seq<Pin>)
    requires |debs| == |pins|
    requires forall i :: 0 <= i < |debs| ==>
      debs[i].Deb? && debs[i].package == pins[i].package && debs[i].version == pins[i].version
    ensures var db' := UnpackAll(db, debs);
            forall p <- Expected(pins) :: p in db' && db'[p] == Unpacked(Expected(pins)[p])
    ensures AllAt(ConfigureAll(UnpackAll(db, debs), Expected(pins).Keys), Expected(pins))
  {
    if pins != [] {
      var n := |pins| - 1;
      InstallReachesExpected(db, debs[..n], pins[..n]);
    }
  }

  // ---------------------------------------------------------------- package cache

  type CacheKey = (Package, string)
  type Cache = map<CacheKey, File>

  function ReplaceColons(v: string): string {
    if v == "" then "" else [if v[0] == ':' then '_' else v[0]] + ReplaceColons(v[1..])
  }

  /** `safe_version_path_component`: None is the error. */
  function PathComponent(v: Version): Option<string> {
    if v == "" || v == "." || v == ".." || '/' in v || '\0' in v then None else Some(ReplaceColons(v))
  }

  function CachePath(package: Package, version: Version): Option<CacheKey> {
    match PathComponent(version)
    case None => None
    case Some(part) => Some((package, part))
  }

  /** The version as a path component: refused if it could lead elsewhere, and otherwise itself with
      every colon replaced, character by character. */
  lemma CachePathIs(package: Package, version: Version)
    ensures CachePath(package, version) == None <==>
            version in {"", ".", ".."} || '/' in version || '\0' in version
    ensures CachePath(package, version).Some? ==>
              var (owner, part) := CachePath(package, version).value;
              && owner == package && |part| == |version|
              && forall i :: 0 <= i < |part| ==> part[i] == if version[i] == ':' then '_' else version[i]
  {
    ReplacedColons(version);
  }

  lemma {:induction false} ReplacedColons(v: string)
    ensures |ReplaceColons(v)| == |v|
    ensures forall i :: 0 <= i < |v| ==> ReplaceColons(v)[i] == if v[i] == ':' then '_' else v[i]
  {
    if v != "" {
      ReplacedColons(v[1..]);
      forall i | 0 <= i < |v|
        ensures ReplaceColons(v)[i] == if v[i] == ':' then '_' else v[i]
      {
        if i > 0 {
          assert ReplaceColons(v)[i] == ReplaceColons(v[1..])[i - 1];
        }
      }
    }
  }

  /** Two versions share a cache file only if one of them has an underscore, which no Debian
      version has. */
  lemma {:induction false} ReplaceColonsInjective(v: string, w: string)
    requires '_' !in v && '_' !in w
    requires ReplaceColons(v) == ReplaceColons(w)
    ensures v == w
  {
    if v != "" && w != "" {
      assert ReplaceColons(v)[0] == ReplaceColons(w)[0];
      assert ReplaceColons(v)[1..] == ReplaceColons(v[1..]) && ReplaceColons(w)[1..] == ReplaceColons(w[1..]);
      assert v[0] in v && w[0] in w;
      assert forall c <- v[1..] :: c in v;
      assert forall c <- w[1..] :: c in w;
      ReplaceColonsInjective(v[1..], w[1..]);
      assert v == [v[0]] + v[1..] && w == [w[0]] + w[1..];
    }
  }

  /** Without that assumption the cache path of two different versions can be the same file. */
  lemma CachePathCollision()
    ensures CachePath("xaac-agent", "1:2") == CachePath("xaac-agent", "1_2")
  {
    assert ReplaceColons("1:2") == "1_2" by {
      assert "1:2"[1..] == ":2" && ":2"[1..] == "2" && "2"[1..] == "";
      assert ReplaceColons("2") == "2";
      assert ReplaceColons(":2") == "_2";
    }
    assert ReplaceColons("1_2") == "1_2" by {
      assert "1_2"[1..] == "_2" && "_2"[1..] == "2" && "2"[1..] == "";
      assert ReplaceColons("2") == "2";
      assert ReplaceColons("_2") == "_2";
    }
  }

  /** Nothing that was cached is lost or altered. */
  ghost predicate CacheGrows(a: Cache, b: Cache) {
    forall k <- a :: k in b && b[k] == a[k]
  }

  /** Every cached file is the package its path says it is. */
  ghost predicate HonestCache(c: Cache) {
    forall k <- c ::
      && c[k].Deb?
      && c[k].package == k.0
      && '_' !in c[k].version
      && CachePath(k.0, c[k].version) == Some(k)
  }

  // ---------------------------------------------------------------- recovery points

  type Configuration = map<string, string>

  datatype PackageRecord = PackageRecord(package: Package, version: Version, deb: CacheKey, sha256: Digest)

  datatype ArchiveDigest = ArchiveDigest(of: Configuration)

  datatype Metadata = Metadata(
    txid: TxId,
    packages: seq<PackageRecord>,
    archiveSha256: ArchiveDigest,
    releaseSha256: Option<Digest>)

  /** A directory under the recovery root; a power cut can leave any of its files missing. */
  datatype Point = Point(
    mtime: nat,
    archive: Option<Configuration>,
    releaseCopy: Option<File>,
    metadata: Option<Metadata>)

  type Points = map<TxId, Point>

  function RecordPins(records: seq<PackageRecord>): (r: seq<Pin>)
    ensures |r| == |records|
    ensures forall i :: 0 <= i < |r| ==> r[i] == Pin(records[i].package, records[i].version)
  {
    seq(|records|, i requires 0 <= i < |records| => Pin(records[i].package, records[i].version))
  }

  ghost predicate RecordUsable(r: PackageRecord, cache: Cache) {
    r.deb in cache && Sha256(cache[r.deb]) == r.sha256
  }

  /** A rollback from this point can read everything it needs. */
  ghost predicate Usable(point: Point, cache: Cache) {
    && point.metadata.Some?
    && point.metadata.value.packages != []
    && (forall r <- point.metadata.value.packages :: RecordUsable(r, cache))
    && point.archive.Some?
    && ArchiveDigest(point.archive.value) == point.metadata.value.archiveSha256
  }

  /** The files part of what a rollback restores. */
  ghost predicate Contains(config: Configuration, archive: Configuration) {
    forall path <- archive :: path in config && config[path] == archive[path]
  }

  /** The machine is as the point recorded it. */
  ghost predicate RestoredTo(db: Database, config: Configuration, point: Point) {
    && point.metadata.Some? && point.archive.Some?
    && AllAt(db, Expected(RecordPins(point.metadata.value.packages)))
    && Contains(config, point.archive.value)
  }

  /** The cached files behind a point really hold the recorded versions. */
  ghost predicate HonestPoint(point: Point, cache: Cache) {
    point.metadata.Some? ==>
      forall r <- point.metadata.value.packages ::
        r.deb in cache ==> cache[r.deb].Deb? && cache[r.deb].package == r.package && cache[r.deb].version == r.version
  }

  /** The configuration files below the policy's configuration paths. */
  function Covered(policy: Policy, config: Configuration): Configuration {
    map path | path in config && IsCovered(policy, path) :: config[path]
  }

  predicate IsCovered(policy: Policy, path: string) {
    exists root <- policy.configurationPaths :: root == path || (root + "/") <= path
  }

  // ---------------------------------------------------------------- persisted transaction state

  datatype Status =
    | Preparing | Installing | Validating | RollingBack
    | Confirmed | RolledBack | RollbackFailed
    | RolledBackAfterInterruption | RolledBackManual | ConfigurationRestoredManual

  /** The fields of the state file that are read back. */
  datatype TxState = TxState(status: Status, txid: TxId, point: Option<TxId>)

  predicate InFlightStatus(s: Status) {
    s.Installing? || s.Validating? || s.RollingBack?
  }

  predicate InFlight(state: Option<TxState>) {
    state.Some? && InFlightStatus(state.value.status)
  }

  // ---------------------------------------------------------------- blocked versions

  datatype BlockedEntry = BlockedEntry(txid: TxId, target: Option<string>, packages: seq<Pin>)

  /** What identifies a bundle to the gate: its target version and its set of pins. */
  datatype Bundle = Bundle(target: Option<string>, pins: set<Pin>)

  function BundleOf(m: Manifest): Bundle {
    Bundle(m.target, set pin | pin in Pins(m.components))
  }

  ghost predicate Blocked(registry: seq<BlockedEntry>, bundle: Bundle) {
    exists e <- registry :: e.target == bundle.target && (set pin | pin in e.packages) == bundle.pins
  }

  /** One more or one fewer pin, or another target, is another bundle: an entry recorded for `m`
      stops `n` exactly when target and pin set coincide. */
  lemma GateIsExact(m: Manifest, n: Manifest, txid: TxId)
    ensures Blocked([BlockedEntry(txid, m.target, Pins(m.components))], BundleOf(n)) <==>
            m.target == n.target && forall pin :: pin in Pins(m.components) <==> pin in Pins(n.components)
  {
    var e := BlockedEntry(txid, m.target, Pins(m.components));
    var a := set pin | pin in Pins(m.components);
    var b := set pin | pin in Pins(n.components);
    assert Blocked([e], BundleOf(n)) <==> m.target == n.target && a == b by {
      assert e in [e];
    }
    if forall pin :: pin in Pins(m.components) <==> pin in Pins(n.components) {
      assert a == b;
    }
    if a == b {
      forall pin ensures pin in Pins(m.components) <==> pin in Pins(n.components) {
        assert pin in a <==> pin in b;
      }
    }
  }

  // ---------------------------------------------------------------- history of persisted states

  /** One state file written, and the bundle it was written about (none at boot or by hand). */
  datatype Entry = Entry(status: Status, about: Option<Bundle>)

  /** No bundle is installed after it was automatically rolled back. */
  ghost predicate NoReinstall(journal: seq<Entry>) {
    forall i, j :: 0 <= i < j < |journal| && journal[i].status.RolledBack? && journal[j].status.Installing?
      ==> journal[i].about != journal[j].about
  }

  ghost predicate JournalBlocked(journal: seq<Entry>, registry: seq<BlockedEntry>) {
    forall e <- journal | e.status.RolledBack? :: e.about.Some? && Blocked(registry, e.about.value)
  }

  /** The registry only ever grows, so what it stops it stops for good. */
  lemma BlockedForGood(a: seq<BlockedEntry>, b: seq<BlockedEntry>, bundle: Bundle)
    requires a <= b && Blocked(a, bundle)
    ensures Blocked(b, bundle)
  {
    var e :| e in a && e.target == bundle.target && (set pin | pin in e.packages) == bundle.pins;
    assert e in b;
  }

  lemma JournalStep(journal: seq<Entry>, registry: seq<BlockedEntry>, e: Entry)
    requires NoReinstall(journal) && JournalBlocked(journal, registry)
    requires e.status.RolledBack? ==> e.about.Some? && Blocked(registry, e.about.value)
    requires e.status.Installing? ==> e.about.Some? && !Blocked(registry, e.about.value)
    ensures NoReinstall(journal + [e]) && JournalBlocked(journal + [e], registry)
  {
    forall i, j | 0 <= i < j < |journal + [e]|
                  && (journal + [e])[i].status.RolledBack? && (journal + [e])[j].status.Installing?
      ensures (journal + [e])[i].about != (journal + [e])[j].about
    {
      assert journal[i] in journal;
    }
  }
}
