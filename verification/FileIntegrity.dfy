/** Recording a baseline of monitored files, verifying against it, and repairing from it. */
module FileIntegrity {
  import opened Common

  type Path = seq<string>

  /** A manifest, another JSON object, which has no list of files, or anything else. */
  datatype Content = Manifest(entries: seq<Entry>) | Object(text: string) | Bytes(text: string)

  /** The entries a verification finds in a file: a JSON object without a list counts as an empty one. */
  function ReadEntries(c: Content): Option<seq<Entry>> {
    match c
    case Manifest(entries) => Some(entries)
    case Object(_) => Some([])
    case Bytes(_) => None
  }

  /** SHA-256, idealised as injective. */
  datatype Digest = Digest(of: Content)

  datatype Entry = Entry(path: Path, sha256: Digest)

  /** What a path names; links and special files are not among it. */
  datatype Node = File(content: Content) | Dir

  type Tree = map<Path, Node>

  /** An output besides the manifest, and whether it is JSON. */
  datatype Output = Output(path: Path, json: bool)

  /** `generated` are the five outputs and the alert state; `manifest` is one of them. */
  datatype Policy = Policy(
    monitored: seq<Path>, excluded: string -> bool, baseline: Path, manifest: Path, others: seq<Output>)

  predicate IsFile(tree: Tree, p: Path) {
    p in tree && tree[p].File?
  }

  predicate IsDir(tree: Tree, p: Path) {
    p in tree && tree[p].Dir?
  }

  predicate Rooted(tree: Tree) {
    IsDir(tree, [])
  }

  predicate Generated(policy: Policy, p: Path) {
    p == policy.manifest || exists o <- policy.others :: o.path == p
  }

  predicate Below(bases: seq<Path>, p: Path) {
    exists base <- bases :: base <= p
  }

  /** The files `_files` yields: below a monitored path or one itself, not generated, not in the
      baseline, and not excluded by name. */
  predicate Monitored(tree: Tree, policy: Policy, p: Path) {
    && IsFile(tree, p) && p != []
    && Below(policy.monitored, p)
    && !Generated(policy, p) && !(policy.baseline <= p) && !policy.excluded(p[|p| - 1])
  }

  // ---------------------------------------------------------------- single file operations

  /** The directories above a path. */
  function Above(p: Path): (r: set<Path>)
    ensures forall q :: q in r <==> q <= p && q != p
  {
    var r := set n: nat | n < |p| :: p[..n];
    assert forall q :: q <= p && q != p ==> q == p[..|q|] && p[..|q|] in r;
    r
  }

  /** Some directory above the path is a file, so the path cannot be created. */
  predicate Blocked(tree: Tree, p: Path) {
    exists q <- Above(p) :: IsFile(tree, q)
  }

  /** `mkdir(parents=True, exist_ok=True)` on the parent. */
  function WithParents(tree: Tree, p: Path): Tree {
    tree + map q | q in Above(p) && q !in tree :: Dir
  }

  /** `copy2` after creating the parent: into the destination when that is a directory.  None is an
      error of the operating system. */
  function Copy(tree: Tree, content: Content, name: string, to: Path): Option<Tree> {
    if Blocked(tree, to) then None
    else
      var t := WithParents(tree, to);
      var target := if IsDir(t, to) then to + [name] else to;
      if IsDir(t, target) then None else Some(t[target := File(content)])
  }

  /** `_write`: an atomic replacement, refused by a directory. */
  function Write(tree: Tree, p: Path, content: Content): Option<Tree> {
    if Blocked(tree, p) || IsDir(WithParents(tree, p), p) then None
    else Some(WithParents(tree, p)[p := File(content)])
  }

  // ---------------------------------------------------------------- verifying and repairing

  predicate Intact(tree: Tree, e: Entry) {
    IsFile(tree, e.path) && Digest(tree[e.path].content) == e.sha256
  }

  predicate Clean(tree: Tree, entries: seq<Entry>) {
    forall e <- entries :: Intact(tree, e)
  }

  function RepairOne(tree: Tree, e: Entry, baseline: Path): Option<Tree>
    requires e.path != []
  {
    if Intact(tree, e) then Some(tree)
    else if !IsFile(tree, baseline + e.path) then None
    else Copy(tree, tree[baseline + e.path].content, e.path[|e.path| - 1], e.path)
  }

  function RepairAll(tree: Tree, entries: seq<Entry>, baseline: Path): Option<Tree>
    requires forall e <- entries :: e.path != []
  {
    if entries == [] then Some(tree)
    else
      var n := |entries| - 1;
      var before := RepairAll(tree, entries[..n], baseline);
      if before.None? then None else RepairOne(before.value, entries[n], baseline)
  }

  /** What installation guarantees of the manifest's entries. */
  ghost predicate Sound(entries: seq<Entry>, baseline: Path) {
    && (forall e <- entries :: e.path != [] && !(e.path <= baseline) && !(baseline <= e.path))
    && (forall a, b :: a in entries && b in entries && a.path <= b.path ==> a == b)
  }

  ghost predicate BaselineIntact(tree: Tree, entries: seq<Entry>, baseline: Path) {
    forall e <- entries ::
      IsFile(tree, baseline + e.path) && Digest(tree[baseline + e.path].content) == e.sha256
  }

  /** Repair can put the file back: no directory stands in its place and no file above it. */
  predicate Repairable(tree: Tree, e: Entry) {
    !IsDir(tree, e.path) && !Blocked(tree, e.path)
  }

  /** Everything repair may do to the rest of the tree. */
  ghost predicate OnlyTouches(before: Tree, after: Tree, p: Path) {
    && (forall q <- before :: !(p <= q) ==> q in after && after[q] == before[q])
    && (forall q <- after :: q !in before && !(p <= q) ==> after[q].Dir? && q <= p)
  }

  lemma CopyTouches(tree: Tree, content: Content, name: string, to: Path)
    requires Copy(tree, content, name, to).Some?
    ensures OnlyTouches(tree, Copy(tree, content, name, to).value, to)
    ensures var after := Copy(tree, content, name, to).value;
            if IsDir(tree, to) then IsDir(after, to) else IsFile(after, to) && after[to].content == content
  {
    var t := WithParents(tree, to);
    assert to in t <==> to in tree;
    assert IsDir(tree, to) ==> to + [name] != to;
  }

  /** An operation at one path changes nothing about an entry elsewhere. */
  lemma ElsewhereUnchanged(before: Tree, after: Tree, p: Path, e: Entry, baseline: Path)
    requires OnlyTouches(before, after, p)
    requires !(p <= e.path) && !(e.path <= p) && !(p <= baseline) && !(baseline <= p)
    ensures Intact(before, e) <==> Intact(after, e)
    ensures Repairable(before, e) <==> Repairable(after, e)
    ensures IsFile(before, baseline + e.path) ==>
              IsFile(after, baseline + e.path) && after[baseline + e.path] == before[baseline + e.path]
  {
    if p <= baseline + e.path {
      PrefixOfJoin(p, baseline, e.path);
    }
    forall q <- Above(e.path)
      ensures IsFile(before, q) <==> IsFile(after, q)
    {
      assert p <= q ==> p <= e.path;
    }
  }

  lemma PrefixOfJoin(p: Path, a: Path, b: Path)
    requires p <= a + b
    ensures p <= a || a <= p
  {
    if |p| <= |a| {
      assert p == (a + b)[..|p|] == a[..|p|];
    } else {
      assert a == (a + b)[..|a|] == p[..|a|];
    }
  }

  /** A sound entry that is repaired where it can be is intact afterwards; one whose place a
      directory has taken stays broken, though no error is reported. */
  lemma RepairOneExact(tree: Tree, e: Entry, baseline: Path)
    requires e.path != [] && BaselineIntact(tree, [e], baseline)
    ensures var r := RepairOne(tree, e, baseline);
            && (r.Some? && Intact(r.value, e) <==> Intact(tree, e) || Repairable(tree, e))
            && (r.Some? && !Intact(tree, e) ==> OnlyTouches(tree, r.value, e.path))
            && (IsDir(tree, e.path) && r.Some? ==> IsDir(r.value, e.path))
  {
    assert e in [e];
    var content := tree[baseline + e.path].content;
    var name := e.path[|e.path| - 1];
    if Copy(tree, content, name, e.path).Some? {
      CopyTouches(tree, content, name, e.path);
    }
    assert IsFile(WithParents(tree, e.path), e.path) <==> IsFile(tree, e.path);
  }

  /** A repair step leaves every other entry as it was, and its baseline copy too. */
  lemma RepairOneElsewhere(tree: Tree, e: Entry, other: Entry, entries: seq<Entry>, baseline: Path)
    requires Sound(entries, baseline) && BaselineIntact(tree, entries, baseline)
    requires e in entries && other in entries && e != other && RepairOne(tree, e, baseline).Some?
    ensures var after := RepairOne(tree, e, baseline).value;
            && (Intact(tree, other) <==> Intact(after, other))
            && (Repairable(tree, other) <==> Repairable(after, other))
  {
    RepairOneExact(tree, e, baseline);
    if !Intact(tree, e) {
      ElsewhereUnchanged(tree, RepairOne(tree, e, baseline).value, e.path, other, baseline);
    }
  }

  lemma RepairOneKeepsBaseline(tree: Tree, e: Entry, entries: seq<Entry>, baseline: Path)
    requires Sound(entries, baseline) && BaselineIntact(tree, entries, baseline)
    requires e in entries && RepairOne(tree, e, baseline).Some?
    ensures BaselineIntact(RepairOne(tree, e, baseline).value, entries, baseline)
  {
    RepairOneExact(tree, e, baseline);
    var after := RepairOne(tree, e, baseline).value;
    forall other <- entries
      ensures IsFile(after, baseline + other.path)
      ensures Digest(after[baseline + other.path].content) == other.sha256
    {
      if !Intact(tree, e) {
        assert e.path <= baseline + other.path ==> e.path <= baseline || baseline <= e.path by {
          if e.path <= baseline + other.path {
            PrefixOfJoin(e.path, baseline, other.path);
          }
        }
      }
    }
  }

  /** The state of the entries after the first n have been looked at. */
  ghost predicate Progress(tree: Tree, after: Tree, entries: seq<Entry>, baseline: Path, n: nat)
    requires n <= |entries|
  {
    && BaselineIntact(after, entries, baseline)
    && forall e <- entries ::
         if e in entries[..n] then
           && (Intact(after, e) <==> Intact(tree, e) || Repairable(tree, e))
           && (Repairable(after, e) ==> Intact(tree, e) || Repairable(tree, e))
         else (Intact(after, e) <==> Intact(tree, e)) && (Repairable(after, e) <==> Repairable(tree, e))
  }

  lemma {:induction false} RepairProgress(tree: Tree, entries: seq<Entry>, baseline: Path, n: nat)
    requires n <= |entries| && Sound(entries, baseline) && BaselineIntact(tree, entries, baseline)
    ensures RepairAll(tree, entries[..n], baseline).Some? ==>
              Progress(tree, RepairAll(tree, entries[..n], baseline).value, entries, baseline, n)
    ensures (forall e <- entries[..n] :: Intact(tree, e) || Repairable(tree, e)) ==>
              RepairAll(tree, entries[..n], baseline).Some?
  {
    if n > 0 {
      var m := n - 1;
      RepairProgress(tree, entries, baseline, m);
      assert entries[..n][..m] == entries[..m] && entries[..n] == entries[..m] + [entries[m]];
      if RepairAll(tree, entries[..m], baseline).Some? {
        RepairStep(tree, RepairAll(tree, entries[..m], baseline).value, entries, baseline, m);
      }
    }
  }

  lemma RepairStep(tree: Tree, before: Tree, entries: seq<Entry>, baseline: Path, m: nat)
    requires m < |entries| && Sound(entries, baseline) && Progress(tree, before, entries, baseline, m)
    ensures var r := RepairOne(before, entries[m], baseline);
            && (r.Some? ==> Progress(tree, r.value, entries, baseline, m + 1))
            && ((forall e <- entries[..m + 1] :: Intact(tree, e) || Repairable(tree, e)) ==> r.Some?)
  {
    var e := entries[m];
    var r := RepairOne(before, e, baseline);
    assert entries[..m + 1] == entries[..m] + [e];
    assert e in entries[..m + 1];
    RepairOneExact(before, e, baseline);
    if r.Some? {
      RepairOneKeepsBaseline(before, e, entries, baseline);
      forall other <- entries | other != e
        ensures Intact(before, other) <==> Intact(r.value, other)
        ensures Repairable(before, other) <==> Repairable(r.value, other)
      {
        RepairOneElsewhere(before, e, other, entries, baseline);
      }
    }
  }

  /** When repair works: it completes and verifies clean exactly when no file that differs has been
      replaced by a directory or lost a directory above it to a file.  (A tree holds no links and no
      special files.) */
  lemma RepairExact(tree: Tree, entries: seq<Entry>, baseline: Path)
    requires Sound(entries, baseline) && BaselineIntact(tree, entries, baseline)
    ensures var r := RepairAll(tree, entries, baseline);
            r.Some? && Clean(r.value, entries) <==> forall e <- entries :: Intact(tree, e) || Repairable(tree, e)
  {
    RepairProgress(tree, entries, baseline, |entries|);
    assert entries[..|entries|] == entries;
  }

  /** The exception in use: a monitored file replaced by an empty directory.  Repair reports success,
      having copied the file into the directory, and the next verification still reports it. */
  lemma RepairMissesDirectory()
    ensures var e := Entry(["etc", "x"], Digest(Bytes("good")));
            var baseline := ["base"];
            var tree := map[
              [] := Dir, ["etc"] := Dir, ["etc", "x"] := Dir,
              ["base"] := Dir, ["base", "etc"] := Dir, ["base", "etc", "x"] := File(Bytes("good"))];
            && Sound([e], baseline) && BaselineIntact(tree, [e], baseline)
            && RepairAll(tree, [e], baseline).Some?
            && !Clean(RepairAll(tree, [e], baseline).value, [e])
  {
    var e := Entry(["etc", "x"], Digest(Bytes("good")));
    var baseline := ["base"];
    var tree := map[
      [] := Dir, ["etc"] := Dir, ["etc", "x"] := Dir,
      ["base"] := Dir, ["base", "etc"] := Dir, ["base", "etc", "x"] := File(Bytes("good"))];
    assert baseline + e.path == ["base", "etc", "x"];
    assert [e][..0] == [];
    assert |"etc"| == 3 && |"base"| == 4;
    assert e.path[0] == "etc" && baseline[0] == "base";
    forall q <- Above(e.path)
      ensures IsDir(tree, q)
    {
      assert |q| == 0 || |q| == 1;
      assert q == [] || q == ["etc"];
    }
    assert ["etc", "x"] + ["x"] == ["etc", "x", "x"];
    RepairOneExact(tree, e, baseline);
    assert RepairAll(tree, [e], baseline) == RepairOne(tree, e, baseline);
  }

  /** The file is there with the recorded contents. */
  ghost predicate Holds(tree: Tree, e: Entry) {
    e.path in tree && tree[e.path].File? && e.sha256 == Digest(tree[e.path].content)
  }

  /** Nothing stands in the file's place but a file, and only directories stand above it. */
  ghost predicate Free(tree: Tree, p: Path) {
    && (p in tree ==> tree[p].File?)
    && forall q: Path :: q in tree && q <= p && q != p ==> tree[q].Dir?
  }

  /** A repair changes nothing but at and below the entries' own paths, and creates only directories
      elsewhere. */
  ghost predicate Confined(before: Tree, after: Tree, entries: seq<Entry>) {
    && (forall q <- before :: (forall e <- entries :: !(e.path <= q)) ==> q in after && after[q] == before[q])
    && (forall q <- after :: q !in before && (forall e <- entries :: !(e.path <= q)) ==> after[q].Dir?)
  }

  lemma {:induction false} RepairIsConfined(tree: Tree, entries: seq<Entry>, baseline: Path)
    requires forall e <- entries :: e.path != []
    ensures var r := RepairAll(tree, entries, baseline); r.Some? ==> Confined(tree, r.value, entries)
  {
    if entries != [] {
      var n := |entries| - 1;
      var e := entries[n];
      RepairIsConfined(tree, entries[..n], baseline);
      assert entries == entries[..n] + [e];
      var before := RepairAll(tree, entries[..n], baseline);
      if before.Some? && RepairOne(before.value, e, baseline).Some? && !Intact(before.value, e) {
        CopyTouches(before.value, before.value[baseline + e.path].content, e.path[|e.path| - 1], e.path);
      }
    }
  }

  lemma RepairMeans(tree: Tree, e: Entry)
    ensures Holds(tree, e) <==> Intact(tree, e)
    ensures Free(tree, e.path) <==> Repairable(tree, e)
  {
    assert forall q: Path :: q in tree && q <= e.path && q != e.path ==> q in Above(e.path);
  }

  datatype Report = Report(changed: seq<Path>, repaired: seq<Path>)

  function Differing(tree: Tree, entries: seq<Entry>): (r: seq<Path>)
    ensures forall p :: p in r <==> exists e <- entries :: e.path == p && !Intact(tree, e)
  {
    if entries == [] then []
    else
      var last := entries[|entries| - 1];
      assert forall e :: e in entries <==> e in entries[..|entries| - 1] || e == last;
      Differing(tree, entries[..|entries| - 1]) + if Intact(tree, last) then [] else [last.path]
  }

  lemma {:induction false} CleanDiffersNowhere(tree: Tree, entries: seq<Entry>)
    requires Clean(tree, entries)
    ensures Differing(tree, entries) == []
  {
    if entries != [] {
      CleanDiffersNowhere(tree, entries[..|entries| - 1]);
    }
  }

  /** No file of the manifest lies above the manifest itself. */
  ghost predicate Clear(entries: seq<Entry>, manifest: Path) {
    forall e <- entries :: !(e.path <= manifest)
  }

  function EntriesIn(tree: Tree, policy: Policy): Option<seq<Entry>> {
    if IsFile(tree, policy.manifest) then ReadEntries(tree[policy.manifest].content) else None
  }

  /** What a verification finds at the manifest's path when the first n other outputs have been
      written after it. */
  function Left(policy: Policy, entries: seq<Entry>, n: nat): Option<seq<Entry>>
    requires n <= |policy.others|
  {
    if n == 0 then Some(entries)
    else if policy.others[n - 1].path != policy.manifest then Left(policy, entries, n - 1)
    else if policy.others[n - 1].json then Some([])
    else None
  }

  /** The manifest survives exactly if no other output has its path. */
  lemma {:induction false} ManifestSurvives(policy: Policy, entries: seq<Entry>, n: nat)
    requires n <= |policy.others|
    ensures (forall i :: 0 <= i < n ==> policy.others[i].path != policy.manifest) ==>
              Left(policy, entries, n) == Some(entries)
    ensures !(forall i :: 0 <= i < n ==> policy.others[i].path != policy.manifest) ==>
              Left(policy, entries, n) in {None, Some([])}
  {
    if n > 0 {
      ManifestSurvives(policy, entries, n - 1);
    }
  }

  lemma LeftIsSound(tree: Tree, policy: Policy, entries: seq<Entry>, n: nat)
    requires n <= |policy.others| && Sound(entries, policy.baseline) && Clean(tree, entries)
    ensures var left := Left(policy, entries, n);
            left.Some? ==> Sound(left.value, policy.baseline) && Clean(tree, left.value)
  {
    ManifestSurvives(policy, entries, n);
  }

  lemma {:induction false} RepairKeepsManifest(tree: Tree, entries: seq<Entry>, baseline: Path, manifest: Path)
    requires forall e <- entries :: e.path != []
    requires Clear(entries, manifest) && manifest in tree && RepairAll(tree, entries, baseline).Some?
    ensures var r := RepairAll(tree, entries, baseline).value; manifest in r && r[manifest] == tree[manifest]
  {
    if entries != [] {
      var n := |entries| - 1;
      RepairKeepsManifest(tree, entries[..n], baseline, manifest);
      var before := RepairAll(tree, entries[..n], baseline).value;
      var e := entries[n];
      if !Intact(before, e) {
        CopyTouches(before, before[baseline + e.path].content, e.path[|e.path| - 1], e.path);
      }
    }
  }

  lemma {:induction false} RepairAllStops(tree: Tree, entries: seq<Entry>, baseline: Path, n: nat)
    requires n <= |entries| && forall e <- entries :: e.path != []
    ensures RepairAll(tree, entries[..n], baseline).None? ==> RepairAll(tree, entries, baseline).None?
    decreases |entries| - n
  {
    if n < |entries| {
      assert entries[..n + 1][..n] == entries[..n];
      RepairAllStops(tree, entries, baseline, n + 1);
    } else {
      assert entries[..n] == entries;
    }
  }

  /** The entries reported so far are those of the first i that differed to begin with. */
  ghost predicate ChangedSoFar(tree: Tree, entries: seq<Entry>, baseline: Path, changed: seq<Path>, i: nat)
    requires i <= |entries|
  {
    BaselineIntact(tree, entries, baseline) ==> forall p :: p in changed <==> p in Differing(tree, entries[..i])
  }

  lemma ChangedInAll(tree: Tree, entries: seq<Entry>, baseline: Path, changed: seq<Path>)
    requires ChangedSoFar(tree, entries, baseline, changed, |entries|)
    ensures BaselineIntact(tree, entries, baseline) ==>
              forall p :: p in changed <==> p in Differing(tree, entries)
  {
    assert entries[..|entries|] == entries;
  }

  lemma NothingChanged(tree: Tree, entries: seq<Entry>, baseline: Path)
    requires Sound(entries, baseline)
    ensures RepairAll(tree, entries[..0], baseline) == Some(tree)
    ensures ChangedSoFar(tree, entries, baseline, [], 0)
    ensures forall e <- entries :: e.path != []
  {
  }

  /** One round of the loop, seen from the whole repair. */
  lemma ChangedStep(tree: Tree, before: Tree, entries: seq<Entry>, baseline: Path, changed: seq<Path>, i: nat)
    requires i < |entries| && Sound(entries, baseline) && forall e <- entries :: e.path != []
    requires RepairAll(tree, entries[..i], baseline) == Some(before)
    requires ChangedSoFar(tree, entries, baseline, changed, i)
    ensures RepairAll(tree, entries[..i + 1], baseline) == RepairOne(before, entries[i], baseline)
    ensures RepairOne(before, entries[i], baseline).None? ==> RepairAll(tree, entries, baseline).None?
    ensures var more := if Intact(before, entries[i]) then [] else [entries[i].path];
            ChangedSoFar(tree, entries, baseline, changed + more, i + 1)
  {
    assert entries[..i + 1][..i] == entries[..i];
    RepairAllStops(tree, entries, baseline, i + 1);
    if BaselineIntact(tree, entries, baseline) {
      RepairProgress(tree, entries, baseline, i);
      RepeatedEntry(tree, before, entries, baseline, i);
    }
  }

  lemma RepairOneCases(tree: Tree, e: Entry, baseline: Path)
    requires e.path != []
    ensures Intact(tree, e) ==> RepairOne(tree, e, baseline) == Some(tree)
    ensures !Intact(tree, e) && !IsFile(tree, baseline + e.path) ==> RepairOne(tree, e, baseline).None?
    ensures !Intact(tree, e) && IsFile(tree, baseline + e.path) ==>
              RepairOne(tree, e, baseline) ==
              Copy(tree, tree[baseline + e.path].content, e.path[|e.path| - 1], e.path)
  {
  }

  /** An entry met again has either been put back already or was never reported as differing less. */
  lemma RepeatedEntry(tree: Tree, before: Tree, entries: seq<Entry>, baseline: Path, i: nat)
    requires i < |entries| && Progress(tree, before, entries, baseline, i)
    ensures Intact(before, entries[i]) ==>
              Intact(tree, entries[i]) || entries[i].path in Differing(tree, entries[..i])
    ensures !Intact(before, entries[i]) ==> !Intact(tree, entries[i])
  {
  }

  // ---------------------------------------------------------------- installation

  /** A real file system: only directories have anything below them. */
  ghost predicate WellFormed(tree: Tree) {
    Rooted(tree) && forall p <- tree :: forall q <- Above(p) :: IsDir(tree, q)
  }

  /** Copies and writes create what is missing above them: a file system stays one. */
  lemma StaysWellFormed(tree: Tree, content: Content, name: string, to: Path)
    requires WellFormed(tree)
    ensures Copy(tree, content, name, to).Some? ==> WellFormed(Copy(tree, content, name, to).value)
    ensures Write(tree, to, content).Some? ==> WellFormed(Write(tree, to, content).value)
  {
    var t := WithParents(tree, to);
    if !Blocked(tree, to) {
      assert forall q <- Above(to) :: IsDir(t, q);
      forall p <- t, q <- Above(p)
        ensures IsDir(t, q)
      {
        assert p in Above(to) ==> q in Above(to);
      }
      PlacedWellFormed(t, to, content);
      if IsDir(t, to) {
        forall q <- Above(to + [name])
          ensures IsDir(t, q)
        {
          assert q == to || q in Above(to) by {
            assert q == (to + [name])[..|q|];
            if |q| < |to| {
              assert q == to[..|q|];
            }
          }
        }
        PlacedWellFormed(t, to + [name], content);
      }
    }
  }

  lemma PlacedWellFormed(t: Tree, p: Path, content: Content)
    requires WellFormed(t) && forall q <- Above(p) :: IsDir(t, q)
    ensures !IsDir(t, p) ==> WellFormed(t[p := File(content)])
  {
    if !IsDir(t, p) {
      var after := t[p := File(content)];
      forall r <- after, q <- Above(r)
        ensures IsDir(after, q)
      {
      }
    }
  }

  /** A directory in the file's place takes the copy in, under the file's name. */
  lemma CopiedInto(tree: Tree, content: Content, name: string, to: Path)
    requires WellFormed(tree) && IsDir(tree, to) && Copy(tree, content, name, to).Some?
    ensures Copy(tree, content, name, to).value == tree[to + [name] := File(content)]
  {
    assert forall q <- Above(to) :: q in tree;
    assert WithParents(tree, to) == tree;
  }

  /** What copying to the baseline leaves alone. */
  ghost predicate Framed(before: Tree, after: Tree, baseline: Path) {
    && (forall q <- before :: !(baseline <= q) ==> q in after && after[q] == before[q])
    && (forall q <- after :: q !in before && !(baseline <= q) ==> after[q].Dir?)
  }

  ghost predicate Lists(entries: seq<Entry>, p: Path) {
    exists e <- entries :: e.path == p
  }

  lemma ListsOneMore(entries: seq<Entry>, e: Entry)
    ensures forall p :: Lists(entries + [e], p) <==> Lists(entries, p) || p == e.path
  {
    assert e in entries + [e];
    assert forall x :: x in entries + [e] <==> x in entries || x == e;
  }

  lemma BelowOneMore(bases: seq<Path>, i: nat)
    requires i < |bases|
    ensures forall p :: Below(bases[..i + 1], p) <==> Below(bases[..i], p) || bases[i] <= p
  {
    assert bases[..i + 1] == bases[..i] + [bases[i]];
    forall p
      ensures Below(bases[..i + 1], p) <==> Below(bases[..i], p) || bases[i] <= p
    {
      if Below(bases[..i], p) {
        var base :| base in bases[..i] && base <= p;
        assert base in bases[..i + 1];
      }
      if bases[i] <= p {
        assert bases[i] in bases[..i + 1];
      }
    }
  }

  /** The entries record monitored files of the tree, with their contents, and have been copied. */
  ghost predicate Records(entries: seq<Entry>, before: Tree, policy: Policy) {
    forall e <- entries ::
      && Monitored(before, policy, e.path)
      && e.sha256 == Digest(before[e.path].content)
      && !(e.path <= policy.baseline)
  }

  /** The baseline offers a place for every monitored file, as a fresh one does. */
  ghost predicate Fresh(before: Tree, after: Tree, policy: Policy) {
    forall p :: Monitored(before, policy, p) ==> !IsDir(after, policy.baseline + p)
  }

  /** A file the policy watches: at or below a monitored path, no output, outside the baseline, and of
      a name that is not excluded. */
  ghost predicate Watched(before: Tree, policy: Policy, p: Path) {
    && p in before && before[p].File? && p != []
    && (exists base <- policy.monitored :: base <= p)
    && p != policy.manifest && (forall o <- policy.others :: o.path != p)
    && !(policy.baseline <= p) && !policy.excluded(p[|p| - 1])
  }

  /** The entries are the watched files, each with the digest of what it held. */
  ghost predicate ManifestIs(entries: seq<Entry>, before: Tree, policy: Policy) {
    && (forall e <- entries :: Watched(before, policy, e.path) && e.sha256 == Digest(before[e.path].content))
    && (forall p :: Watched(before, policy, p) ==> exists e <- entries :: e.path == p)
  }

  /** Each of them still holds that, and the baseline holds the same under the same path. */
  ghost predicate StillHeld(entries: seq<Entry>, before: Tree, after: Tree) {
    forall e <- entries :: e.path in before && e.path in after && after[e.path] == before[e.path]
  }

  ghost predicate CopiedAside(entries: seq<Entry>, before: Tree, after: Tree, baseline: Path) {
    forall e <- entries ::
      && e.path in before && baseline + e.path in after && after[baseline + e.path] == before[e.path]
  }

  lemma InstalledMeans(entries: seq<Entry>, before: Tree, after: Tree, policy: Policy)
    requires Records(entries, before, policy) && Clean(after, entries)
    requires forall p :: Lists(entries, p) <==> Monitored(before, policy, p)
    ensures ManifestIs(entries, before, policy) && StillHeld(entries, before, after)
    ensures BaselineIntact(after, entries, policy.baseline) ==>
              CopiedAside(entries, before, after, policy.baseline)
  {
    forall p
      ensures Watched(before, policy, p) <==> Lists(entries, p)
    {
    }
  }

  lemma RecordsAreSound(entries: seq<Entry>, before: Tree, policy: Policy)
    requires WellFormed(before) && Records(entries, before, policy)
    ensures Sound(entries, policy.baseline)
  {
    forall a, b | a in entries && b in entries && a.path <= b.path
      ensures a == b
    {
      assert a.path == b.path || a.path in Above(b.path);
    }
  }

  lemma BaselinePathsAgree(baseline: Path, p: Path, q: Path)
    ensures baseline + p <= baseline + q <==> p <= q
    ensures baseline + p == baseline + q <==> p == q
  {
    var a, b := baseline + p, baseline + q;
    assert a[|baseline|..] == p && b[|baseline|..] == q;
    if a <= b {
      assert a == b[..|a|];
      assert p == b[..|a|][|baseline|..] == q[..|p|];
    }
  }

  /** Copying one monitored file to the baseline keeps the frame and every earlier copy. */
  lemma CopyToBaseline(before: Tree, tree: Tree, policy: Policy, e: Entry, entries: seq<Entry>)
    requires WellFormed(before) && Framed(before, tree, policy.baseline)
    requires Records(entries, before, policy) && Monitored(before, policy, e.path)
    requires e.sha256 == Digest(before[e.path].content)
    requires var name := e.path[|e.path| - 1];
             Copy(tree, before[e.path].content, name, policy.baseline + e.path).Some?
    ensures var name := e.path[|e.path| - 1];
            var after := Copy(tree, before[e.path].content, name, policy.baseline + e.path).value;
            && Framed(before, after, policy.baseline)
            && Records(entries + [e], before, policy)
            && (Fresh(before, tree, policy) ==> Fresh(before, after, policy))
            && (Fresh(before, tree, policy) && BaselineIntact(tree, entries, policy.baseline) ==>
                  BaselineIntact(after, entries + [e], policy.baseline))
  {
    hide WellFormed, Fresh, BaselineIntact;
    var b, to := policy.baseline, policy.baseline + e.path;
    var after := Copy(tree, before[e.path].content, e.path[|e.path| - 1], to).value;
    CopyTouches(tree, before[e.path].content, e.path[|e.path| - 1], to);
    FrameKept(before, tree, after, b, e.path);
    NotInTheWay(tree, e.path, b);
    FreshKept(before, tree, after, policy, e);
    if Fresh(before, tree, policy) && BaselineIntact(tree, entries, b) {
      CopiesKept(before, tree, after, policy, e, entries);
    }
  }

  lemma FrameKept(before: Tree, tree: Tree, after: Tree, baseline: Path, p: Path)
    requires Framed(before, tree, baseline) && OnlyTouches(tree, after, baseline + p)
    ensures Framed(before, after, baseline)
  {
    assert forall q: Path {:trigger q in after} {:trigger q in before} :: baseline + p <= q ==> baseline <= q;
  }

  /** A file above the baseline would have made the copy fail. */
  lemma NotInTheWay(tree: Tree, p: Path, baseline: Path)
    requires IsFile(tree, p) && !Blocked(tree, baseline + p) && !(baseline <= p)
    ensures !(p <= baseline)
  {
    if p <= baseline {
      PrefixExtends(p, baseline, p);
    }
  }

  lemma PrefixExtends(p: Path, a: Path, b: Path)
    requires p <= a
    ensures p <= a + b
  {
    assert (a + b)[..|p|] == a[..|p|];
  }

  lemma FreshKept(before: Tree, tree: Tree, after: Tree, policy: Policy, e: Entry)
    requires WellFormed(before) && Monitored(before, policy, e.path)
    requires OnlyTouches(tree, after, policy.baseline + e.path)
    requires IsDir(tree, policy.baseline + e.path) || IsFile(after, policy.baseline + e.path)
    ensures Fresh(before, tree, policy) ==> Fresh(before, after, policy)
  {
    if Fresh(before, tree, policy) {
      var to := policy.baseline + e.path;
      forall p | Monitored(before, policy, p)
        ensures !IsDir(after, policy.baseline + p)
      {
        var at := policy.baseline + p;
        BaselinePathsAgree(policy.baseline, p, e.path);
        BaselinePathsAgree(policy.baseline, e.path, p);
        NotAbove(before, policy, p, e.path);
        NotAbove(before, policy, e.path, p);
      }
    }
  }

  lemma NotAbove(before: Tree, policy: Policy, p: Path, q: Path)
    requires WellFormed(before) && Monitored(before, policy, p) && Monitored(before, policy, q)
    ensures p <= q ==> p == q
  {
    assert p <= q ==> p == q || p in Above(q);
  }

  lemma CopiesKept(before: Tree, tree: Tree, after: Tree, policy: Policy, e: Entry, entries: seq<Entry>)
    requires WellFormed(before) && Records(entries, before, policy) && Monitored(before, policy, e.path)
    requires e.sha256 == Digest(before[e.path].content)
    requires OnlyTouches(tree, after, policy.baseline + e.path)
    requires IsDir(tree, policy.baseline + e.path) || (
      IsFile(after, policy.baseline + e.path)
      && after[policy.baseline + e.path].content == before[e.path].content)
    requires Fresh(before, tree, policy) && BaselineIntact(tree, entries, policy.baseline)
    ensures BaselineIntact(after, entries + [e], policy.baseline)
  {
    var b := policy.baseline;
    forall other <- entries + [e]
      ensures IsFile(after, b + other.path) && Digest(after[b + other.path].content) == other.sha256
    {
      if other.path != e.path {
        assert other in entries;
        BaselinePathsAgree(b, e.path, other.path);
        NotAbove(before, policy, e.path, other.path);
      }
    }
  }

  /** What installation leaves alone: everything but its own outputs, the baseline, and new
      directories. */
  ghost predicate Preserved(before: Tree, after: Tree, policy: Policy) {
    && (forall q <- before :: !(policy.baseline <= q) && !Generated(policy, q) ==> q in after && after[q] == before[q])
    && (forall q <- after :: q !in before && !(policy.baseline <= q) && !Generated(policy, q) ==> after[q].Dir?)
  }

  lemma WriteTouches(tree: Tree, p: Path, content: Content)
    requires Write(tree, p, content).Some?
    ensures OnlyTouches(tree, Write(tree, p, content).value, p)
    ensures p in Write(tree, p, content).value && Write(tree, p, content).value[p] == File(content)
    ensures forall q <- tree :: q != p ==>
              q in Write(tree, p, content).value && Write(tree, p, content).value[q] == tree[q]
    ensures forall q <- tree :: q <= p && q != p ==> tree[q].Dir?
  {
    assert forall q <- tree :: q <= p && q != p ==> q in Above(p);
  }

  /** The manifest and everything recorded in it survive the writing of any other output. */
  lemma WriteKeeps(before: Tree, tree: Tree, policy: Policy, p: Path, content: Content, entries: seq<Entry>)
    requires Preserved(before, tree, policy) && Records(entries, before, policy)
    requires Generated(policy, p) && Write(tree, p, content).Some?
    ensures var after := Write(tree, p, content).value;
            && Preserved(before, after, policy) && Clean(after, entries)
            && (!(policy.baseline <= p) && BaselineIntact(tree, entries, policy.baseline) ==>
                  BaselineIntact(after, entries, policy.baseline))
            && (p != policy.manifest && policy.manifest in tree ==>
                  policy.manifest in after && after[policy.manifest] == tree[policy.manifest])
            && (p == policy.manifest ==> Clear(entries, policy.manifest))
  {
    WriteTouches(tree, p, content);
    var after := Write(tree, p, content).value;
    forall q <- after | q !in before && !(policy.baseline <= q) && !Generated(policy, q)
      ensures after[q].Dir?
    {
      assert q in tree || q in Above(p);
    }
    if !(policy.baseline <= p) && BaselineIntact(tree, entries, policy.baseline) {
      forall e <- entries
        ensures policy.baseline + e.path != p
      {
        PrefixExtends(policy.baseline, policy.baseline, e.path);
      }
    }
  }

  /** Where a monitored file is, its directories are too. */
  lemma ListedExactly(before: Tree, tree: Tree, policy: Policy, base: Path, p: Path)
    requires WellFormed(before) && Framed(before, tree, policy.baseline) && base in policy.monitored
    requires !Generated(policy, p) && !(policy.baseline <= p)
    ensures IsFile(tree, p) ==> p != []
    ensures (IsFile(tree, p) && (p == base || (IsDir(tree, base) && base <= p))
             && p != [] && !policy.excluded(p[|p| - 1])) <==> Monitored(before, policy, p) && base <= p
  {
    if IsFile(before, p) && base <= p && base != p {
      assert base in Above(p);
    }
  }

  /** No output is configured inside the baseline. */
  ghost predicate KeepsOut(policy: Policy) {
    forall p :: Generated(policy, p) ==> !(policy.baseline <= p)
  }

  lemma MonitoredFacts(before: Tree, tree: Tree, policy: Policy, p: Path)
    requires Monitored(before, policy, p) && Framed(before, tree, policy.baseline)
    ensures p != [] && IsFile(before, p) && IsFile(tree, p) && tree[p] == before[p]
  {
  }

  lemma NothingRecorded(before: Tree, tree: Tree, policy: Policy)
    ensures BaselineIntact(tree, [], policy.baseline) && Records([], before, policy)
    ensures Framed(before, before, policy.baseline)
    ensures forall p :: !Lists([], p) && !Below([], p)
  {
  }

  lemma MonitoredSomewhere(before: Tree, policy: Policy)
    ensures forall p :: Monitored(before, policy, p) ==> Below(policy.monitored, p)
  {
  }

  lemma FramedIsPreserved(before: Tree, tree: Tree, policy: Policy)
    requires Framed(before, tree, policy.baseline)
    ensures Preserved(before, tree, policy)
  {
  }

  // ---------------------------------------------------------------- when installation succeeds

  /** Every copy and every output has a free place: no directory there, no file above. */
  ghost predicate Open(before: Tree, tree: Tree, policy: Policy) {
    && (forall p :: Monitored(before, policy, p) ==>
          !IsDir(tree, policy.baseline + p) && !Blocked(tree, policy.baseline + p))
    && OutputsOpen(tree, policy)
  }

  ghost predicate OutputsOpen(tree: Tree, policy: Policy) {
    forall g :: Generated(policy, g) ==> !IsDir(tree, g) && !Blocked(tree, g)
  }

  /** The outputs lie apart from each other and from the baseline. */
  ghost predicate Apart(policy: Policy) {
    && (forall g :: Generated(policy, g) ==> !(g <= policy.baseline) && !(policy.baseline <= g))
    && (forall g, h :: Generated(policy, g) && Generated(policy, h) && g <= h ==> g == h)
  }

  lemma CopyFits(tree: Tree, content: Content, name: string, to: Path)
    requires !IsDir(tree, to) && !Blocked(tree, to)
    ensures Copy(tree, content, name, to).Some?
    ensures Write(tree, to, content).Some?
  {
    assert IsDir(WithParents(tree, to), to) ==> IsDir(tree, to);
  }

  /** A place stays open when something is created at a path not related to it. */
  lemma StaysOpen(tree: Tree, after: Tree, at: Path, place: Path)
    requires OnlyTouches(tree, after, at) && !(at <= place) && !(place <= at)
    requires !IsDir(tree, place) && !Blocked(tree, place)
    ensures !IsDir(after, place) && !Blocked(after, place)
  {
    forall q <- Above(place)
      ensures !IsFile(after, q)
    {
      assert at <= q ==> at <= place;
    }
  }

  lemma OwnPlaceStaysOpen(tree: Tree, after: Tree, at: Path)
    requires OnlyTouches(tree, after, at) && IsFile(after, at) && !Blocked(tree, at)
    ensures !IsDir(after, at) && !Blocked(after, at)
  {
    forall q <- Above(at)
      ensures !IsFile(after, q)
    {
    }
  }

  lemma OpenAfterCopy(before: Tree, tree: Tree, after: Tree, policy: Policy, p: Path)
    requires WellFormed(before) && Apart(policy) && Open(before, tree, policy) && Monitored(before, policy, p)
    requires OnlyTouches(tree, after, policy.baseline + p) && IsFile(after, policy.baseline + p)
    ensures Open(before, after, policy)
  {
    var to := policy.baseline + p;
    forall q | Monitored(before, policy, q)
      ensures !IsDir(after, policy.baseline + q) && !Blocked(after, policy.baseline + q)
    {
      BaselinePathsAgree(policy.baseline, p, q);
      BaselinePathsAgree(policy.baseline, q, p);
      NotAbove(before, policy, p, q);
      NotAbove(before, policy, q, p);
      if p == q {
        OwnPlaceStaysOpen(tree, after, to);
      } else {
        StaysOpen(tree, after, to, policy.baseline + q);
      }
    }
    forall g | Generated(policy, g)
      ensures !IsDir(after, g) && !Blocked(after, g)
    {
      if g <= to {
        PrefixOfJoin(g, policy.baseline, p);
      }
      assert policy.baseline <= to;
      StaysOpen(tree, after, to, g);
    }
  }

  lemma OpenAfterWrite(tree: Tree, after: Tree, policy: Policy, g: Path)
    requires Apart(policy) && OutputsOpen(tree, policy) && Generated(policy, g)
    requires OnlyTouches(tree, after, g) && IsFile(after, g)
    ensures OutputsOpen(after, policy)
  {
    forall h | Generated(policy, h)
      ensures !IsDir(after, h) && !Blocked(after, h)
    {
      if h == g {
        OwnPlaceStaysOpen(tree, after, g);
      } else {
        StaysOpen(tree, after, g, h);
      }
    }
  }

  /** One step of the recording loop, when every place is open. */
  lemma RecordStepOpen(before: Tree, tree: Tree, policy: Policy, p: Path, content: Content)
    requires WellFormed(before) && Monitored(before, policy, p)
    requires Apart(policy) && Open(before, tree, policy)
    ensures var copied := Copy(tree, content, p[|p| - 1], policy.baseline + p);
            copied.Some? && Open(before, copied.value, policy)
  {
    var to := policy.baseline + p;
    CopyFits(tree, content, p[|p| - 1], to);
    CopyTouches(tree, content, p[|p| - 1], to);
    OpenAfterCopy(before, tree, Copy(tree, content, p[|p| - 1], to).value, policy, p);
  }

  /** One step of the writing loop likewise. */
  lemma WriteStepOpen(tree: Tree, policy: Policy, g: Path, content: Content)
    requires Apart(policy) && OutputsOpen(tree, policy) && Generated(policy, g)
    ensures Write(tree, g, content).Some? && OutputsOpen(Write(tree, g, content).value, policy)
  {
    CopyFits(tree, content, "", g);
    WriteTouches(tree, g, content);
    OpenAfterWrite(tree, Write(tree, g, content).value, policy, g);
  }

  lemma OpenOutputs(before: Tree, tree: Tree, policy: Policy)
    ensures Open(before, tree, policy) ==> OutputsOpen(tree, policy)
  {
  }

  // ---------------------------------------------------------------- the manager

  class Rootfs {
    var tree: Tree

    constructor (tree: Tree)
      ensures this.tree == tree
    {
      this.tree := tree;
    }

    /** `verify`: without repair it names exactly the entries that differ and changes nothing; with
        repair it also names exactly those, and leaves what `RepairAll` leaves. */
    method Verify(policy: Policy, repair: bool) returns (r: Option<Report>)
      requires EntriesIn(tree, policy).Some? ==> Sound(EntriesIn(tree, policy).value, policy.baseline)
      modifies this
      ensures old(EntriesIn(tree, policy)).None? ==> r.None? && tree == old(tree)
      ensures policy.manifest !in old(tree) || old(tree)[policy.manifest].Dir? ==> r.None?
      ensures forall text: string ::
                && (policy.manifest in old(tree) && old(tree)[policy.manifest] == File(Bytes(text)) ==> r.None?)
                && (policy.manifest in old(tree) && old(tree)[policy.manifest] == File(Object(text)) ==>
                      r == Some(Report([], [])) && tree == old(tree))
      ensures forall entries: seq<Entry> ::
                !repair && policy.manifest in old(tree) && old(tree)[policy.manifest] == File(Manifest(entries)) ==>
                && r.Some? && r.value.repaired == []
                && forall p :: p in r.value.changed <==> exists e <- entries :: e.path == p && !Holds(tree, e)
      ensures !repair ==> tree == old(tree)
      ensures old(EntriesIn(tree, policy)).Some? ==>
                var entries := old(EntriesIn(tree, policy)).value;
                && (!repair ==> r == Some(Report(Differing(tree, entries), [])))
                && (repair ==> (r.Some? <==> RepairAll(old(tree), entries, policy.baseline).Some?))
                && (repair && r.Some? ==>
                      && tree == RepairAll(old(tree), entries, policy.baseline).value
                      && r.value.repaired == r.value.changed)
                && (repair && r.Some? && BaselineIntact(old(tree), entries, policy.baseline) ==>
                      forall p :: p in r.value.changed <==> p in Differing(old(tree), entries))
    {
      if EntriesIn(tree, policy).None? {
        return None;
      }
      var entries := EntriesIn(tree, policy).value;
      if !repair {
        var found := CollectChanged(entries);
        return Some(Report(found, []));
      }
      ghost var before := tree;
      r := RepairChanged(entries, policy.baseline);
      assert entries == [] ==> r == Some(Report([], [])) && tree == before by {
        if r.Some? && r.value.changed != [] {
          assert r.value.changed[0] in r.value.changed;
        }
      }
    }

    method CollectChanged(entries: seq<Entry>) returns (changed: seq<Path>)
      ensures changed == Differing(tree, entries)
    {
      changed := [];
      for i := 0 to |entries|
        invariant changed == Differing(tree, entries[..i])
      {
        assert entries[..i + 1][..i] == entries[..i];
        if !Intact(tree, entries[i]) {
          changed := changed + [entries[i].path];
        }
      }
      assert entries[..|entries|] == entries;
    }

    method RepairChanged(entries: seq<Entry>, baseline: Path) returns (r: Option<Report>)
      requires Sound(entries, baseline)
      modifies this
      ensures r.Some? <==> RepairAll(old(tree), entries, baseline).Some?
      ensures r.Some? ==>
                tree == RepairAll(old(tree), entries, baseline).value && r.value.repaired == r.value.changed
      ensures r.Some? && BaselineIntact(old(tree), entries, baseline) ==>
                forall p :: p in r.value.changed <==> p in Differing(old(tree), entries)
    {
      hide RepairAll, Intact, Copy, Sound, BaselineIntact, ChangedSoFar;
      ghost var tree0 := tree;
      var changed, repaired := [], [];
      NothingChanged(tree0, entries, baseline);
      for i := 0 to |entries|
        invariant RepairAll(tree0, entries[..i], baseline) == Some(tree)
        invariant repaired == changed && ChangedSoFar(tree0, entries, baseline, changed, i)
      {
        var e := entries[i];
        assert e in entries;
        ChangedStep(tree0, tree, entries, baseline, changed, i);
        RepairOneCases(tree, e, baseline);
        assert changed + [] == changed;
        if !Intact(tree, e) {
          changed := changed + [e.path];
          var source := baseline + e.path;
          if !IsFile(tree, source) {
            return None;
          }
          var copied := Copy(tree, tree[source].content, e.path[|e.path| - 1], e.path);
          if copied.None? {
            return None;
          }
          tree := copied.value;
          repaired := repaired + [e.path];
        }
      }
      assert entries[..|entries|] == entries;
      ChangedInAll(tree0, entries, baseline, changed);
      r := Some(Report(changed, repaired));
    }

    /** Repairing and then verifying comes out clean exactly when every file that differs is one
        repair can put back. */
    method RepairThenVerify(policy: Policy) returns (clean: bool)
      requires EntriesIn(tree, policy).Some?
      requires var entries := EntriesIn(tree, policy).value;
               && Sound(entries, policy.baseline) && Clear(entries, policy.manifest)
               && BaselineIntact(tree, entries, policy.baseline)
      modifies this
      ensures var entries := old(EntriesIn(tree, policy)).value;
              && (clean <==> forall e <- entries :: Intact(old(tree), e) || Repairable(old(tree), e))
              && (clean <==> forall e <- entries :: Holds(old(tree), e) || Free(old(tree), e.path))
              && (clean ==> forall e <- entries :: Holds(tree, e))
              && (clean ==> Confined(old(tree), tree, entries))
    {
      ghost var entries := EntriesIn(tree, policy).value;
      RepairExact(tree, entries, policy.baseline);
      RepairIsConfined(tree, entries, policy.baseline);
      forall e: Entry, t: Tree
        ensures (Holds(t, e) <==> Intact(t, e)) && (Free(t, e.path) <==> Repairable(t, e))
      {
        RepairMeans(t, e);
      }
      ghost var tree0 := tree;
      var first := Verify(policy, true);
      if first.None? {
        return false;
      }
      RepairKeepsManifest(tree0, entries, policy.baseline, policy.manifest);
      var second := Verify(policy, false);
      clean := second.value.changed == [];
      assert clean <==> Clean(tree, entries) by {
        if !Clean(tree, entries) {
          var e :| e in entries && !Intact(tree, e);
          assert e.path in second.value.changed;
        }
        if second.value.changed != [] {
          assert second.value.changed[0] in second.value.changed;
        }
      }
    }

    /** `is_file`, `is_dir` and the sorted `rglob` of one monitored path, in some order. */
    method ListFiles(base: Path) returns (candidates: seq<Path>)
      ensures forall p :: p in candidates <==>
                IsFile(tree, p) && (p == base || (IsDir(tree, base) && base <= p))
    {
      candidates := [];
      if IsFile(tree, base) {
        candidates := [base];
      } else if IsDir(tree, base) {
        var rest := set p | p in tree && IsFile(tree, p) && base <= p;
        ghost var all := rest;
        while rest != {}
          invariant rest <= all && forall p :: p in candidates <==> p in all - rest
          decreases |rest|
        {
          var p :| p in rest;
          candidates := candidates + [p];
          rest := rest - {p};
        }
      }
    }

    /** One round of `_files`: the monitored files at and below one path, whatever has been copied
        to the baseline so far. */
    method FilesUnder(policy: Policy, base: Path, ghost before: Tree) returns (kept: seq<Path>)
      requires WellFormed(before) && Framed(before, tree, policy.baseline) && base in policy.monitored
      ensures forall p :: p in kept <==> Monitored(before, policy, p) && base <= p
    {
      var candidates := ListFiles(base);
      kept := [];
      for i := 0 to |candidates|
        invariant forall p :: p in kept <==> p in candidates[..i] && Monitored(before, policy, p) && base <= p
      {
        var p := candidates[i];
        assert p in candidates;
        assert candidates[..i + 1] == candidates[..i] + [p];
        if !Generated(policy, p) && !(policy.baseline <= p) {
          ListedExactly(before, tree, policy, base, p);
          if !policy.excluded(p[|p| - 1]) {
            kept := kept + [p];
          }
        }
      }
      assert candidates[..|candidates|] == candidates;
      forall p | Monitored(before, policy, p) && base <= p
        ensures p in candidates
      {
        ListedExactly(before, tree, policy, base, p);
      }
    }

    /** The body of the enumeration loop: record each file and copy it to the baseline. */
    method RecordFiles(policy: Policy, files: seq<Path>, known: seq<Entry>, ghost before: Tree)
      returns (r: Option<seq<Entry>>)
      requires WellFormed(before) && Framed(before, tree, policy.baseline)
      requires Records(known, before, policy) && forall p <- files :: Monitored(before, policy, p)
      modifies this
      ensures Framed(before, tree, policy.baseline) && (old(WellFormed(tree)) ==> WellFormed(tree))
      ensures r.Some? ==> Records(r.value, before, policy)
      ensures r.Some? ==> forall p :: Lists(r.value, p) <==>
                                      p in files || Lists(known, p)
      ensures r.Some? && old(Fresh(before, tree, policy) && BaselineIntact(tree, known, policy.baseline)) ==>
                Fresh(before, tree, policy) && BaselineIntact(tree, r.value, policy.baseline)
      ensures Apart(policy) && old(Open(before, tree, policy)) ==> r.Some? && Open(before, tree, policy)
    {
      hide WellFormed, Monitored, Fresh, BaselineIntact, Lists, Framed, Records, Copy, Open, Apart;
      ghost var whole := WellFormed(tree);
      ghost var open0 := Apart(policy) && Open(before, tree, policy);
      ghost var fresh0 := Fresh(before, tree, policy) && BaselineIntact(tree, known, policy.baseline);
      var entries := known;
      for i := 0 to |files|
        invariant Framed(before, tree, policy.baseline) && Records(entries, before, policy)
        invariant forall p :: Lists(entries, p) <==>
                              p in files[..i] || Lists(known, p)
        invariant fresh0 ==> Fresh(before, tree, policy) && BaselineIntact(tree, entries, policy.baseline)
        invariant (open0 ==> Open(before, tree, policy)) && (whole ==> WellFormed(tree))
      {
        var p := files[i];
        assert files[..i + 1] == files[..i] + [p];
        MonitoredFacts(before, tree, policy, p);
        var content := tree[p].content;
        var copied := Copy(tree, content, p[|p| - 1], policy.baseline + p);
        if open0 {
          RecordStepOpen(before, tree, policy, p, content);
        }
        if copied.None? {
          return None;
        }
        var e := Entry(p, Digest(content));
        CopyToBaseline(before, tree, policy, e, entries);
        ListsOneMore(entries, e);
        if whole {
          StaysWellFormed(tree, content, p[|p| - 1], policy.baseline + p);
        }
        entries := entries + [e];
        tree := copied.value;
      }
      assert files[..|files|] == files;
      r := Some(entries);
    }

    /** `install`: the manifest lists exactly the monitored files, although the outputs and the
        baseline are written into the tree while it is being enumerated; verifying right afterwards
        finds nothing changed; and on a fresh baseline every entry can be repaired from it. */
    method Install(policy: Policy) returns (r: Option<seq<Entry>>)
      requires WellFormed(tree)
      modifies this
      ensures WellFormed(tree)
      ensures r.Some? ==> EntriesIn(tree, policy) == Left(policy, r.value, |policy.others|)
      ensures r.Some? ==> forall p :: Lists(r.value, p) <==> Monitored(old(tree), policy, p)
      ensures r.Some? ==> Records(r.value, old(tree), policy) && Preserved(old(tree), tree, policy)
      ensures r.Some? ==> Sound(r.value, policy.baseline) && Clear(r.value, policy.manifest)
      ensures r.Some? ==> Clean(tree, r.value)
      ensures r.Some? ==> ManifestIs(r.value, old(tree), policy) && StillHeld(r.value, old(tree), tree)
      ensures r.Some? && (forall o <- policy.others :: o.path != policy.manifest) ==>
                policy.manifest in tree && tree[policy.manifest] == File(Manifest(r.value))
      ensures r.Some? && old(Fresh(tree, tree, policy)) && KeepsOut(policy) ==>
                && BaselineIntact(tree, r.value, policy.baseline)
                && CopiedAside(r.value, old(tree), tree, policy.baseline)
      ensures Apart(policy) && old(Open(tree, tree, policy)) ==> r.Some?
    {
      hide WellFormed, Monitored, Fresh, BaselineIntact, Sound, Clear, Clean, Lists, Below, Framed, Records, Open,
        Apart, OutputsOpen;
      ghost var before := tree;
      var entries := [];
      NothingRecorded(before, tree, policy);
      for i := 0 to |policy.monitored|
        invariant Framed(before, tree, policy.baseline) && Records(entries, before, policy) && WellFormed(tree)
        invariant forall p :: Lists(entries, p) <==>
                              Monitored(before, policy, p) && Below(policy.monitored[..i], p)
        invariant Fresh(before, before, policy) ==>
                    Fresh(before, tree, policy) && BaselineIntact(tree, entries, policy.baseline)
        invariant Apart(policy) && Open(before, before, policy) ==> Open(before, tree, policy)
      {
        var base := policy.monitored[i];
        BelowOneMore(policy.monitored, i);
        var files := FilesUnder(policy, base, before);
        var recorded := RecordFiles(policy, files, entries, before);
        if recorded.None? {
          return None;
        }
        entries := recorded.value;
      }
      assert policy.monitored[..|policy.monitored|] == policy.monitored;
      MonitoredSomewhere(before, policy);
      RecordsAreSound(entries, before, policy);
      FramedIsPreserved(before, tree, policy);
      OpenOutputs(before, tree, policy);
      var written := WriteOutputs(policy, entries, before);
      if written {
        InstalledMeans(entries, before, tree, policy);
      }
      r := if written then Some(entries) else None;
    }

    /** A verification right after installation reports nothing, unless the manifest was overwritten
        by an output that is no JSON: then it fails.  Over one that is, it sees no entries at all. */
    method InstallThenVerify(policy: Policy) returns (entries: Option<seq<Entry>>, report: Option<Report>)
      requires WellFormed(tree)
      modifies this
      ensures entries.Some? ==>
                report == if Left(policy, entries.value, |policy.others|).Some? then Some(Report([], [])) else None
      ensures entries.Some? ==> Preserved(old(tree), tree, policy)
      ensures Apart(policy) && old(Open(tree, tree, policy)) ==> entries.Some?
    {
      hide WellFormed, Monitored, Preserved, Records, Sound, Clear, Open, Apart;
      report := None;
      entries := Install(policy);
      if entries.Some? {
        LeftIsSound(tree, policy, entries.value, |policy.others|);
        if EntriesIn(tree, policy).Some? {
          CleanDiffersNowhere(tree, EntriesIn(tree, policy).value);
        }
        report := Verify(policy, false);
      }
    }

    /** Writing one output keeps what was recorded, and the manifest when it is another file. */
    method WriteOutput(policy: Policy, p: Path, content: Content, entries: seq<Entry>, ghost before: Tree)
      returns (ok: bool)
      requires Preserved(before, tree, policy) && Records(entries, before, policy) && Generated(policy, p)
      modifies this
      ensures old(WellFormed(tree)) ==> WellFormed(tree)
      ensures Apart(policy) && old(OutputsOpen(tree, policy)) ==> ok && OutputsOpen(tree, policy)
      ensures ok ==> Preserved(before, tree, policy) && Clean(tree, entries)
      ensures ok ==> p in tree && tree[p] == File(content)
      ensures ok && p == policy.manifest ==> Clear(entries, policy.manifest)
      ensures ok && p != policy.manifest && policy.manifest in old(tree) ==>
                policy.manifest in tree && tree[policy.manifest] == old(tree)[policy.manifest]
      ensures ok && KeepsOut(policy) && old(BaselineIntact(tree, entries, policy.baseline)) ==>
                BaselineIntact(tree, entries, policy.baseline)
    {
      hide Preserved, Records, Clean, Clear, BaselineIntact, Apart, OutputsOpen, Write, WellFormed;
      var result := Write(tree, p, content);
      if Apart(policy) && OutputsOpen(tree, policy) {
        WriteStepOpen(tree, policy, p, content);
      }
      ok := result.Some?;
      if ok {
        WriteKeeps(before, tree, policy, p, content, entries);
        WriteTouches(tree, p, content);
        if WellFormed(tree) {
          StaysWellFormed(tree, content, "", p);
        }
        tree := result.value;
      }
    }

    /** The manifest first, then the other outputs and the alert state. */
    method WriteOutputs(policy: Policy, entries: seq<Entry>, ghost before: Tree) returns (ok: bool)
      requires Preserved(before, tree, policy) && Records(entries, before, policy)
      modifies this
      ensures old(WellFormed(tree)) ==> WellFormed(tree)
      ensures ok ==> Preserved(before, tree, policy) && Clean(tree, entries) && Clear(entries, policy.manifest)
      ensures ok ==> EntriesIn(tree, policy) == Left(policy, entries, |policy.others|)
      ensures ok && (forall o <- policy.others :: o.path != policy.manifest) ==>
                policy.manifest in tree && tree[policy.manifest] == File(Manifest(entries))
      ensures ok && KeepsOut(policy) && old(BaselineIntact(tree, entries, policy.baseline)) ==>
                BaselineIntact(tree, entries, policy.baseline)
      ensures Apart(policy) && old(OutputsOpen(tree, policy)) ==> ok
    {
      hide Preserved, Records, Clean, Clear, BaselineIntact, Apart, OutputsOpen, WellFormed;
      ghost var open0 := Apart(policy) && OutputsOpen(tree, policy);
      ghost var intact := BaselineIntact(tree, entries, policy.baseline);
      ghost var whole := WellFormed(tree);
      ok := WriteOutput(policy, policy.manifest, Manifest(entries), entries, before);
      if !ok {
        return;
      }
      for i := 0 to |policy.others|
        invariant ok && Preserved(before, tree, policy) && Clean(tree, entries) && Clear(entries, policy.manifest)
        invariant IsFile(tree, policy.manifest) && EntriesIn(tree, policy) == Left(policy, entries, i)
        invariant (forall o <- policy.others :: o.path != policy.manifest) ==>
                    tree[policy.manifest] == File(Manifest(entries))
        invariant KeepsOut(policy) && intact ==> BaselineIntact(tree, entries, policy.baseline)
        invariant (open0 ==> OutputsOpen(tree, policy)) && (whole ==> WellFormed(tree))
      {
        var text: string := *;
        var output := policy.others[i];
        assert Generated(policy, output.path);
        ok := WriteOutput(policy, output.path, if output.json then Object(text) else Bytes(text), entries, before);
        if !ok {
          return;
        }
      }
    }
  }
}
