/** Importing component and Agent releases into the project tree, with restoration on failure. */
module ReleaseImport {
  import opened Common
  import opened Sorting

  // ---------------------------------------------------------------- files

  datatype ArtifactField =
    | NoArtifact
    | NameOnly(text: string)
    | Detail(filename: Option<string>, sha256: Option<Digest>, sizeBytes: Option<int>, size: Option<int>)

  /** A build evidence document; an absent key, or one of another type, is None. */
  datatype Evidence = Evidence(
    package: Option<string>, version: string, architecture: Option<string>, artifact: ArtifactField,
    filename: Option<string>, artifactPath: Option<string>,
    sha256: Option<Digest>, sizeBytes: Option<int>, size: Option<int>)

  /** A package file's bytes may or may not happen to be UTF-8.  `Unreadable` is any other file on
      which reading JSON raises something the importer does not expect: it is not UTF-8, or holds a
      number too long or a nesting too deep to read.  `Other` is what the search passes over: text
      that is no JSON object, or a file that cannot be opened. */
  datatype File =
    | Deb(package: string, version: string, architecture: string, utf8: bool, payload: string)
    | Json(evidence: Evidence)
    | Unreadable(bytes: string)
    | Other(text: string)

  /** SHA-256, idealised as injective. */
  datatype Digest = Digest(of: File)

  function SizeOf(f: File): nat {
    match f
    case Deb(_, _, _, _, payload) => |payload|
    case Json(_) => 0
    case Unreadable(bytes) => |bytes|
    case Other(text) => |text|
  }

  /** Where a path leads once every link is followed: to a name in the same directory, or away. */
  datatype Resolved = Here(name: string) | Away(path: string)

  /** A symbolic link carries the file it leads to, if any, and its resolved path. */
  datatype Node = Regular(file: File) | Link(target: Option<File>, path: Resolved)

  type Directory = map<string, Node>

  datatype Location = InPackages(name: string) | Elsewhere(path: string)

  datatype Profile = Profile(
    name: string, version: string, architecture: string, artifact: Location, sha256: Option<Digest>)

  // ---------------------------------------------------------------- families

  predicate EndsWith(text: string, suffix: string) {
    |suffix| <= |text| && text[|text| - |suffix|..] == suffix
  }

  /** The glob `prefix*suffix`. */
  predicate Globs(text: string, prefix: string, suffix: string) {
    |prefix| + |suffix| <= |text| && prefix <= text && EndsWith(text, suffix)
  }

  datatype Spec = Spec(package: string, artifactPrefix: string, evidencePrefix: string, evidenceSuffix: string)

  const SPECS: map<string, Spec> := map[
    "network" := Spec("xaac-thin-client-network", "xaac-thin-client-network_", "xaac-thin-client-network", ".json"),
    "vpn" := Spec("xaac-thin-client-vpn", "xaac-thin-client-vpn_", "xaac-thin-client-vpn", ".json"),
    "remote" := Spec("xaac-thinclient", "xaac-thinclient_", "xaac-thinclient", ".json"),
    "dock" := Spec("xaac-thin-client-dock", "xaac-thin-client-dock_", "xaac-thin-client-dock", ".json")
  ]

  const AGENT := Spec("xaac-agent", "xaac-agent_", "xaac-agent_", ".deb.provenance.json")

  predicate InFamily(spec: Spec, name: string) {
    Globs(name, spec.artifactPrefix, ".deb") || Globs(name, spec.evidencePrefix, spec.evidenceSuffix)
  }

  /** The text is these two with anything between. */
  ghost predicate Between(text: string, prefix: string, suffix: string) {
    exists middle: string :: text == prefix + middle + suffix
  }

  lemma GlobsBetween(text: string, prefix: string, suffix: string)
    ensures Globs(text, prefix, suffix) <==> Between(text, prefix, suffix)
  {
    if Globs(text, prefix, suffix) {
      var middle := text[|prefix|..|text| - |suffix|];
      assert text == prefix + middle + suffix;
    }
    if middle: string :| text == prefix + middle + suffix {
      assert text[|text| - |suffix|..] == suffix && text[..|prefix|] == prefix;
    }
  }

  /** The files of each component, told by its key. */
  ghost predicate BelongsTo(component: string, n: string) {
    match component
    case "network" =>
      Between(n, "xaac-thin-client-network_", ".deb") || Between(n, "xaac-thin-client-network", ".json")
    case "vpn" => Between(n, "xaac-thin-client-vpn_", ".deb") || Between(n, "xaac-thin-client-vpn", ".json")
    case "remote" => Between(n, "xaac-thinclient_", ".deb") || Between(n, "xaac-thinclient", ".json")
    case "dock" => Between(n, "xaac-thin-client-dock_", ".deb") || Between(n, "xaac-thin-client-dock", ".json")
    case _ => false
  }

  /** The package each component is released as. */
  ghost predicate IsPackageOf(component: string, package: string) {
    || (component == "network" && package == "xaac-thin-client-network")
    || (component == "vpn" && package == "xaac-thin-client-vpn")
    || (component == "remote" && package == "xaac-thinclient")
    || (component == "dock" && package == "xaac-thin-client-dock")
  }

  lemma FamilyIs(component: string, n: string)
    ensures component in SPECS <==> component == "network" || component == "vpn" || component == "remote"
                                    || component == "dock"
    ensures component in SPECS ==> (InFamily(SPECS[component], n) <==> BelongsTo(component, n))
    ensures component in SPECS ==> IsPackageOf(component, SPECS[component].package)
  {
    hide Globs, Between;
    if component in SPECS {
      var spec := SPECS[component];
      GlobsBetween(n, spec.artifactPrefix, ".deb");
      GlobsBetween(n, spec.evidencePrefix, ".json");
    }
  }

  lemma AgentFamilyIs(n: string)
    ensures InFamily(AGENT, n) <==>
            Between(n, "xaac-agent_", ".deb") || Between(n, "xaac-agent_", ".deb.provenance.json")
  {
    GlobsBetween(n, "xaac-agent_", ".deb");
    GlobsBetween(n, "xaac-agent_", ".deb.provenance.json");
  }

  lemma GlobsExtend(text: string, stem: string, prefix: string, suffix: string)
    requires prefix == stem + "_" && Globs(text, prefix, suffix)
    ensures stem <= text
  {
    assert text[..|stem|] == prefix[..|stem|] == stem;
  }

  /** Every file of a family starts with its package's name. */
  lemma FamilyStem(key: string, name: string)
    requires key in SPECS && InFamily(SPECS[key], name)
    ensures SPECS[key].package <= name
  {
    var spec := SPECS[key];
    assert spec.artifactPrefix == spec.package + "_" by {
      assert "xaac-thin-client-network" + "_" == "xaac-thin-client-network_";
      assert "xaac-thin-client-vpn" + "_" == "xaac-thin-client-vpn_";
      assert "xaac-thinclient" + "_" == "xaac-thinclient_";
      assert "xaac-thin-client-dock" + "_" == "xaac-thin-client-dock_";
    }
    if Globs(name, spec.artifactPrefix, ".deb") {
      GlobsExtend(name, spec.package, spec.artifactPrefix, ".deb");
    }
  }

  /** The characters that tell the families apart. */
  lemma StemTells(key: string, name: string)
    requires key in SPECS && SPECS[key].package <= name
    ensures |name| >= 15 && name[5] == 't' && (key == "remote" <==> name[9] == 'c')
    ensures key != "remote" ==> |name| >= 20 && key != "" && name[17] == key[0]
  {
    var stem := SPECS[key].package;
    assert |stem| >= 15 && stem[5] == 't' && (key == "remote" <==> stem[9] == 'c');
    assert key != "remote" ==> |stem| >= 20 && key != "" && stem[17] == key[0];
    assert stem == name[..|stem|];
  }

  /** No file belongs to two components, so importing one never disturbs another's. */
  lemma FamiliesAreDisjoint(a: string, b: string, name: string)
    requires a in SPECS && b in SPECS && a != b && InFamily(SPECS[a], name)
    ensures !InFamily(SPECS[b], name) && !InFamily(AGENT, name)
  {
    FamilyStem(a, name);
    StemTells(a, name);
    assert AGENT.artifactPrefix[5] == 'a' && AGENT.evidencePrefix[5] == 'a';
    if InFamily(SPECS[b], name) {
      FamilyStem(b, name);
      StemTells(b, name);
      assert false;
    }
  }

  // ---------------------------------------------------------------- evidence

  function RFind(text: string, c: char): (i: int)
    ensures -1 <= i < |text|
    ensures i >= 0 ==> text[i] == c
    ensures forall k :: i < k < |text| ==> text[k] != c
  {
    if text == "" then -1
    else if text[|text| - 1] == c then |text| - 1
    else RFind(text[..|text| - 1], c)
  }

  /** `Path(...).name`: slashes at the end and `.` components do not count. */
  function BaseName(path: string): (r: string)
    ensures '/' !in r && r != "."
  {
    var last := path[RFind(path, '/') + 1..];
    if path == "" then ""
    else if path[|path| - 1] == '/' || last == "." then BaseName(path[..|path| - 1])
    else last
  }

  lemma LastPartIs(folder: string, part: string)
    requires '/' !in part
    ensures RFind(part, '/') == -1 && RFind(folder + "/" + part, '/') == |folder|
  {
    var path := folder + "/" + part;
    assert path[|folder|] == '/';
    assert forall k :: |folder| < k < |path| ==> path[k] == part[k - |folder| - 1];
  }

  /** The name is the last part of the path, whatever stands before it and however the path ends. */
  lemma BaseNameIs(folder: string, part: string)
    requires '/' !in part && part != "" && part != "."
    ensures BaseName(part) == part && BaseName(folder + "/" + part) == part
    ensures BaseName(folder + "/") == BaseName(folder) && BaseName(folder + "/.") == BaseName(folder)
    ensures BaseName("") == "" && BaseName(".") == ""
  {
    LastPartIs(folder, part);
    assert (folder + "/" + part)[|folder| + 1..] == part;
    assert (folder + "/")[..|folder|] == folder;
    LastPartIs(folder, ".");
    assert (folder + "/" + ".")[|folder| + 1..] == ".";
    assert folder + "/" + "." == folder + "/.";
    assert (folder + "/.")[..|folder| + 1] == folder + "/";
  }

  function RemoveSuffix(name: string, suffix: string): string {
    if EndsWith(name, suffix) then name[..|name| - |suffix|] else name
  }

  /** `with_suffix(".json")`. */
  function WithJson(name: string): string {
    var dot := RFind(name, '.');
    (if 0 < dot < |name| - 1 then name[..dot] else name) + ".json"
  }

  /** What follows the last dot goes, unless that dot begins or ends the name. */
  lemma WithJsonIs(a: string, b: string)
    requires '.' !in b
    ensures a != "" && b != "" ==> WithJson(a + "." + b) == a + ".json"
    ensures a == "" || b == "" ==> WithJson(a + "." + b) == a + "." + b + ".json"
    ensures WithJson(b) == b + ".json"
  {
    var name := a + "." + b;
    assert name[|a|] == '.' && name[..|a|] == a;
    assert forall k :: |a| < k < |name| ==> name[k] == b[k - |a| - 1];
  }

  function ArtifactName(e: Evidence): Option<string> {
    if e.artifact.NameOnly? then Some(BaseName(e.artifact.text))
    else if e.artifact.Detail? && e.artifact.filename.Some? then Some(BaseName(e.artifact.filename.value))
    else if e.filename.Some? then Some(BaseName(e.filename.value))
    else if e.artifactPath.Some? then Some(BaseName(e.artifactPath.value))
    else None
  }

  function StatedDigest(e: Evidence): Option<Digest> {
    if e.sha256.Some? then e.sha256 else if e.artifact.Detail? then e.artifact.sha256 else None
  }

  function StatedSize(e: Evidence): Option<int> {
    if e.sizeBytes.Some? then e.sizeBytes
    else if e.size.Some? then e.size
    else if e.artifact.Detail? && e.artifact.sizeBytes.Some? then e.artifact.sizeBytes
    else if e.artifact.Detail? then e.artifact.size
    else None
  }

  /** The evidence vouches for this very file: it names its package, version and digest, and
      contradicts neither its architecture, its file name nor its size. */
  predicate Vouches(e: Evidence, name: string, deb: File)
    requires deb.Deb?
  {
    && e.package == Some(deb.package) && e.version == deb.version
    && (e.architecture.Some? ==> e.architecture.value == deb.architecture)
    && (ArtifactName(e).Some? ==> ArtifactName(e).value == name)
    && StatedDigest(e) == Some(Digest(deb))
    && (StatedSize(e).Some? ==> StatedSize(e).value == SizeOf(deb))
  }

  /** The one file name a document may state: its first statement of one counts. */
  ghost predicate StatesName(e: Evidence, path: string) {
    || (e.artifact.NameOnly? && e.artifact.text == path)
    || (e.artifact.Detail? && e.artifact.filename == Some(path))
    || (!Names(e.artifact) && e.filename == Some(path))
    || (!Names(e.artifact) && e.filename.None? && e.artifactPath == Some(path))
  }

  ghost predicate Names(a: ArtifactField) {
    a.NameOnly? || (a.Detail? && a.filename.Some?)
  }

  /** The same for the sizes, the document's own before those under its artifact. */
  ghost predicate StatesSize(e: Evidence, size: int) {
    || e.sizeBytes == Some(size)
    || (e.sizeBytes.None? && e.size == Some(size))
    || (e.sizeBytes.None? && e.size.None? && e.artifact.Detail? && e.artifact.sizeBytes == Some(size))
    || (e.sizeBytes.None? && e.size.None? && e.artifact.Detail? && e.artifact.sizeBytes.None?
        && e.artifact.size == Some(size))
  }

  /** A document that attests this file: all it states is true of the file, and it states its
      package, its version and its digest, the digest possibly only under its artifact. */
  ghost predicate Attests(e: Evidence, name: string, deb: File)
    requires deb.Deb?
  {
    && e.package == Some(deb.package) && e.version == deb.version
    && (e.architecture == None || e.architecture == Some(deb.architecture))
    && (forall path :: StatesName(e, path) ==> BaseName(path) == name)
    && (e.sha256 == Some(Digest(deb))
        || (e.sha256 == None && e.artifact.Detail? && e.artifact.sha256 == Some(Digest(deb))))
    && (forall size :: StatesSize(e, size) ==> size == SizeOf(deb))
  }

  lemma VouchesExactly(e: Evidence, name: string, deb: File)
    requires deb.Deb?
    ensures Vouches(e, name, deb) <==> Attests(e, name, deb)
  {
    hide BaseName;
    assert forall path :: StatesName(e, path) ==> ArtifactName(e) == Some(BaseName(path));
    assert forall size :: StatesSize(e, size) <==> StatedSize(e) == Some(size);
    if ArtifactName(e).Some? {
      var path := if e.artifact.NameOnly? then e.artifact.text else if Names(e.artifact) then e.artifact.filename.value
        else if e.filename.Some? then e.filename.value else e.artifactPath.value;
      assert StatesName(e, path);
    }
  }

  /** No evidence vouches for two different files. */
  lemma VouchesForOne(e: Evidence, name: string, deb: File, other: string, second: File)
    requires deb.Deb? && second.Deb? && Vouches(e, name, deb) && Vouches(e, other, second)
    ensures deb == second && ((exists path :: StatesName(e, path)) ==> name == other)
  {
    hide BaseName;
    VouchesExactly(e, name, deb);
    VouchesExactly(e, other, second);
  }

  predicate Suits(directory: Directory, candidate: string, name: string, deb: File)
    requires deb.Deb?
  {
    && candidate in directory && directory[candidate].Regular? && directory[candidate].file.Json?
    && Vouches(directory[candidate].file.evidence, name, deb)
  }

  function Resolve(directory: Directory, name: string): Resolved {
    if name in directory && directory[name].Link? then directory[name].path else Here(name)
  }

  /** The three names derived from the artifact's own come first. */
  function Place(name: string, c: string): nat {
    var stem := RemoveSuffix(name, ".deb");
    if c == WithJson(name) then 0
    else if c == stem + ".evidence.json" then 1
    else if c == stem + ".provenance.json" then 2
    else 3
  }

  lemma EndsInDeb(stem: string)
    ensures EndsWith(stem + ".deb", ".deb") && RemoveSuffix(stem + ".deb", ".deb") == stem
    ensures RFind(stem + ".deb", '.') == |stem|
  {
    hide RFind;
    var name := stem + ".deb";
    assert name[|stem|..] == ".deb" && name[..|stem|] == stem;
    assert name[|stem|] == '.' && name[|stem| + 1] == 'd' && name[|stem| + 2] == 'e' && name[|stem| + 3] == 'b';
  }

  /** Which names are looked at for a release called `stem.deb`, and which come first. */
  lemma PlacesAre(stem: string, c: string)
    requires stem != ""
    ensures Place(stem + ".deb", c) == 0 <==> c == stem + ".json"
    ensures Place(stem + ".deb", c) == 1 <==> c == stem + ".evidence.json"
    ensures Place(stem + ".deb", c) == 2 <==> c == stem + ".provenance.json"
    ensures EndsWith(c, ".json") <==> exists base: string :: c == base + ".json"
  {
    var name := stem + ".deb";
    EndsInDeb(stem);
    assert name[..|stem|] == stem;
    assert |stem + ".json"| != |stem + ".evidence.json"| && |stem + ".evidence.json"| != |stem + ".provenance.json"|;
    if EndsWith(c, ".json") {
      assert c == c[..|c| - 5] + ".json";
    }
    if base: string :| c == base + ".json" {
      assert c[|c| - 5..] == ".json";
    }
  }

  predicate Listed(directory: Directory, name: string, c: string) {
    Place(name, c) < 3 || (c in directory && EndsWith(c, ".json"))
  }

  /** The order in which the candidates are looked at. */
  predicate Before(name: string, c: string, d: string) {
    || Place(name, c) < Place(name, d)
    || (Place(name, c) == 3 && Place(name, d) == 3 && c != d && StringLe(c, d))
  }

  lemma BeforeIsOrder(name: string, c: string, d: string)
    ensures !(Before(name, c, d) && Before(name, d, c))
    ensures c == d || Before(name, c, d) || Before(name, d, c)
  {
    StringTotal(c, d);
  }

  /** No earlier candidate leads to the same file. */
  ghost predicate Claims(directory: Directory, name: string, c: string) {
    forall d :: Listed(directory, name, d) && Before(name, d, c) ==> Resolve(directory, d) != Resolve(directory, c)
  }

  /** An earlier candidate is a link to this very file. */
  ghost predicate Shadowed(directory: Directory, name: string, c: string) {
    exists d :: Listed(directory, name, d) && Before(name, d, c)
                && d in directory && directory[d].Link? && directory[d].path == Here(c)
  }

  /** Evidence the search gets to see: links are dropped, but only after they have claimed the file
      they lead to. */
  ghost predicate Available(directory: Directory, c: string, name: string, deb: File)
    requires deb.Deb?
  {
    Listed(directory, name, c) && Suits(directory, c, name, deb) && !Shadowed(directory, name, c)
  }

  /** Reading this file as JSON raises what the search does not catch. */
  predicate Breaks(file: File) {
    file.Unreadable? || (file.Deb? && !file.utf8)
  }

  /** A candidate whose reading ends the search with that exception. */
  ghost predicate Breaking(directory: Directory, c: string, name: string) {
    && Listed(directory, name, c) && c in directory && directory[c].Regular? && Breaks(directory[c].file)
    && !Shadowed(directory, name, c)
  }

  /** The search gets this far. */
  ghost predicate Reached(directory: Directory, c: string, name: string) {
    forall d :: Breaking(directory, d, name) ==> !Before(name, d, c)
  }

  /** How the search for evidence ends; `Broken` is the exception that nobody catches. */
  datatype Search = Found(evidence: string) | NotFound | Broken

  /** The first of it in the order of the search. */
  ghost predicate Chosen(directory: Directory, c: string, name: string, deb: File)
    requires deb.Deb?
  {
    && Available(directory, c, name, deb)
    && forall d :: Available(directory, d, name, deb) ==> d == c || Before(name, c, d)
  }

  lemma ClaimsUnlessShadowed(directory: Directory, name: string, c: string)
    requires c in directory ==> directory[c].Regular?
    ensures Claims(directory, name, c) <==> !Shadowed(directory, name, c)
  {
    forall d | Listed(directory, name, d) && Before(name, d, c)
      ensures Resolve(directory, d) == Here(c) <==>
              d in directory && directory[d].Link? && directory[d].path == Here(c)
    {
      BeforeIsOrder(name, d, c);
    }
  }

  /** In the concatenated list a name met for the first time comes after all those before it. */
  lemma FirstComesLater(name: string, globbed: seq<string>, k: nat)
    requires Strict(globbed)
    requires var all := Named(name) + globbed; k < |all| && all[k] !in all[..k]
    ensures var all := Named(name) + globbed; forall d <- all[..k] :: Before(name, d, all[k])
  {
    var all := Named(name) + globbed;
    var named := Named(name);
    forall j | 0 <= j < k
      ensures Before(name, all[j], all[k])
    {
      assert all[j] in all[..k] && all[j] != all[k];
      if k >= 3 {
        assert all[..k][0] == named[0] && all[..k][1] == named[1] && all[..k][2] == named[2];
        assert Place(name, all[k]) == 3;
        if j >= 3 {
          assert StringLe(globbed[j - 3], globbed[k - 3]);
        }
      } else {
        assert all[k] == named[k] && all[j] == named[j];
        assert all[0] == named[0] && all[0] in all[..k];
        if k == 2 {
          assert all[1] == named[1] && all[1] in all[..k];
        }
      }
    }
  }

  function Named(name: string): (r: seq<string>)
    ensures |r| == 3 && forall c :: c in r <==> Place(name, c) < 3
  {
    var stem := RemoveSuffix(name, ".deb");
    [WithJson(name), stem + ".evidence.json", stem + ".provenance.json"]
  }

  /** `_json_candidates`: in order, every listed name whose resolved path no earlier one has. */
  method JsonCandidates(directory: Directory, name: string) returns (unique: seq<string>)
    ensures forall c :: c in unique <==> Listed(directory, name, c) && Claims(directory, name, c)
    ensures forall i, j :: 0 <= i < j < |unique| ==> Before(name, unique[i], unique[j])
    ensures forall stem: string :: stem != "" && name == stem + ".deb" ==> unique != [] && unique[0] == stem + ".json"
  {
    hide Place, Before, Listed, Claims, ClaimsAmong, Named;
    var globbed := SortedSet(set c | c in directory && EndsWith(c, ".json"));
    var candidates := Named(name) + globbed;
    unique := [];
    var seen: set<Resolved> := {};
    for i := 0 to |candidates|
      invariant seen == set c | c in candidates[..i] :: Resolve(directory, c)
      invariant forall c :: c in unique <==> c in candidates[..i] && ClaimsAmong(directory, name, c, candidates[..i])
      invariant forall j, k :: 0 <= j < k < |unique| ==> Before(name, unique[j], unique[k])
    {
      var c := candidates[i];
      assert candidates[..i + 1] == candidates[..i] + [c];
      if c !in candidates[..i] {
        FirstComesLater(name, globbed, i);
      }
      ClaimsSoFar(directory, name, candidates[..i], c);
      var resolved := Resolve(directory, c);
      if resolved !in seen {
        unique := unique + [c];
        seen := seen + {resolved};
      }
    }
    assert candidates[..|candidates|] == candidates;
    AllListed(directory, name, globbed);
    forall stem: string | stem != "" && name == stem + ".deb"
      ensures unique != [] && unique[0] == stem + ".json"
    {
      FirstOfAll(directory, stem, unique);
    }
  }

  lemma FirstOfAll(directory: Directory, stem: string, unique: seq<string>)
    requires stem != ""
    requires var name := stem + ".deb";
             && (forall c :: c in unique <==> Listed(directory, name, c) && Claims(directory, name, c))
             && forall i, j :: 0 <= i < j < |unique| ==> Before(name, unique[i], unique[j])
    ensures unique != [] && unique[0] == stem + ".json"
  {
    var first := stem + ".json";
    PlacesAre(stem, first);
    hide Place, RemoveSuffix, WithJson, EndsWith;
    assert first in unique;
    var k :| 0 <= k < |unique| && unique[k] == first;
    assert !Before(stem + ".deb", unique[0], first);
  }

  lemma AllListed(directory: Directory, name: string, globbed: seq<string>)
    requires forall c :: c in globbed <==> c in directory && EndsWith(c, ".json")
    ensures forall c :: c in Named(name) + globbed <==> Listed(directory, name, c)
    ensures forall c :: ClaimsAmong(directory, name, c, Named(name) + globbed) <==> Claims(directory, name, c)
  {
    assert forall c :: c in Named(name) + globbed <==> Listed(directory, name, c);
  }

  ghost predicate ClaimsAmong(directory: Directory, name: string, c: string, earlier: seq<string>) {
    forall d <- earlier :: Before(name, d, c) ==> Resolve(directory, d) != Resolve(directory, c)
  }

  /** One more entry changes no earlier claim, and claims its own path if nothing has it yet. */
  lemma ClaimsSoFar(directory: Directory, name: string, earlier: seq<string>, c: string)
    requires c !in earlier ==> forall d <- earlier :: Before(name, d, c)
    ensures forall e <- earlier :: ClaimsAmong(directory, name, e, earlier + [c]) <==>
                                   ClaimsAmong(directory, name, e, earlier)
    ensures c !in earlier ==>
              (ClaimsAmong(directory, name, c, earlier + [c]) <==>
               forall d <- earlier :: Resolve(directory, d) != Resolve(directory, c))
  {
    hide Place, Before;
    BeforeIsOrder(name, c, c);
    forall e <- earlier
      ensures ClaimsAmong(directory, name, e, earlier + [c]) <==> ClaimsAmong(directory, name, e, earlier)
    {
      BeforeIsOrder(name, c, e);
      assert forall d :: d in earlier + [c] <==> d in earlier || d == c;
    }
    assert forall d :: d in earlier + [c] <==> d in earlier || d == c;
  }

  /** `_load_matching_evidence`: exactly the first evidence that vouches for the file and that no
      earlier link leads to, unless the search breaks off before it. */
  method LoadMatchingEvidence(directory: Directory, name: string, deb: File) returns (r: Search)
    requires deb.Deb?
    ensures r.Found? ==> Chosen(directory, r.evidence, name, deb) && Reached(directory, r.evidence, name)
    ensures r.Found? <==> exists c :: Available(directory, c, name, deb) && Reached(directory, c, name)
    ensures r.NotFound? <==>
              && (forall c :: !Available(directory, c, name, deb))
              && (forall c :: !Breaking(directory, c, name))
    ensures r.Broken? ==>
              exists c <- directory ::
                && Breaking(directory, c, name) && directory[c].Regular?
                && (directory[c].file.Unreadable? || (directory[c].file.Deb? && !directory[c].file.utf8))
  {
    hide Place, Before, Vouches, Shadowed, Claims, Listed;
    var candidates := JsonCandidates(directory, name);
    assert AreCandidates(directory, candidates, name) by {
      forall c | c in directory && directory[c].Regular?
        ensures c in candidates <==> Listed(directory, name, c) && !Shadowed(directory, name, c)
      {
        ClaimsUnlessShadowed(directory, name, c);
      }
    }
    for i := 0 to |candidates|
      invariant forall k :: 0 <= k < i ==> Passed(directory, candidates[k], name, deb)
    {
      var c := candidates[i];
      if c in directory && directory[c].Regular? {
        if Breaks(directory[c].file) {
          BreaksHere(directory, candidates, i, name, deb);
          return Broken;
        }
        if directory[c].file.Json? && Vouches(directory[c].file.evidence, name, deb) {
          FoundHere(directory, candidates, i, name, deb);
          return Found(c);
        }
      }
    }
    r := NotFound;
    forall c
      ensures !Available(directory, c, name, deb) && !Breaking(directory, c, name)
    {
      if c in candidates {
        var k :| 0 <= k < |candidates| && candidates[k] == c;
        assert Passed(directory, candidates[k], name, deb);
      }
    }
  }

  /** The search looks at this candidate and goes on. */
  ghost predicate Passed(directory: Directory, c: string, name: string, deb: File)
    requires deb.Deb?
  {
    c in directory && directory[c].Regular? ==> !Breaks(directory[c].file) && !Suits(directory, c, name, deb)
  }

  /** The candidates are what the search looks at, in its order. */
  ghost predicate AreCandidates(directory: Directory, candidates: seq<string>, name: string) {
    && (forall c :: c in directory && directory[c].Regular? ==>
          (c in candidates <==> Listed(directory, name, c) && !Shadowed(directory, name, c)))
    && (forall i, j :: 0 <= i < j < |candidates| ==> Before(name, candidates[i], candidates[j]))
  }

  lemma FoundHere(directory: Directory, candidates: seq<string>, i: nat, name: string, deb: File)
    requires AreCandidates(directory, candidates, name) && i < |candidates| && deb.Deb?
    requires Suits(directory, candidates[i], name, deb)
    requires forall k :: 0 <= k < i ==> Passed(directory, candidates[k], name, deb)
    ensures Chosen(directory, candidates[i], name, deb) && Reached(directory, candidates[i], name)
  {
    hide Place, Before, Vouches, Shadowed, Listed;
    var c := candidates[i];
    assert c in candidates;
    forall d | Available(directory, d, name, deb)
      ensures d == c || Before(name, c, d)
    {
      var k :| 0 <= k < |candidates| && candidates[k] == d;
    }
    forall d | Breaking(directory, d, name)
      ensures !Before(name, d, c)
    {
      var k :| 0 <= k < |candidates| && candidates[k] == d;
      assert k > i;
      BeforeIsOrder(name, c, d);
    }
  }

  lemma BreaksHere(directory: Directory, candidates: seq<string>, i: nat, name: string, deb: File)
    requires AreCandidates(directory, candidates, name) && i < |candidates| && deb.Deb?
    requires var c := candidates[i]; c in directory && directory[c].Regular? && Breaks(directory[c].file)
    requires forall k :: 0 <= k < i ==> Passed(directory, candidates[k], name, deb)
    ensures Breaking(directory, candidates[i], name)
    ensures forall d :: Available(directory, d, name, deb) ==> !Reached(directory, d, name)
  {
    hide Place, Before, Vouches, Shadowed, Listed;
    var c := candidates[i];
    assert c in candidates;
    forall d | Available(directory, d, name, deb)
      ensures !Reached(directory, d, name)
    {
      var k :| 0 <= k < |candidates| && candidates[k] == d;
      assert k > i;
    }
  }

  /** A release with evidence that vouches for it, and another file that sorts before the evidence. */
  function Beside(deb: File, first: Node, evidence: Evidence): (r: Directory)
    ensures r.Keys == {"x.deb", "a.json", "b.json"}
    ensures r["x.deb"] == Regular(deb) && r["a.json"] == first && r["b.json"] == Regular(Json(evidence))
  {
    assert "x.deb"[0] == 'x' && "a.json"[0] == 'a' && "b.json"[0] == 'b';
    map["x.deb" := Regular(deb), "a.json" := first, "b.json" := Regular(Json(evidence))]
  }

  /** The input on which valid evidence is not even looked at: a file that is no UTF-8 and sorts first. */
  lemma UnreadableHidesEvidence(deb: File, evidence: Evidence, bytes: string)
    requires deb.Deb? && Vouches(evidence, "x.deb", deb)
    ensures var directory := Beside(deb, Regular(Unreadable(bytes)), evidence);
            && Available(directory, "b.json", "x.deb", deb) && Breaking(directory, "a.json", "x.deb")
            && forall c :: Available(directory, c, "x.deb", deb) ==> !Reached(directory, c, "x.deb")
  {
    var directory := Beside(deb, Regular(Unreadable(bytes)), evidence);
    OrderOfExample(directory);
    hide Place, Before, Listed, Vouches, Shadowed, Beside;
    NoLinksNoShadow(directory, "x.deb");
    assert Breaking(directory, "a.json", "x.deb");
    forall c | Available(directory, c, "x.deb", deb)
      ensures !Reached(directory, c, "x.deb")
    {
      assert c == "b.json";
    }
  }

  lemma NoLinksNoShadow(directory: Directory, name: string)
    requires forall d <- directory :: directory[d].Regular?
    ensures forall c :: !Shadowed(directory, name, c)
  {
  }

  /** In a directory with these two files the first is looked at before the second. */
  lemma OrderOfExample(directory: Directory)
    requires "a.json" in directory && "b.json" in directory
    ensures Listed(directory, "x.deb", "a.json") && Listed(directory, "x.deb", "b.json")
    ensures Before("x.deb", "a.json", "b.json")
  {
    NamedFromX();
    assert "a.json"[0] == 'a' && "b.json"[0] == 'b';
    assert "a.json"[1..] == ".json" && EndsWith("a.json", ".json");
    assert "b.json"[1..] == ".json" && EndsWith("b.json", ".json");
  }

  lemma NamedFromX()
    ensures forall c :: Place("x.deb", c) < 3 ==> c != "" && c[0] == 'x'
  {
    var stem := RemoveSuffix("x.deb", ".deb");
    assert "x.deb"[1..] == ".deb" && stem == "x";
    assert RFind("x.deb", '.') == 1 by {
      assert "x.deb"[..4] == "x.de" && "x.de"[..3] == "x.d" && "x.d"[..2] == "x.";
      assert RFind("x.", '.') == 1 && RFind("x.d", '.') == 1 && RFind("x.de", '.') == 1;
    }
    assert WithJson("x.deb")[0] == 'x' && (stem + ".evidence.json")[0] == 'x' && (stem + ".provenance.json")[0] == 'x';
  }

  /** A link that is looked at first hides the only document. */
  lemma HiddenByLink(directory: Directory, first: string, only: string, name: string, deb: File)
    requires deb.Deb? && first in directory && directory[first].Link? && directory[first].path == Here(only)
    requires Listed(directory, name, first) && Before(name, first, only)
    requires forall c <- directory :: c != only ==> directory[c].Link? || !directory[c].file.Json?
    ensures forall c :: !Available(directory, c, name, deb)
  {
    hide Place, Before, Listed, Vouches;
    assert Shadowed(directory, name, only);
    forall c
      ensures !Available(directory, c, name, deb)
    {
      assert Suits(directory, c, name, deb) ==> c == only;
    }
  }

  /** The input on which it misses valid evidence: a link that sorts before the file it leads to. */
  lemma LinkHidesEvidence(deb: File, evidence: Evidence)
    requires deb.Deb? && Vouches(evidence, "x.deb", deb)
    ensures var directory := Beside(deb, Link(Some(Json(evidence)), Here("b.json")), evidence);
            && Suits(directory, "b.json", "x.deb", deb)
            && forall c :: !Available(directory, c, "x.deb", deb)
  {
    var directory := Beside(deb, Link(Some(Json(evidence)), Here("b.json")), evidence);
    OrderOfExample(directory);
    hide Place, Before, Listed, Vouches, Beside;
    HiddenByLink(directory, "a.json", "b.json", "x.deb", deb);
  }

  // ---------------------------------------------------------------- the project tree

  function FamilyOf(packages: Directory, spec: Spec): (r: set<string>)
    ensures forall n :: n in r <==> n in packages && InFamily(spec, n)
  {
    set n | n in packages && InFamily(spec, n)
  }

  function Regulars(files: map<string, File>): (r: Directory)
    ensures r.Keys == files.Keys && forall n <- files :: r[n] == Regular(files[n])
  {
    map n | n in files :: Regular(files[n])
  }

  /** The profile speaks of this very file under this name. */
  predicate Describes(p: Profile, name: string, file: File) {
    && p.artifact == InPackages(name) && p.sha256 == Some(Digest(file))
    && file.Deb? && p.name == file.package && p.version == file.version && p.architecture == file.architecture
  }

  /** A release of the component that matches its profile. */
  ghost predicate Matching(component: string, directory: Directory, name: string, profile: Option<Profile>) {
    && component in SPECS && profile.Some?
    && name in directory && directory[name].Regular? && directory[name].file.Deb?
    && var deb := directory[name].file;
    && deb.package == SPECS[component].package == profile.value.name
    && deb.version == profile.value.version && deb.architecture == profile.value.architecture
  }

  /** Such a release with evidence that vouches for it and that the search gets to. */
  ghost predicate Importable(component: string, directory: Directory, name: string, profile: Option<Profile>) {
    && Matching(component, directory, name, profile)
    && exists c :: Available(directory, c, name, directory[name].file) && Reached(directory, c, name)
  }

  /** Such a release beside a file that ends the search before any evidence for it. */
  ghost predicate BreaksOff(component: string, directory: Directory, name: string, profile: Option<Profile>) {
    && Matching(component, directory, name, profile)
    && (exists d :: Breaking(directory, d, name))
    && forall c :: Available(directory, c, name, directory[name].file) ==> !Reached(directory, c, name)
  }

  /** An Agent release of the profile's package and architecture beside its provenance. */
  ghost predicate AgentImportable(
    directory: Directory, name: string, packages: Directory, profile: Option<Profile>)
  {
    && profile.Some?
    && name in directory && directory[name].Regular? && directory[name].file.Deb?
    && directory[name].file.package == profile.value.name
    && directory[name].file.architecture == profile.value.architecture
    && ProvenanceOf(name) in directory && !Dangling(directory[ProvenanceOf(name)])
    && !Breaks(Contents(directory[ProvenanceOf(name)]))
    && forall n <- FamilyOf(packages, AGENT) :: !Dangling(packages[n])
  }

  predicate Dangling(node: Node) {
    node.Link? && node.target.None?
  }

  function Contents(node: Node): File
    requires !Dangling(node)
  {
    if node.Regular? then node.file else node.target.value
  }

  /** What the component import copies aside: the regular files of the family. */
  function Backups(packages: Directory, spec: Spec): (r: map<string, File>)
    ensures forall n :: n in r <==> n in packages && InFamily(spec, n) && packages[n].Regular?
    ensures forall n <- r :: r[n] == packages[n].file
  {
    map n | n in FamilyOf(packages, spec) && packages[n].Regular? :: packages[n].file
  }

  /** What the Agent import copies aside: every file of the family, links followed. */
  function Followed(packages: Directory, spec: Spec): (r: map<string, File>)
    requires forall n <- FamilyOf(packages, spec) :: !Dangling(packages[n])
    ensures r.Keys == FamilyOf(packages, spec)
    ensures forall n <- r :: r[n] == Contents(packages[n])
  {
    map n | n in FamilyOf(packages, spec) :: Contents(packages[n])
  }

  /** The directory after a failure was caught: the family is what was copied aside, and nothing
      else changed but for leftovers under names outside the family. */
  ghost predicate Restored(
    before: Directory, after: Directory, spec: Spec, backups: map<string, File>, leftovers: Directory)
  {
    && (forall n <- leftovers :: !InFamily(spec, n))
    && after == (before - FamilyOf(before, spec)) + leftovers + Regulars(backups)
  }

  predicate AllRegular(before: Directory, spec: Spec) {
    forall n <- FamilyOf(before, spec) :: before[n].Regular?
  }

  /** The packages are as they were exactly if no member of the family was a link and what the attempt
      left under other names was already there. */
  lemma RestoredExactly(
    before: Directory, after: Directory, spec: Spec, backups: map<string, File>, leftovers: Directory)
    requires Restored(before, after, spec, backups, leftovers)
    requires backups.Keys <= FamilyOf(before, spec)
    requires forall n <- FamilyOf(before, spec) :: before[n].Regular? ==> n in backups && backups[n] == before[n].file
    ensures forall n <- leftovers :: !InFamily(spec, n)
    ensures after == before <==>
            AllRegular(before, spec) && (forall n <- leftovers :: n in before && before[n] == leftovers[n])
  {
    var family := FamilyOf(before, spec);
    var kept := Regulars(backups);
    assert forall n <- leftovers :: n in after && after[n] == leftovers[n];
    if AllRegular(before, spec) && forall n <- leftovers :: n in before && before[n] == leftovers[n] {
      forall n
        ensures n in after <==> n in before
        ensures n in before ==> after[n] == before[n]
      {
        assert n in family ==> n in kept && kept[n] == before[n];
      }
      assert after == before;
    }
    if after == before {
      forall n <- family
        ensures before[n].Regular?
      {
        assert n !in leftovers && n in after;
        assert n in kept;
      }
    }
  }

  function Replaced(before: Directory, spec: Spec, name: string, deb: File, evidence: string, doc: File): Directory {
    (before - FamilyOf(before, spec))[name := Regular(deb)][evidence := Regular(doc)]
  }

  /** Nothing outside the family changed but under the names being written. */
  ghost predicate Outside(before: Directory, after: Directory, spec: Spec, written: set<string>) {
    forall n :: !InFamily(spec, n) ==>
      && (n in before ==> n in after)
      && (n !in written ==> (n in after ==> n in before) && (n in before ==> after[n] == before[n]))
  }

  function Leftovers(after: Directory, spec: Spec, written: set<string>): Directory {
    map n | n in after && n in written && !InFamily(spec, n) :: after[n]
  }

  lemma RestoredFrom(before: Directory, middle: Directory, after: Directory, spec: Spec,
                     backups: map<string, File>, written: set<string>)
    requires Outside(before, middle, spec, written)
    requires after == middle - FamilyOf(middle, spec) + Regulars(backups)
    requires forall n <- backups :: InFamily(spec, n)
    ensures Restored(before, after, spec, backups, Leftovers(middle, spec, written))
  {
    var left := Leftovers(middle, spec, written);
    assert middle - FamilyOf(middle, spec) == (before - FamilyOf(before, spec)) + left;
  }

  /** The directory after a failure that came when both files had been copied. */
  function AfterFailure(before: Directory, spec: Spec, backups: map<string, File>,
                        name: string, deb: File, evidence: string, doc: File): Directory
  {
    var outside := before - FamilyOf(before, spec);
    var first := if InFamily(spec, name) then outside else outside[name := Regular(deb)];
    var second := if InFamily(spec, evidence) then first else first[evidence := Regular(doc)];
    second + Regulars(backups)
  }

  /** The file's name falls under the family's globs, or it is already there. */
  predicate LeavesNoTrace(before: Directory, spec: Spec, name: string, file: File) {
    InFamily(spec, name) || (name in before && before[name] == Regular(file))
  }

  /** When such a failure leaves the packages exactly as they were, told from the call's own
      arguments. */
  lemma FailureRestoresExactly(before: Directory, spec: Spec, backups: map<string, File>,
                               name: string, deb: File, evidence: string, doc: File)
    requires name != evidence && backups.Keys <= FamilyOf(before, spec)
    requires forall n <- FamilyOf(before, spec) :: before[n].Regular? ==> n in backups && backups[n] == before[n].file
    ensures AfterFailure(before, spec, backups, name, deb, evidence, doc) == before <==>
            && AllRegular(before, spec)
            && LeavesNoTrace(before, spec, name, deb) && LeavesNoTrace(before, spec, evidence, doc)
  {
    var after := AfterFailure(before, spec, backups, name, deb, evidence, doc);
    var kept := Regulars(backups);
    if && AllRegular(before, spec)
       && LeavesNoTrace(before, spec, name, deb) && LeavesNoTrace(before, spec, evidence, doc) {
      forall n
        ensures n in after <==> n in before
        ensures n in before ==> after[n] == before[n]
      {
        assert n in FamilyOf(before, spec) ==> n in kept && kept[n] == before[n];
      }
      assert after == before;
    }
    if after == before {
      assert !InFamily(spec, name) ==> name in after && after[name] == Regular(deb);
      assert !InFamily(spec, evidence) ==> evidence in after && after[evidence] == Regular(doc);
      forall n <- FamilyOf(before, spec)
        ensures before[n].Regular?
      {
        assert n in after && n in kept;
      }
    }
  }

  lemma AfterFailureFrom(before: Directory, middle: Directory, spec: Spec, backups: map<string, File>,
                         name: string, deb: File, evidence: string, doc: File)
    requires name != evidence && middle == Replaced(before, spec, name, deb, evidence, doc)
    ensures middle - FamilyOf(middle, spec) + Regulars(backups) ==
            AfterFailure(before, spec, backups, name, deb, evidence, doc)
  {
    var outside := before - FamilyOf(before, spec);
    var first := if InFamily(spec, name) then outside else outside[name := Regular(deb)];
    var second := if InFamily(spec, evidence) then first else first[evidence := Regular(doc)];
    assert middle - FamilyOf(middle, spec) == second;
  }

  lemma ListedIsJson(directory: Directory, name: string, c: string)
    requires Listed(directory, name, c)
    ensures c != "" && c[|c| - 1] == 'n'
  {
    if EndsWith(c, ".json") {
      assert c[|c| - 5..][4] == 'n';
    }
  }

  /** In a directory with a release and one document, that document is found if it suits. */
  lemma OnlyEvidence(directory: Directory, name: string, evidence: string)
    requires directory.Keys == {name, evidence} && directory[name].Regular? && directory[name].file.Deb?
    requires EndsWith(evidence, ".json") && name != "" && name[|name| - 1] == 'b'
    requires Suits(directory, evidence, name, directory[name].file)
    ensures Chosen(directory, evidence, name, directory[name].file) && Reached(directory, evidence, name)
  {
    hide Place, Before, Vouches, EndsWith;
    assert !Shadowed(directory, name, evidence);
    forall d
      ensures !Breaking(directory, d, name)
    {
      if Listed(directory, name, d) {
        ListedIsJson(directory, name, d);
      }
    }
  }

  lemma ExampleNames()
    ensures InFamily(SPECS["vpn"], "xaac-thin-client-vpn_1.deb") && !InFamily(SPECS["vpn"], "build.json")
    ensures EndsWith("build.json", ".json") && "xaac-thin-client-vpn_1.deb"[25] == 'b'
    ensures |"xaac-thin-client-vpn_1.deb"| == 26 && "xaac-thin-client-vpn_1.deb" != "build.json"
  {
    var name := "xaac-thin-client-vpn_1.deb";
    assert "build.json"[5..] == ".json";
    assert name[..21] == "xaac-thin-client-vpn_" && name[22..] == ".deb";
    assert name[0] == 'x' && "build.json"[0] == 'b';
    assert !("xaac-thin-client-vpn_" <= "build.json") && !("xaac-thin-client-vpn" <= "build.json");
  }

  /** An importable release whose failure leaves a file behind: its evidence has a name outside the
      family's glob. */
  lemma EvidenceLeftBehind()
    ensures var deb := Deb("xaac-thin-client-vpn", "1", "amd64", false, "payload");
            var doc := Json(Evidence(
              Some("xaac-thin-client-vpn"), "1", None, NoArtifact, None, None, Some(Digest(deb)), None, None));
            var name := "xaac-thin-client-vpn_1.deb";
            var directory: Directory := map[name := Regular(deb), "build.json" := Regular(doc)];
            var profile := Profile("xaac-thin-client-vpn", "1", "amd64", Elsewhere("none"), None);
            && Importable("vpn", directory, name, Some(profile)) && InFamily(SPECS["vpn"], name)
            && Chosen(directory, "build.json", name, deb)
            && AfterFailure(map[], SPECS["vpn"], map[], name, deb, "build.json", doc) != map[]
  {
    hide Place, Before, EndsWith, InFamily, Reached, Breaking, Available, BaseName, AfterFailure;
    var deb := Deb("xaac-thin-client-vpn", "1", "amd64", false, "payload");
    var doc := Json(Evidence(
      Some("xaac-thin-client-vpn"), "1", None, NoArtifact, None, None, Some(Digest(deb)), None, None));
    var name := "xaac-thin-client-vpn_1.deb";
    var directory: Directory := map[name := Regular(deb), "build.json" := Regular(doc)];
    ExampleNames();
    OnlyEvidence(directory, name, "build.json");
    assert Available(directory, "build.json", name, deb);
    FailureRestoresExactly(map[], SPECS["vpn"], map[], name, deb, "build.json", doc);
  }

  /** How far an attempt had come when it raised. */
  datatype Stage =
    | Clearing                                       // nothing had been copied
    | Copying                                        // one of the two copies was cut short
    | Copied                                         // both files were in place

  datatype Result =
    | Refused                                        // before anything was touched
    | Imported(artifact: string, evidence: string)
    | Failed(evidence: string, stage: Stage)         // the import's own error, after restoring
    | Escaped                                        // any other exception, or a power cut

  class Repository {
    var packages: Directory
    var profile: Option<Profile>                     // None: not readable

    /** No step since the object was made has failed, and no check refused what holds. */
    ghost var calm: bool

    /** The attempt was undone: the handler of a failure ran to its end. */
    ghost var undone: bool

    constructor (packages: Directory, profile: Option<Profile>)
      ensures this.packages == packages && this.profile == profile && calm
    {
      this.packages, this.profile, calm, undone := packages, profile, true, false;
    }

    method Unlink(name: string) returns (o: Outcome)
      modifies this`packages, this`calm
      ensures calm <==> old(calm) && o.Done?
      ensures o.Done? ==> packages == old(packages) - {name}
      ensures packages == old(packages) || packages == old(packages) - {name}
      ensures o.Raised? ==> packages == old(packages)
    {
      o := *;
      var reached: bool := *;
      if o.Done? || (o.Crashed? && reached) {
        packages := packages - {name};
      }
      calm := calm && o.Done?;
    }

    /** `copy2` into the package directory; cut short it leaves any contents under the name. */
    method CopyIn(name: string, file: File) returns (o: Outcome)
      requires name in packages ==> packages[name].Regular?
      modifies this`packages, this`calm
      ensures calm <==> old(calm) && o.Done?
      ensures o.Done? ==> packages == old(packages)[name := Regular(file)]
      ensures forall n :: n != name ==>
                (n in packages <==> n in old(packages)) && (n in packages ==> packages[n] == old(packages)[n])
      ensures name in old(packages) ==> name in packages
      ensures name in packages ==> packages[name].Regular?
    {
      o := *;
      var torn: File, created: bool := *, *;
      if o.Done? {
        packages := packages[name := Regular(file)];
      } else if created {
        packages := packages[name := Regular(torn)];
      }
      calm := calm && o.Done?;
    }

    /** `_write_profile`: an atomic replacement. */
    method WriteProfile(p: Profile) returns (o: Outcome)
      modifies this`profile, this`calm
      ensures calm <==> old(calm) && o.Done?
      ensures o.Done? ==> profile == Some(p)
      ensures profile == old(profile) || profile == Some(p)
    {
      o := *;
      var reached: bool := *;
      if o.Done? || (o.Crashed? && reached) {
        profile := Some(p);
      }
      calm := calm && o.Done?;
    }

    method CopyProfileBack(p: Profile) returns (o: Outcome)
      modifies this`profile, this`calm
      ensures calm <==> old(calm) && o.Done?
      ensures o.Done? ==> profile == Some(p)
    {
      o := *;
      profile := *;
      if o.Done? {
        profile := Some(p);
      }
      calm := calm && o.Done?;
    }

    method UnlinkFamily(spec: Spec) returns (o: Outcome)
      modifies this`packages, this`calm
      ensures calm <==> old(calm) && o.Done?
      ensures o.Done? ==> packages == old(packages) - FamilyOf(old(packages), spec)
      ensures packages.Keys <= old(packages).Keys
      ensures forall n <- packages :: packages[n] == old(packages)[n]
      ensures forall n <- old(packages) :: !InFamily(spec, n) ==> n in packages
    {
      var existing := SortedSet(FamilyOf(packages, spec));
      ghost var before := packages;
      o := Done;
      for i := 0 to |existing|
        invariant packages == before - set n | n in existing[..i]
        invariant o.Done? && (calm <==> old(calm))
      {
        assert existing[..i + 1] == existing[..i] + [existing[i]];
        o := Unlink(existing[i]);
        if o.IsFailure() {
          return;
        }
      }
      assert existing[..|existing|] == existing;
      assert (set n | n in existing) == FamilyOf(before, spec);
    }

    method CopyAllIn(files: map<string, File>) returns (o: Outcome)
      requires forall n <- files :: n in packages ==> packages[n].Regular?
      modifies this`packages, this`calm
      ensures calm <==> old(calm) && o.Done?
      ensures o.Done? ==> packages == old(packages) + Regulars(files)
    {
      var rest := files.Keys;
      ghost var before := packages;
      o := Done;
      while rest != {}
        invariant rest <= files.Keys && o.Done? && (calm <==> old(calm))
        invariant packages == before + (Regulars(files) - rest)
        decreases |rest|
      {
        var n :| n in rest;
        o := CopyIn(n, files[n]);
        if o.IsFailure() {
          return;
        }
        rest := rest - {n};
      }
      assert Regulars(files) - {} == Regulars(files);
    }

    /** The handler of a caught failure: clear the family, then put the copies back. */
    method Restore(spec: Spec, p: Profile, backups: map<string, File>) returns (o: Outcome)
      requires forall n <- backups :: InFamily(spec, n)
      modifies this
      ensures calm <==> old(calm) && o.Done?
      ensures undone <==> o.Done?
      ensures o.Done? ==> profile == Some(p)
      ensures o.Done? ==> packages == old(packages) - FamilyOf(old(packages), spec) + Regulars(backups)
    {
      undone := false;
      o := UnlinkFamily(spec);
      if o.IsFailure() {
        return;
      }
      o := CopyProfileBack(p);
      if o.IsFailure() {
        return;
      }
      o := CopyAllIn(backups);
      undone := o.Done?;
    }

    /** The profile names a package file of the tree with the metadata and digest it states. */
    predicate ProfileHolds()
      reads this
    {
      && profile.Some? && profile.value.artifact.InPackages?
      && var n := profile.value.artifact.name;
      && n in packages && packages[n].Regular? && packages[n].file.Deb?
      && packages[n].file.package == profile.value.name
      && packages[n].file.version == profile.value.version
      && packages[n].file.architecture == profile.value.architecture
      && profile.value.sha256 == Some(Digest(packages[n].file))
    }

    /** `_validate_profile_artifact`, and the Agent's release checks: they may refuse for more. */
    method Validate() returns (o: Outcome)
      modifies this`calm
      ensures calm ==> old(calm)
      ensures o.Done? && old(calm) ==> calm
      ensures calm && ProfileHolds() ==> o.Done?
      ensures o.Done? ==> ProfileHolds()
    {
      o := *;
      calm := calm && o.Done?;
      if o.Done? && !ProfileHolds() {
        o := Raised;
      }
    }

    method CopyBoth(name: string, deb: File, evidence: string, doc: File) returns (o: Outcome)
      requires name in packages ==> packages[name].Regular?
      requires evidence in packages ==> packages[evidence].Regular?
      modifies this`packages, this`calm
      ensures calm <==> old(calm) && o.Done?
      ensures o.Done? ==> packages == old(packages)[name := Regular(deb)][evidence := Regular(doc)]
      ensures forall n :: n != name && n != evidence ==>
                (n in packages <==> n in old(packages)) && (n in packages ==> packages[n] == old(packages)[n])
      ensures forall n <- old(packages) :: n in packages
    {
      o := CopyIn(name, deb);
      if o.Done? {
        o := CopyIn(evidence, doc);
      }
    }

    /** The body of the import's `try`. */
    method Replace(spec: Spec, name: string, deb: File, evidence: string, doc: File, p: Profile)
      returns (o: Outcome, stage: Stage)
      requires forall n <- packages :: packages[n].Link? ==> InFamily(spec, n)
      modifies this`packages, this`profile, this`calm
      ensures calm ==> old(calm)
      ensures o.Done? && old(calm) ==> calm
      ensures calm && Describes(p, name, deb) && name != evidence ==> o.Done?
      ensures Outside(old(packages), packages, spec, if stage.Clearing? then {} else {name, evidence})
      ensures stage.Copied? ==> packages == Replaced(old(packages), spec, name, deb, evidence, doc)
      ensures o.Done? ==> stage.Copied? && ProfileHolds() && profile == Some(p)
    {
      hide InFamily;
      stage := Clearing;
      o := UnlinkFamily(spec);
      if o.IsFailure() {
        return;
      }
      stage := Copying;
      o := CopyBoth(name, deb, evidence, doc);
      if o.IsFailure() {
        return;
      }
      stage := Copied;
      o := WriteProfile(p);
      if o.IsFailure() {
        return;
      }
      o := Validate();
    }

    /** The transaction both importers share: replace, and restore when that raises. */
    method Transact(spec: Spec, name: string, deb: File, evidence: string, doc: File, p: Profile,
                    backups: map<string, File>)
      returns (r: Result)
      requires forall n <- packages :: packages[n].Link? ==> InFamily(spec, n)
      requires forall n <- backups :: InFamily(spec, n)
      requires profile.Some? && name != evidence && !undone
      modifies this
      ensures calm ==> old(calm)
      ensures r.Imported? && old(calm) ==> calm
      ensures r.Failed? <==> undone
      ensures calm && Describes(p, name, deb) ==> r.Imported?
      ensures r.Imported? || r.Failed? || r.Escaped?
      ensures r.Imported? ==> r == Imported(name, evidence) && ProfileHolds() && profile == Some(p)
      ensures r.Imported? ==> packages == Replaced(old(packages), spec, name, deb, evidence, doc)
      ensures r.Failed? ==> profile == old(profile) && r.evidence == evidence
      ensures r.Failed? ==> exists leftovers: Directory ::
                && leftovers.Keys <= (if r.stage.Clearing? then {} else {name, evidence})
                && Restored(old(packages), packages, spec, backups, leftovers)
      ensures r.Failed? && r.stage.Copied? ==>
                packages == AfterFailure(old(packages), spec, backups, name, deb, evidence, doc)
    {
      ghost var before := packages;
      var saved := profile.value;
      var o, stage := Replace(spec, name, deb, evidence, doc, p);
      match o
      case Done => r := Imported(name, evidence);
      case Crashed => r := Escaped;
      case Raised =>
        ghost var middle := packages;
        var restored := Restore(spec, saved, backups);
        if restored.IsFailure() {
          return Escaped;
        }
        ghost var written := if stage.Clearing? then {} else {name, evidence};
        RestoredFrom(before, middle, packages, spec, backups, written);
        assert Leftovers(middle, spec, written).Keys <= written;
        if stage.Copied? {
          AfterFailureFrom(before, middle, spec, backups, name, deb, evidence, doc);
        }
        r := Failed(evidence, stage);
    }

    /** Everything that is checked before anything is touched. */
    method Accept(component: string, directory: Directory, name: string) returns (r: Search)
      ensures !r.NotFound? ==> Matching(component, directory, name, profile)
      ensures r.Found? ==>
                && Suits(directory, r.evidence, name, directory[name].file)
                && Chosen(directory, r.evidence, name, directory[name].file)
                && Reached(directory, r.evidence, name) && r.evidence != name
      ensures r.Found? <==> Importable(component, directory, name, profile)
      ensures r.Broken? <==> BreaksOff(component, directory, name, profile)
    {
      r := NotFound;
      if component !in SPECS || name !in directory || directory[name].Link? || profile.None? {
        return;
      }
      var spec, deb, p := SPECS[component], directory[name].file, profile.value;
      if p.name != spec.package || !deb.Deb? || deb.package != spec.package
         || deb.version != p.version || deb.architecture != p.architecture {
        return;
      }
      r := LoadMatchingEvidence(directory, name, deb);
    }

    /** `import_component_release`.  `directory` and `name` are where the given path leads once its
        links are followed.  On success the profile names the imported file, with matching metadata and
        digest, evidence that vouches for it lies beside it, and no other file of the family remains.
        On a caught failure the profile is restored, and the packages are too when the names match the
        family and no member was a link.  A search that breaks off leaves everything untouched. */
    method Import(component: string, directory: Directory, name: string) returns (r: Result)
      requires component in SPECS ==> forall n <- packages :: packages[n].Link? ==> InFamily(SPECS[component], n)
      modifies this
      ensures calm ==> old(calm)
      ensures r.Imported? && old(calm) ==> calm
      ensures r.Failed? <==> undone
      ensures calm && Importable(component, directory, name, old(profile)) ==> r.Imported?
      ensures r.Refused? ==>
                && packages == old(packages) && profile == old(profile)
                && !Importable(component, directory, name, old(profile))
      ensures BreaksOff(component, directory, name, old(profile)) ==>
                r.Escaped? && packages == old(packages) && profile == old(profile)
      ensures r.Refused? <==>
                && !Importable(component, directory, name, old(profile))
                && !BreaksOff(component, directory, name, old(profile))
      ensures r.Imported? ==> Released(SPECS[component], directory, name, r, old(packages), old(profile))
      ensures r.Imported? ==> InPlainTerms(component, directory, name, r.evidence, old(packages), packages)
      ensures r.Imported? ==> old(profile).Some? && SameRelease(directory[name].file, old(profile).value)
      ensures r.Failed? ==>
                && Importable(component, directory, name, old(profile))
                && profile == old(profile) && Chosen(directory, r.evidence, name, directory[name].file)
      ensures r.Failed? && AllRegular(old(packages), SPECS[component])
              && InFamily(SPECS[component], name) && InFamily(SPECS[component], r.evidence) ==>
                packages == old(packages)
      ensures r.Failed? && r.stage.Clearing? ==>
                (packages == old(packages) <==> AllRegular(old(packages), SPECS[component]))
      ensures r.Failed? && r.stage.Copied? ==>
                (packages == old(packages) <==>
                 && AllRegular(old(packages), SPECS[component])
                 && LeavesNoTrace(old(packages), SPECS[component], name, directory[name].file)
                 && LeavesNoTrace(old(packages), SPECS[component], r.evidence, directory[r.evidence].file))
    {
      hide ProfileHolds, Restored, Vouches, Importable, BreaksOff, InFamily, Chosen, Reached, AfterFailure,
        LeavesNoTrace, AllRegular;
      undone := false;
      var found := Accept(component, directory, name);
      ImportableIsOne(component, directory, name, profile);
      if !found.Found? {
        return if found.Broken? then Escaped else Refused;
      }
      var spec := SPECS[component];
      var deb, p := directory[name].file, profile.value;
      var backups := Backups(packages, spec);
      var staged: bool := *;
      calm := calm && staged;
      if !staged {
        return Escaped;
      }
      var updated := p.(artifact := InPackages(name), sha256 := Some(Digest(deb)));
      r := Transact(spec, name, deb, found.evidence, directory[found.evidence].file, updated, backups);
      if r.Failed? {
        ghost var leftovers: Directory :|
          && leftovers.Keys <= (if r.stage.Clearing? then {} else {name, found.evidence})
          && Restored(old(packages), packages, spec, backups, leftovers);
        RestoredExactly(old(packages), packages, spec, backups, leftovers);
        NoLeftovers(spec, leftovers, name, found.evidence);
        FailureRestoresExactly(old(packages), spec, backups, name, deb, found.evidence, directory[found.evidence].file);
      }
      if r.Imported? {
        ReleasedMeans(component, directory, name, r.evidence, old(packages), packages);
      }
    }

    /** `import_agent_release`, for a path whose links have been followed; a linked provenance is
        imported as the file it leads to.  Its copies follow links, so a failure turns a linked member
        of the family into a file with the same contents; a dangling link stops it before any change. */
    method ImportAgent(directory: Directory, name: string) returns (r: Result)
      requires forall n <- packages :: packages[n].Link? ==> InFamily(AGENT, n)
      modifies this
      ensures calm ==> old(calm)
      ensures r.Imported? && old(calm) ==> calm
      ensures r.Failed? <==> undone
      ensures calm && AgentImportable(directory, name, old(packages), old(profile)) ==> r.Imported?
      ensures r.Refused? ==> packages == old(packages) && profile == old(profile)
      ensures ProvenanceOf(name) in directory && !Dangling(directory[ProvenanceOf(name)])
              && Breaks(Contents(directory[ProvenanceOf(name)])) ==>
                (r.Refused? || r.Escaped?) && packages == old(packages) && profile == old(profile)
      ensures (exists n <- FamilyOf(old(packages), AGENT) :: Dangling(old(packages)[n])) ==>
                (r.Refused? || r.Escaped?) && packages == old(packages) && profile == old(profile)
      ensures r.Imported? ==>
                && r == Imported(name, ProvenanceOf(name)) && ProfileHolds()
                && name in directory && directory[name].Regular?
                && name in packages && packages[name] == directory[name]
                && ProvenanceOf(name) in directory && !Dangling(directory[ProvenanceOf(name)])
                && ProvenanceOf(name) in packages
                && packages[ProvenanceOf(name)] == Regular(Contents(directory[ProvenanceOf(name)]))
                && (forall n <- packages :: InFamily(AGENT, n) ==> n == name || n == ProvenanceOf(name))
      ensures r.Imported? ==>
                && r.evidence == name + ".provenance.json" && directory[name].file.Deb? && old(profile).Some?
                && directory[name].file.package == old(profile).value.name
                && directory[name].file.architecture == old(profile).value.architecture
                && profile == Some(old(profile).value.(
                     version := directory[name].file.version, artifact := InPackages(name),
                     sha256 := Some(Digest(directory[name].file))))
                && forall n :: !InFamily(AGENT, n) && n != name && n != r.evidence ==>
                     (n in packages <==> n in old(packages)) && (n in packages ==> packages[n] == old(packages)[n])
      ensures r.Failed? ==>
                && profile == old(profile)
                && name in directory && directory[name].Regular?
                && ProvenanceOf(name) in directory && !Dangling(directory[ProvenanceOf(name)])
      ensures r.Failed? ==> forall n <- old(packages) :: InFamily(AGENT, n) ==>
                n in packages && packages[n] == Regular(Contents(old(packages)[n]))
      ensures r.Failed? && Globs(name, AGENT.artifactPrefix, ".deb") && AllRegular(old(packages), AGENT) ==>
                packages == old(packages)
      ensures r.Failed? && r.stage.Copied? ==>
                (packages == old(packages) <==>
                 && AllRegular(old(packages), AGENT)
                 && LeavesNoTrace(old(packages), AGENT, name, directory[name].file)
                 && LeavesNoTrace(old(packages), AGENT, ProvenanceOf(name), Contents(directory[ProvenanceOf(name)])))
    {
      hide ProfileHolds, Restored, Globs, AfterFailure, LeavesNoTrace, AllRegular;
      undone := false;
      var provenance := ProvenanceOf(name);
      var canonical: bool := *;
      calm := calm && canonical;
      if profile.None? || !canonical || name !in directory || directory[name].Link? || !directory[name].file.Deb?
         || provenance !in directory || Dangling(directory[provenance]) {
        return Refused;
      }
      var deb, doc, p := directory[name].file, Contents(directory[provenance]), profile.value;
      if Breaks(doc) || exists n <- FamilyOf(packages, AGENT) :: Dangling(packages[n]) {
        return Escaped;
      }
      var backups := Followed(packages, AGENT);
      var staged: bool := *;
      calm := calm && staged;
      if !staged {
        return Escaped;
      }
      var updated := p.(version := deb.version, artifact := InPackages(name), sha256 := Some(Digest(deb)));
      NotItsProvenance(name);
      r := Transact(AGENT, name, deb, provenance, doc, updated, backups);
      if r.Failed? {
        ghost var leftovers: Directory :|
          && leftovers.Keys <= (if r.stage.Clearing? then {} else {name, provenance})
          && Restored(old(packages), packages, AGENT, backups, leftovers);
        FamilyIsBack(old(packages), packages, backups, leftovers);
        RestoredExactly(old(packages), packages, AGENT, backups, leftovers);
        FailureRestoresExactly(old(packages), AGENT, backups, name, deb, provenance, doc);
        if Globs(name, AGENT.artifactPrefix, ".deb") {
          ProvenanceInFamily(name);
          NoLeftovers(AGENT, leftovers, name, provenance);
        }
      }
    }

    /** What a successful import leaves. */
    ghost predicate Released(
      spec: Spec, directory: Directory, name: string, r: Result, before: Directory, was: Option<Profile>)
      reads this
    {
      && r.Imported? && r.artifact == name && name in directory && directory[name].Regular? && was.Some?
      && ProfileHolds() && directory[name].file.Deb?
      && profile == Some(was.value.(
           artifact := InPackages(name), sha256 := Some(Digest(directory[name].file))))
      && packages[name] == directory[name]
      && Chosen(directory, r.evidence, name, directory[name].file)
      && r.evidence in packages && packages[r.evidence] == directory[r.evidence]
      && (forall n <- packages :: InFamily(spec, n) ==> n == name || n == r.evidence)
      && (forall n :: !InFamily(spec, n) && n != name && n != r.evidence ==>
            (n in packages <==> n in before) && (n in before ==> packages[n] == before[n]))
    }
  }

  /** The file is the release the profile already spoke of. */
  ghost predicate SameRelease(file: File, was: Profile) {
    file.Deb? && file.package == was.name && file.version == was.version && file.architecture == was.architecture
  }

  /** What that says of the files, each component's told by its literal names: the imported file is a
      release of that package, the document beside it attests it, no other file of the component is
      left, and every other file is as it was. */
  ghost predicate InPlainTerms(component: string, directory: Directory, name: string, evidence: string,
                               before: Directory, after: Directory)
  {
    && name in directory && directory[name].Regular? && directory[name].file.Deb?
    && IsPackageOf(component, directory[name].file.package)
    && evidence in directory && directory[evidence].Regular? && directory[evidence].file.Json?
    && Attests(directory[evidence].file.evidence, name, directory[name].file)
    && (forall n <- after :: BelongsTo(component, n) ==> n == name || n == evidence)
    && (forall n :: !BelongsTo(component, n) && n != name && n != evidence ==>
          (n in after <==> n in before) && (n in before ==> after[n] == before[n]))
  }

  lemma ReleasedMeans(component: string, directory: Directory, name: string, evidence: string,
                      before: Directory, after: Directory)
    requires component in SPECS && name in directory && directory[name].Regular? && directory[name].file.Deb?
    requires directory[name].file.package == SPECS[component].package
    requires Suits(directory, evidence, name, directory[name].file)
    requires forall n <- after :: InFamily(SPECS[component], n) ==> n == name || n == evidence
    requires forall n :: !InFamily(SPECS[component], n) && n != name && n != evidence ==>
               (n in after <==> n in before) && (n in before ==> after[n] == before[n])
    ensures InPlainTerms(component, directory, name, evidence, before, after)
  {
    hide BelongsTo, InFamily, Vouches, Attests, IsPackageOf;
    FamilyIs(component, name);
    VouchesExactly(directory[evidence].file.evidence, name, directory[name].file);
    forall n
      ensures InFamily(SPECS[component], n) <==> BelongsTo(component, n)
    {
      FamilyIs(component, n);
    }
  }

  lemma NoLeftovers(spec: Spec, leftovers: Directory, name: string, evidence: string)
    requires leftovers.Keys <= {name, evidence} && forall n <- leftovers :: !InFamily(spec, n)
    ensures InFamily(spec, name) && InFamily(spec, evidence) ==> leftovers == map[]
  {
    if InFamily(spec, name) && InFamily(spec, evidence) {
      assert leftovers.Keys == {};
    }
  }

  lemma ImportableIsOne(component: string, directory: Directory, name: string, profile: Option<Profile>)
    ensures !(Importable(component, directory, name, profile) && BreaksOff(component, directory, name, profile))
    ensures Importable(component, directory, name, profile) ==> Matching(component, directory, name, profile)
  {
  }

  function ProvenanceOf(name: string): string {
    name + ".provenance.json"
  }

  lemma NotItsProvenance(name: string)
    ensures ProvenanceOf(name) != name
  {
    assert |ProvenanceOf(name)| > |name|;
  }

  lemma ProvenanceInFamily(name: string)
    requires Globs(name, AGENT.artifactPrefix, ".deb")
    ensures InFamily(AGENT, name) && InFamily(AGENT, ProvenanceOf(name))
  {
    var p := ProvenanceOf(name);
    assert p[..|name|] == name;
    assert ".deb" + ".provenance.json" == ".deb.provenance.json";
    assert p[|p| - 20..] == name[|name| - 4..] + ".provenance.json";
  }

  lemma FamilyIsBack(before: Directory, after: Directory, backups: map<string, File>, leftovers: Directory)
    requires forall n <- FamilyOf(before, AGENT) :: !Dangling(before[n])
    requires Restored(before, after, AGENT, backups, leftovers) && backups == Followed(before, AGENT)
    ensures forall n <- before :: InFamily(AGENT, n) ==> n in after && after[n] == Regular(Contents(before[n]))
  {
    forall n <- before | InFamily(AGENT, n)
      ensures n in after && after[n] == Regular(Contents(before[n]))
    {
      assert n in FamilyOf(before, AGENT) && n in Regulars(backups);
    }
  }
}
