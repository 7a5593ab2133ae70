/** Profile inheritance and the package list it resolves to. */
module Profiles {
  import opened Common
  import opened Sorting

  datatype Profile = Profile(name: string, base: Option<string>, packages: seq<string>, excluded: seq<string>)

  /** What each `profiles/<name>/profile.yaml` holds; None is a file that does not parse. */
  type Files = map<string, Option<Profile>>

  datatype LoadError =
    | Missing(name: string)
    | Malformed(name: string)
    | Mismatch(name: string)
    | Overlap(name: string)
    | Cycle(names: seq<string>)

  datatype Result<T> = Ok(value: T) | Err(error: LoadError)

  predicate Overlaps(p: Profile) {
    exists x <- p.packages :: x in p.excluded
  }

  function Load(files: Files, name: string): Result<Profile> {
    if name !in files then Err(Missing(name))
    else if files[name].None? then Err(Malformed(name))
    else
      var p := files[name].value;
      if p.name != name then Err(Mismatch(name)) else if Overlaps(p) then Err(Overlap(name)) else Ok(p)
  }

  // ---------------------------------------------------------------- what the links say

  function Parent(files: Files, p: Profile): Option<Profile> {
    if p.base.None? then None
    else
      var loaded := Load(files, p.base.value);
      if loaded.Ok? then Some(loaded.value) else None
  }

  /** The profile reached from the selected one by following n `extends` links. */
  function Ancestor(files: Files, selected: Profile, n: nat): Option<Profile> {
    if n == 0 then Some(selected)
    else
      var below := Ancestor(files, selected, n - 1);
      if below.None? then None else Parent(files, below.value)
  }

  ghost predicate SameName(files: Files, selected: Profile, i: nat, j: nat) {
    && Ancestor(files, selected, i).Some? && Ancestor(files, selected, j).Some?
    && Ancestor(files, selected, i).value.name == Ancestor(files, selected, j).value.name
  }

  /** Following the links meets some name twice. */
  ghost predicate Repeats(files: Files, selected: Profile) {
    exists i: nat, j: nat :: i < j && SameName(files, selected, i, j)
  }

  /** The whole repeat-free line of ancestors, the oldest first and the selected profile last. */
  ghost predicate IsLineage(chain: seq<Profile>, files: Files, selected: Profile) {
    && chain != [] && chain[0].base.None?
    && (forall k :: 0 <= k < |chain| ==> Ancestor(files, selected, |chain| - 1 - k) == Some(chain[k]))
    && (forall i, j :: 0 <= i < j < |chain| ==> chain[i].name != chain[j].name)
  }

  /** The links lead, without repeats, to a profile whose parent does not load. */
  ghost predicate Stuck(files: Files, selected: Profile, n: nat, error: LoadError) {
    && Ancestor(files, selected, n).Some?
    && Ancestor(files, selected, n).value.base.Some?
    && Load(files, Ancestor(files, selected, n).value.base.value) == Err(error)
    && forall i: nat, j: nat :: i < j <= n ==> !SameName(files, selected, i, j)
  }

  /** The names met one after another, the last of them for the second time. */
  ghost predicate IsCycle(names: seq<string>, files: Files, selected: Profile) {
    && |names| >= 2 && names[|names| - 1] in names[..|names| - 1]
    && forall k :: 0 <= k < |names| ==>
         Ancestor(files, selected, k).Some? && Ancestor(files, selected, k).value.name == names[k]
  }

  lemma {:induction false} NoneBeyond(files: Files, selected: Profile, n: nat, m: nat)
    requires n <= m && Ancestor(files, selected, n).None?
    ensures Ancestor(files, selected, m).None?
    decreases m
  {
    if n < m {
      NoneBeyond(files, selected, n, m - 1);
    }
  }

  lemma NoRepeats(files: Files, selected: Profile, n: nat)
    requires Ancestor(files, selected, n + 1).None?
    requires forall i: nat, j: nat :: i < j <= n ==> !SameName(files, selected, i, j)
    ensures !Repeats(files, selected)
  {
    forall i: nat, j: nat | i < j
      ensures !SameName(files, selected, i, j)
    {
      if j > n {
        NoneBeyond(files, selected, n + 1, j);
      }
    }
  }

  lemma LineageHasNoRepeats(chain: seq<Profile>, files: Files, selected: Profile)
    requires IsLineage(chain, files, selected)
    ensures !Repeats(files, selected)
  {
    var n := |chain| - 1;
    assert Ancestor(files, selected, n) == Some(chain[0]);
    forall i: nat, j: nat | i < j <= n
      ensures !SameName(files, selected, i, j)
    {
      assert Ancestor(files, selected, i) == Some(chain[n - i]) && Ancestor(files, selected, j) == Some(chain[n - j]);
    }
    NoRepeats(files, selected, n);
  }

  /** The same line, told by the profiles alone: each extends the one before it, which is what the
      file of that name holds, and no profile excludes what it asks for. */
  ghost predicate IsChain(chain: seq<Profile>, files: Files, selected: Profile) {
    && chain != [] && chain[|chain| - 1] == selected && chain[0].base == None
    && (forall k :: 1 <= k < |chain| ==> Extends(chain[k], chain[k - 1], files))
    && (forall i, j :: 0 <= i < j < |chain| ==> chain[i].name != chain[j].name)
    && (forall p, x :: p in chain ==> !(x in p.packages && x in p.excluded))
  }

  ghost predicate Extends(p: Profile, parent: Profile, files: Files) {
    p.base == Some(parent.name) && parent.name in files && files[parent.name] == Some(parent)
  }

  lemma ParentIs(files: Files, p: Profile, parent: Profile)
    ensures Parent(files, p) == Some(parent) <==>
            Extends(p, parent, files) && forall x :: !(x in parent.packages && x in parent.excluded)
  {
    assert !Overlaps(parent) <==> forall x :: !(x in parent.packages && x in parent.excluded);
  }

  lemma WholeIs(p: Profile)
    ensures Whole(p) <==> !Overlaps(p)
  {
  }

  /** Both tell the same line. */
  lemma LineageIsChain(chain: seq<Profile>, files: Files, selected: Profile)
    requires !Overlaps(selected)
    ensures IsLineage(chain, files, selected) <==> IsChain(chain, files, selected)
  {
    hide Parent, Extends, Overlaps;
    WholeIs(selected);
    if IsLineage(chain, files, selected) {
      var n := |chain| - 1;
      assert Ancestor(files, selected, 0) == Some(chain[n]);
      forall k, j | 0 <= k < n && j == k + 1
        ensures Extends(chain[j], chain[k], files) && Whole(chain[k])
      {
        assert Ancestor(files, selected, n - j) == Some(chain[j]);
        assert Ancestor(files, selected, n - k) == Some(chain[k]);
        ParentIs(files, chain[j], chain[k]);
      }
      forall p <- chain
        ensures Whole(p)
      {
        var k :| 0 <= k < |chain| && chain[k] == p;
        assert k < n ==> Extends(chain[k + 1], chain[k], files);
      }
    }
    if IsChain(chain, files, selected) {
      assert forall p <- chain :: Whole(p);
      ChainIsAscended(chain, files, selected, 0);
    }
  }

  /** No package is both asked for and excluded. */
  ghost predicate Whole(p: Profile) {
    forall x :: !(x in p.packages && x in p.excluded)
  }

  lemma {:induction false} ChainIsAscended(chain: seq<Profile>, files: Files, selected: Profile, k: nat)
    requires chain != [] && chain[|chain| - 1] == selected && k < |chain|
    requires forall i :: 1 <= i < |chain| ==> Extends(chain[i], chain[i - 1], files)
    requires forall p <- chain :: Whole(p)
    ensures forall i :: k <= i < |chain| ==> Ancestor(files, selected, |chain| - 1 - i) == Some(chain[i])
    decreases |chain| - k
  {
    hide Parent, Extends;
    if k < |chain| - 1 {
      ChainIsAscended(chain, files, selected, k + 1);
      assert Extends(chain[k + 1], chain[(k + 1) - 1], files);
      assert chain[k] in chain && Whole(chain[k]);
      ParentIs(files, chain[k + 1], chain[k]);
      assert Ancestor(files, selected, |chain| - 1 - (k + 1)) == Some(chain[k + 1]);
    }
  }

  /** What is wrong with a profile, by its name. */
  ghost predicate Fails(files: Files, name: string, error: LoadError) {
    match error
    case Missing(n) => n == name && name !in files
    case Malformed(n) => n == name && name in files && files[name] == None
    case Mismatch(n) => n == name && name in files && files[name].Some? && files[name].value.name != name
    case Overlap(n) => n == name && name in files && files[name].Some? && files[name].value.name == name
                       && exists x :: x in files[name].value.packages && x in files[name].value.excluded
    case Cycle(_) => false
  }

  /** A profile that nothing is wrong with loads as what its file holds, and no two things are wrong. */
  lemma LoadExactly(files: Files, name: string, error: LoadError)
    ensures Load(files, name) == Err(error) <==> Fails(files, name, error)
  {
    if Fails(files, name, error) && error.Overlap? {
      var x :| x in files[name].value.packages && x in files[name].value.excluded;
    }
  }

  /** The links lead to a profile that names a parent with which something is wrong. */
  lemma StuckMeans(files: Files, selected: Profile, n: nat, error: LoadError)
    requires Stuck(files, selected, n, error)
    ensures exists name :: Fails(files, name, error)
    ensures Ancestor(files, selected, n + 1).None?
  {
    LoadExactly(files, Ancestor(files, selected, n).value.base.value, error);
  }

  /** A line that ends well meets nothing of the kind. */
  lemma NotStuck(chain: seq<Profile>, files: Files, selected: Profile, n: nat, error: LoadError)
    requires IsLineage(chain, files, selected)
    ensures !Stuck(files, selected, n, error)
  {
    var top := |chain| - 1;
    assert Ancestor(files, selected, top) == Some(chain[0]);
    if n < top {
      assert Ancestor(files, selected, n + 1) == Some(chain[top - (n + 1)]);
    } else if n > top {
      NoneBeyond(files, selected, top + 1, n);
    }
    if Stuck(files, selected, n, error) {
      StuckMeans(files, selected, n, error);
    }
  }

  lemma CycleRepeats(names: seq<string>, files: Files, selected: Profile)
    requires IsCycle(names, files, selected)
    ensures Repeats(files, selected)
  {
    var j := |names| - 1;
    var i :| 0 <= i < j && names[i] == names[j];
    assert SameName(files, selected, i, j);
  }

  lemma StuckHasNoRepeats(files: Files, selected: Profile, n: nat, error: LoadError)
    requires Stuck(files, selected, n, error)
    ensures !Repeats(files, selected)
  {
    StuckMeans(files, selected, n, error);
    NoRepeats(files, selected, n);
  }

  lemma NoChain(files: Files, selected: Profile, error: LoadError)
    requires !Overlaps(selected)
    requires Repeats(files, selected) || exists n :: Stuck(files, selected, n, error)
    ensures !exists chain :: IsChain(chain, files, selected)
  {
    hide IsLineage, IsChain, Stuck, Repeats;
    forall chain
      ensures !IsChain(chain, files, selected)
    {
      LineageIsChain(chain, files, selected);
      if IsLineage(chain, files, selected) {
        LineageHasNoRepeats(chain, files, selected);
        var n :| Stuck(files, selected, n, error);
        NotStuck(chain, files, selected, n, error);
      }
    }
  }

  /** `names` are those of the first ancestors, all different. */
  ghost predicate IsDescent(names: seq<string>, files: Files, selected: Profile) {
    && Distinct(names)
    && forall k :: 0 <= k < |names| ==>
         Ancestor(files, selected, k).Some? && Ancestor(files, selected, k).value.name == names[k]
  }

  /** `chain` holds the ancestors from `depth` up to one without a parent, none named in `below`. */
  ghost predicate IsUpper(chain: seq<Profile>, files: Files, selected: Profile, depth: nat, below: seq<string>) {
    && chain != [] && chain[0].base.None?
    && (forall k :: 0 <= k < |chain| ==> Ancestor(files, selected, depth + |chain| - 1 - k) == Some(chain[k]))
    && (forall i, j :: 0 <= i < j < |chain| ==> chain[i].name != chain[j].name)
    && (forall p <- chain :: p.name !in below)
  }

  lemma DescentGrows(names: seq<string>, files: Files, selected: Profile, p: Profile)
    requires IsDescent(names, files, selected) && Ancestor(files, selected, |names|) == Some(p)
    requires p.name !in names
    ensures IsDescent(names + [p.name], files, selected)
  {
  }

  lemma DescentStuck(names: seq<string>, files: Files, selected: Profile, p: Profile, error: LoadError)
    requires IsDescent(names + [p.name], files, selected) && Ancestor(files, selected, |names|) == Some(p)
    requires p.base.Some? && Load(files, p.base.value) == Err(error)
    ensures Stuck(files, selected, |names|, error)
  {
    var all := names + [p.name];
    forall i: nat, j: nat | i < j <= |names|
      ensures !SameName(files, selected, i, j)
    {
      assert all[i] != all[j];
    }
  }

  lemma DescentCloses(names: seq<string>, files: Files, selected: Profile, p: Profile)
    requires IsDescent(names, files, selected) && Ancestor(files, selected, |names|) == Some(p)
    requires p.name in names
    ensures IsCycle(names + [p.name], files, selected)
  {
    assert (names + [p.name])[..|names|] == names;
  }

  lemma UpperStarts(files: Files, selected: Profile, below: seq<string>, p: Profile)
    requires Ancestor(files, selected, |below|) == Some(p) && p.base.None? && p.name !in below
    ensures IsUpper([p], files, selected, |below|, below)
  {
  }

  lemma UpperGrows(chain: seq<Profile>, files: Files, selected: Profile, below: seq<string>, p: Profile)
    requires IsUpper(chain, files, selected, |below| + 1, below + [p.name])
    requires Ancestor(files, selected, |below|) == Some(p) && p.name !in below
    ensures IsUpper(chain + [p], files, selected, |below|, below)
  {
    hide Ancestor;
    forall q <- chain + [p]
      ensures q.name !in below
    {
      assert q in chain ==> q.name !in below + [p.name];
    }
    forall i, j | 0 <= i < j < |chain| + 1
      ensures (chain + [p])[i].name != (chain + [p])[j].name
    {
      assert chain[i] in chain && p.name in below + [p.name];
    }
  }

  // ---------------------------------------------------------------- the loader

  class ChainLoader {
    const files: Files
    const selected: Profile
    var visiting: seq<string>
    var chain: seq<Profile>

    constructor (files: Files, selected: Profile)
      ensures this.files == files && this.selected == selected && visiting == [] && chain == []
    {
      this.files, this.selected := files, selected;
      visiting, chain := [], [];
    }

    /** The names that have not been visited yet bound the recursion. */
    ghost function Unvisited(): set<string>
      reads this`visiting
    {
      files.Keys + {selected.name} - (set n | n in visiting)
    }

    lemma NameIsKnown(profile: Profile)
      requires Ancestor(files, selected, |visiting|) == Some(profile) && profile.name !in visiting
      ensures profile.name in Unvisited()
    {
    }

    /** The inner `visit`: pushes and pops `visiting`, and appends on the way back. */
    method Visit(profile: Profile) returns (error: Option<LoadError>)
      requires chain == [] && IsDescent(visiting, files, selected)
      requires Ancestor(files, selected, |visiting|) == Some(profile)
      modifies this
      ensures error.None? ==>
                visiting == old(visiting) && IsUpper(chain, files, selected, |visiting|, visiting)
      ensures error.Some? && error.value.Cycle? ==> IsCycle(error.value.names, files, selected)
      ensures error.Some? && !error.value.Cycle? ==> exists n :: Stuck(files, selected, n, error.value)
      decreases Unvisited()
    {
      hide IsUpper, IsDescent, IsCycle, Stuck, Distinct;
      if profile.name in visiting {
        DescentCloses(visiting, files, selected, profile);
        return Some(Cycle(visiting + [profile.name]));
      }
      if exists existing <- chain :: existing.name == profile.name {
        return None;
      }
      ghost var below := visiting;
      NameIsKnown(profile);
      DescentGrows(visiting, files, selected, profile);
      visiting := visiting + [profile.name];
      if profile.base.Some? {
        var parent := Load(files, profile.base.value);
        if parent.Err? {
          DescentStuck(below, files, selected, profile, parent.error);
          return Some(parent.error);
        }
        error := Visit(parent.value);
        if error.Some? {
          return;
        }
        UpperGrows(chain, files, selected, below, profile);
      } else {
        UpperStarts(files, selected, below, profile);
        assert chain + [profile] == [profile];
      }
      visiting := visiting[..|visiting| - 1];
      assert visiting == below;
      chain := chain + [profile];
      error := None;
    }
  }

  /** `load_profile_chain`: the lineage, or the one error the links lead to.  It reports a cycle
      exactly when following the links meets a name twice. */
  method LoadProfileChain(files: Files, selected: Profile) returns (r: Result<seq<Profile>>)
    ensures (exists x :: x in selected.packages && x in selected.excluded) ==> r == Err(Overlap(selected.name))
    ensures r == Err(Overlap(selected.name)) || !Overlaps(selected)
    ensures r.Ok? ==> IsChain(r.value, files, selected)
    ensures r.Ok? <==> exists chain :: IsChain(chain, files, selected)
    ensures r.Err? && !r.error.Cycle? && !Overlaps(selected) ==> exists name :: Fails(files, name, r.error)
    ensures !Overlaps(selected) ==> ((r.Err? && r.error.Cycle?) <==> Repeats(files, selected))
    ensures r.Ok? ==> IsLineage(r.value, files, selected)
    ensures r.Err? && r.error.Cycle? ==> IsCycle(r.error.names, files, selected)
    ensures (r.Err? && !r.error.Cycle? && !Overlaps(selected)) ==>
              exists n :: Stuck(files, selected, n, r.error)
  {
    if Overlaps(selected) {
      var both :| both in selected.packages && both in selected.excluded;
      forall chain | chain != [] && chain[|chain| - 1] == selected
        ensures !IsChain(chain, files, selected)
      {
        assert selected in chain;
      }
      return Err(Overlap(selected.name));
    }
    hide IsLineage, IsChain, Fails, Stuck, Ancestor, Repeats, IsCycle;
    var loader := new ChainLoader(files, selected);
    var error := loader.Visit(selected);
    if error.Some? {
      if error.value.Cycle? {
        CycleRepeats(error.value.names, files, selected);
      } else {
        ghost var n :| Stuck(files, selected, n, error.value);
        StuckMeans(files, selected, n, error.value);
        StuckHasNoRepeats(files, selected, n, error.value);
      }
      NoChain(files, selected, error.value);
      return Err(error.value);
    }
    LineageHasNoRepeats(loader.chain, files, selected);
    LineageIsChain(loader.chain, files, selected);
    r := Ok(loader.chain);
  }

  // ---------------------------------------------------------------- resolution

  datatype Packages = Packages(
    base: seq<string>, graphical: seq<string>, xaac: seq<string>, optional: seq<string>, exclude: seq<string>)

  datatype Group = Group(source: string, values: seq<string>)

  datatype Resolved = Resolved(
    packages: seq<string>, excluded: seq<string>, lineage: seq<string>, sources: seq<Group>)

  /** Wanted: named by a configuration group or by some profile of the lineage. */
  ghost predicate Wanted(x: string, c: Packages, chain: seq<Profile>) {
    x in c.base || x in c.graphical || x in c.xaac || x in c.optional || exists p <- chain :: x in p.packages
  }

  ghost predicate Excluded(x: string, c: Packages, chain: seq<Profile>) {
    x in c.exclude || exists p <- chain :: x in p.excluded
  }

  function NamesOf(chain: seq<Profile>): (r: seq<string>)
    ensures |r| == |chain| && forall k :: 0 <= k < |chain| ==> r[k] == chain[k].name
  {
    seq(|chain|, i requires 0 <= i < |chain| => chain[i].name)
  }

  function ProfileGroups(chain: seq<Profile>): (r: seq<Group>)
    ensures |r| == |chain|
  {
    seq(|chain|, i requires 0 <= i < |chain| => Group("profile:" + chain[i].name, chain[i].packages))
  }

  function Groups(c: Packages, chain: seq<Profile>): seq<Group> {
    [Group("base", c.base), Group("graphical", c.graphical), Group("xaac", c.xaac), Group("optional", c.optional)]
    + ProfileGroups(chain)
  }

  lemma GroupsAreWanted(c: Packages, chain: seq<Profile>, x: string)
    ensures Wanted(x, c, chain) <==> exists g <- Groups(c, chain) :: x in g.values
  {
    var gs := Groups(c, chain);
    assert gs[0].values == c.base && gs[1].values == c.graphical;
    assert gs[2].values == c.xaac && gs[3].values == c.optional;
    if p :| p in chain && x in p.packages {
      var i :| 0 <= i < |chain| && chain[i] == p;
      assert gs[4 + i].values == p.packages;
    }
    if g :| g in gs && x in g.values {
      var i :| 0 <= i < |gs| && gs[i] == g;
      if i >= 4 {
        assert gs[i] == ProfileGroups(chain)[i - 4];
        assert chain[i - 4] in chain;
      }
    }
  }

  /** Each group recorded under its name, sorted, without repeats and without the exclusions. */
  ghost predicate Recorded(sources: seq<Group>, groups: seq<Group>, excluded: set<string>) {
    && |sources| == |groups|
    && forall i :: 0 <= i < |groups| ==>
         && sources[i].source == groups[i].source && Strict(sources[i].values)
         && forall x :: x in sources[i].values <==> x in groups[i].values && x !in excluded
  }

  /** The groups by name: the four of the configuration, then one for each profile of the line. */
  ghost predicate SourcesAre(sources: seq<Group>, c: Packages, chain: seq<Profile>, excluded: seq<string>) {
    && |sources| == 4 + |chain|
    && Holds(sources[0], "base", c.base, excluded) && Holds(sources[1], "graphical", c.graphical, excluded)
    && Holds(sources[2], "xaac", c.xaac, excluded) && Holds(sources[3], "optional", c.optional, excluded)
    && forall k :: 0 <= k < |chain| ==>
         Holds(sources[4 + k], "profile:" + chain[k].name, chain[k].packages, excluded)
  }

  ghost predicate Holds(g: Group, name: string, asked: seq<string>, excluded: seq<string>) {
    g.source == name && Strict(g.values) && forall x :: x in g.values <==> x in asked && x !in excluded
  }

  lemma RecordedMeans(sources: seq<Group>, c: Packages, chain: seq<Profile>, excluded: seq<string>)
    requires Recorded(sources, Groups(c, chain), (set x | x in excluded))
    ensures SourcesAre(sources, c, chain, excluded)
  {
    var gs := Groups(c, chain);
    assert gs[0].source == "base" && gs[1].source == "graphical" && gs[2].source == "xaac";
    assert gs[0].values == c.base && gs[1].values == c.graphical && gs[2].values == c.xaac;
    forall k | 0 <= k < |chain|
      ensures Holds(sources[4 + k], "profile:" + chain[k].name, chain[k].packages, excluded)
    {
      assert gs[4 + k] == ProfileGroups(chain)[k];
    }
  }

  method AcceptGroups(groups: seq<Group>, excluded: set<string>) returns (sources: seq<Group>, selected: set<string>)
    ensures Recorded(sources, groups, excluded)
    ensures forall x :: x in selected <==> exists g <- sources :: x in g.values
  {
    sources, selected := [], {};
    for i := 0 to |groups|
      invariant |sources| == i && Recorded(sources, groups[..i], excluded)
      invariant forall x :: x in selected <==> exists g <- sources :: x in g.values
    {
      var accepted := SortedSet((set x | x in groups[i].values) - excluded);
      ghost var before := sources;
      sources := sources + [Group(groups[i].source, accepted)];
      assert forall g :: g in sources <==> g in before || g == Group(groups[i].source, accepted);
      selected := selected + set x | x in accepted;
    }
    assert groups[..|groups|] == groups;
  }

  /** What some source holds is what is wanted and not excluded. */
  lemma KeptExactly(c: Packages, chain: seq<Profile>, sources: seq<Group>, excluded: set<string>)
    requires Recorded(sources, Groups(c, chain), excluded)
    ensures forall x :: (exists g <- sources :: x in g.values) <==> Wanted(x, c, chain) && x !in excluded
  {
    hide Wanted, Groups;
    var groups := Groups(c, chain);
    forall x
      ensures (exists g <- sources :: x in g.values) <==> Wanted(x, c, chain) && x !in excluded
    {
      GroupsAreWanted(c, chain, x);
      if g :| g in sources && x in g.values {
        var i :| 0 <= i < |sources| && sources[i] == g;
        assert groups[i] in groups && x in groups[i].values;
      }
      if Wanted(x, c, chain) && x !in excluded {
        var g :| g in groups && x in g.values;
        var i :| 0 <= i < |groups| && groups[i] == g;
        assert sources[i] in sources && x in sources[i].values;
      }
    }
  }

  method CollectExcluded(c: Packages, chain: seq<Profile>) returns (excluded: set<string>)
    ensures forall x :: x in excluded <==> Excluded(x, c, chain)
  {
    excluded := set x | x in c.exclude;
    for i := 0 to |chain|
      invariant forall x :: x in excluded <==> Excluded(x, c, chain[..i])
    {
      assert chain[..i + 1] == chain[..i] + [chain[i]];
      excluded := excluded + set x | x in chain[i].excluded;
    }
    assert chain[..|chain|] == chain;
  }

  /** `resolve_packages`: the list is sorted and repeat-free, holds exactly what is wanted and not
      excluded, and is the union of the sources recorded beside it. */
  method ResolvePackages(files: Files, selected: Profile, c: Packages) returns (r: Result<Resolved>)
    ensures r.Ok? ==> exists chain: seq<Profile> ::
              && IsLineage(chain, files, selected) && IsChain(chain, files, selected)
              && |r.value.lineage| == |chain|
              && (forall k :: 0 <= k < |chain| ==> r.value.lineage[k] == chain[k].name)
              && (forall x :: x in r.value.packages <==> Wanted(x, c, chain) && !Excluded(x, c, chain))
              && (forall x :: x in r.value.excluded <==> Excluded(x, c, chain))
              && SourcesAre(r.value.sources, c, chain, r.value.excluded)
    ensures r.Ok? ==> Strict(r.value.packages) && Strict(r.value.excluded)
    ensures r.Ok? ==> forall x :: x in r.value.packages <==> exists g <- r.value.sources :: x in g.values
    ensures !Overlaps(selected) ==> ((r.Err? && r.error.Cycle?) <==> Repeats(files, selected))
    ensures r.Ok? <==> exists chain :: IsChain(chain, files, selected)
    ensures (exists x :: x in selected.packages && x in selected.excluded) ==> r == Err(Overlap(selected.name))
    ensures r.Err? && !r.error.Cycle? && !Overlaps(selected) ==> exists name :: Fails(files, name, r.error)
  {
    hide IsChain, IsLineage, Fails, SourcesAre, Repeats, Recorded, Wanted, Excluded, Groups, NamesOf;
    var loaded := LoadProfileChain(files, selected);
    if loaded.Err? {
      return Err(loaded.error);
    }
    var chain := loaded.value;
    var groups := Groups(c, chain);
    var excluded := CollectExcluded(c, chain);
    var sources, kept := AcceptGroups(groups, excluded);
    var packages := SortedSet(kept);
    var dropped := SortedSet(excluded);
    KeptExactly(c, chain, sources, excluded);
    assert (set x | x in dropped) == excluded;
    RecordedMeans(sources, c, chain, dropped);
    var lineage := NamesOf(chain);
    r := Ok(Resolved(packages, dropped, lineage, sources));
  }
}
