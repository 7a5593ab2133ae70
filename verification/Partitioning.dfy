/** GPT partition planning, and the image builder that carries the plan out a second time. */
module Partitioning {
  import opened Common
  import opened Sorting

  /** POSIX keeps exactly two leading slashes apart from one. */
  datatype Lead = Relative | Slash | DoubleSlash

  datatype Mount = Mount(lead: Lead, parts: seq<string>)

  const ROOT := Mount(Slash, [])

  datatype Spec = Spec(
    name: string, number: int, size: int, typeCode: string, filesystem: string,
    volume: string, mount: Mount, options: string)

  datatype Plan = Plan(device: string, diskSize: int, alignment: int, partitions: seq<Spec>)

  /** A partition's device node: the device's name, a `p` after a digit, and the number. */
  datatype Node = Node(prefix: string, number: int)

  datatype Command =
    | Truncate(sizeMib: int)
    | Losetup
    | ZapAll(device: string)
    | NewPartition(number: int, start: int, end: int, typeCode: string, volume: string, device: string)
    | PartProbe(device: string)
    | MkfsVfat(volume: string, target: Node)
    | MkfsExt4(volume: string, target: Node)
    | MountAt(target: Node, destination: Mount)
    | Rsync
    | GrubInstall
    | Sync
    | Umount(destination: Mount)
    | Detach(device: string)

  predicate IsDigit(c: char) {
    '0' <= c <= '9'
  }

  predicate EndsInDigit(device: string) {
    device != "" && IsDigit(device[|device| - 1])
  }

  function PartitionPath(device: string, number: int): Node {
    Node(if EndsInDigit(device) then device + "p" else device, number)
  }

  // ---------------------------------------------------------------- the layout

  /** Where partition i begins when the partitions follow one another from `start`. */
  function StartOf(parts: seq<Spec>, start: int, i: nat): int
    requires i <= |parts|
  {
    if i == 0 then start else StartOf(parts, start, i - 1) + parts[i - 1].size
  }

  function Partitions(plan: Plan): (r: seq<Command>)
    ensures |r| == |plan.partitions|
  {
    var parts := plan.partitions;
    seq(|parts|, i requires 0 <= i < |parts| =>
      var start := StartOf(parts, plan.alignment, i);
      NewPartition(parts[i].number, start, start + parts[i].size, parts[i].typeCode, parts[i].volume, plan.device))
  }

  function Format(spec: Spec, target: Node): Command {
    if spec.filesystem == "vfat" then MkfsVfat(spec.volume, target) else MkfsExt4(spec.volume, target)
  }

  function Formats(plan: Plan): (r: seq<Command>)
    ensures |r| == |plan.partitions|
  {
    var parts := plan.partitions;
    seq(|parts|, i requires 0 <= i < |parts| => Format(parts[i], PartitionPath(plan.device, parts[i].number)))
  }

  function Layout(plan: Plan): seq<Command> {
    [ZapAll(plan.device)] + Partitions(plan) + [PartProbe(plan.device)] + Formats(plan)
  }

  /** Partition i is created with its own number, type and label; each begins where the one before it
      ends, the first at the alignment. */
  ghost predicate Creates(creations: seq<Command>, plan: Plan) {
    var parts := plan.partitions;
    && |creations| == |parts|
    && (forall i :: 0 <= i < |parts| ==>
          && creations[i].NewPartition? && creations[i].device == plan.device
          && creations[i].number == parts[i].number && creations[i].typeCode == parts[i].typeCode
          && creations[i].volume == parts[i].volume && creations[i].end == creations[i].start + parts[i].size)
    && (parts != [] ==> creations[0].start == plan.alignment)
    && forall i, j :: 0 <= i < j < |parts| && j == i + 1 ==> creations[j].start == creations[i].end
  }

  /** Partition i's own node gets the file system its entry names, with its label. */
  ghost predicate MakesFileSystems(formats: seq<Command>, plan: Plan, prefix: string) {
    var parts := plan.partitions;
    && |formats| == |parts|
    && forall i :: 0 <= i < |parts| ==>
         && (parts[i].filesystem == "vfat" ==> formats[i] == MkfsVfat(parts[i].volume, Node(prefix, parts[i].number)))
         && (parts[i].filesystem != "vfat" ==> formats[i] == MkfsExt4(parts[i].volume, Node(prefix, parts[i].number)))
  }

  /** Told command by command: the disk is wiped, the partitions are created, the table is read
      again, and the file systems are made. */
  ghost predicate LaysOut(commands: seq<Command>, plan: Plan, prefix: string) {
    var n := |plan.partitions|;
    && |commands| == 2 * n + 2
    && commands[0] == ZapAll(plan.device) && commands[n + 1] == PartProbe(plan.device)
    && Creates(commands[1..n + 1], plan) && MakesFileSystems(commands[n + 2..], plan, prefix)
  }

  lemma PartitionsCreate(plan: Plan)
    ensures Creates(Partitions(plan), plan)
  {
  }

  lemma LayoutLaysOut(plan: Plan, formats: seq<Command>, prefix: string)
    requires MakesFileSystems(formats, plan, prefix)
    ensures LaysOut([ZapAll(plan.device)] + Partitions(plan) + [PartProbe(plan.device)] + formats, plan, prefix)
  {
    hide Creates, MakesFileSystems;
    assert |formats| == |plan.partitions| by {
      FormatsLength(plan, formats, prefix);
    }
    var n := |plan.partitions|;
    var commands := [ZapAll(plan.device)] + Partitions(plan) + [PartProbe(plan.device)] + formats;
    assert commands[1..n + 1] == Partitions(plan) && commands[n + 2..] == formats;
    PartitionsCreate(plan);
  }

  lemma FormatsLength(plan: Plan, formats: seq<Command>, prefix: string)
    requires MakesFileSystems(formats, plan, prefix)
    ensures |formats| == |plan.partitions|
  {
  }

  lemma PlanLaysOut(plan: Plan)
    ensures var numbered := plan.device != "" && '0' <= plan.device[|plan.device| - 1] <= '9';
            LaysOut(Layout(plan), plan, if numbered then plan.device + "p" else plan.device)
  {
    hide LaysOut;
    LayoutLaysOut(plan, Formats(plan), PartitionPath(plan.device, 0).prefix);
  }

  /** The `commands` property: two loops over the partitions. */
  method Commands(plan: Plan) returns (commands: seq<Command>)
    ensures commands == Layout(plan)
    ensures var numbered := plan.device != "" && '0' <= plan.device[|plan.device| - 1] <= '9';
            LaysOut(commands, plan, if numbered then plan.device + "p" else plan.device)
  {
    hide LaysOut;
    commands := [ZapAll(plan.device)];
    var start := plan.alignment;
    for i := 0 to |plan.partitions|
      invariant start == StartOf(plan.partitions, plan.alignment, i)
      invariant commands == [ZapAll(plan.device)] + Partitions(plan)[..i]
    {
      var item := plan.partitions[i];
      var end := start + item.size;
      commands := commands + [NewPartition(item.number, start, end, item.typeCode, item.volume, plan.device)];
      start := end;
    }
    commands := commands + [PartProbe(plan.device)];
    ghost var head := commands;
    for i := 0 to |plan.partitions|
      invariant commands == head + Formats(plan)[..i]
    {
      var item := plan.partitions[i];
      var target := PartitionPath(plan.device, item.number);
      if item.filesystem == "vfat" {
        commands := commands + [MkfsVfat(item.volume, target)];
      } else {
        commands := commands + [MkfsExt4(item.volume, target)];
      }
    }
    PlanLaysOut(plan);
  }

  function TotalSize(parts: seq<Spec>): int {
    if parts == [] then 0 else parts[0].size + TotalSize(parts[1..])
  }

  predicate SpecOk(s: Spec) {
    && 1 <= s.number <= 128 && s.size >= 64
    && 1 <= |s.volume| <= 16 && (forall c <- s.volume :: 'A' <= c <= 'Z' || IsDigit(c) || c == '_')
    && |s.typeCode| == 4 && (forall c <- s.typeCode :: IsDigit(c) || 'A' <= c <= 'F' || 'a' <= c <= 'f')
    && (s.filesystem == "vfat" || s.filesystem == "ext4")
    && !s.mount.lead.Relative? && ".." !in s.mount.parts
    && s.options != "" && forall c <- s.options :: !IsSpace(c)
  }

  const LABELS: set<string> := {"XAAC_EFI", "XAAC_ROOT", "XAAC_DATA", "XAAC_RECOVERY"}

  predicate Unlike(a: Spec, b: Spec) {
    a.number != b.number && a.volume != b.volume && a.mount != b.mount
  }

  ghost predicate PairwiseUnlike(parts: seq<Spec>) {
    forall i, j :: 0 <= i < j < |parts| ==> Unlike(parts[i], parts[j])
  }

  /** What the rest of the program may rely on in a plan that was accepted. */
  ghost predicate Accepted(plan: Plan) {
    && 4096 <= plan.diskSize && 1 <= plan.alignment <= 16
    && |plan.partitions| == 4
    && (forall s <- plan.partitions :: SpecOk(s))
    && (forall i, j :: 0 <= i < j < 4 ==>
          plan.partitions[i].number < plan.partitions[j].number && Unlike(plan.partitions[i], plan.partitions[j]))
    && HasRoot(plan.partitions)
    && plan.partitions[0].filesystem == "vfat"
    && plan.alignment + TotalSize(plan.partitions) <= plan.diskSize
  }

  lemma {:induction false} StartsAddUp(parts: seq<Spec>, start: int, i: nat)
    requires i <= |parts|
    ensures StartOf(parts, start, i) + TotalSize(parts[i..]) == start + TotalSize(parts)
    decreases i
  {
    if i > 0 {
      StartsAddUp(parts, start, i - 1);
      assert parts[i - 1..][1..] == parts[i..];
    }
  }

  lemma {:induction false} StartsGrow(parts: seq<Spec>, start: int, i: nat, j: nat)
    requires i <= j <= |parts| && forall s <- parts :: s.size >= 64
    ensures StartOf(parts, start, i) + 64 * (j - i) <= StartOf(parts, start, j)
    decreases j
  {
    if i < j {
      StartsGrow(parts, start, i, j - 1);
    }
  }

  /** One partition of an accepted plan lies inside the disk, past the alignment. */
  lemma IntervalFits(plan: Plan, i: nat)
    requires Accepted(plan) && i < 4
    ensures var parts := plan.partitions;
            && plan.alignment <= StartOf(parts, plan.alignment, i)
            && StartOf(parts, plan.alignment, i) < StartOf(parts, plan.alignment, i + 1) <= plan.diskSize
  {
    var parts := plan.partitions;
    StartsGrow(parts, plan.alignment, 0, i);
    StartsGrow(parts, plan.alignment, i, i + 1);
    StartsGrow(parts, plan.alignment, i + 1, 4);
    StartsAddUp(parts, plan.alignment, 4);
    assert parts[4..] == [];
  }

  /** For every accepted plan: each partition begins where the one before it ends, the first at the
      alignment; no two overlap or share a number; all end inside the disk. */
  lemma LayoutFits(plan: Plan)
    requires Accepted(plan)
    ensures var r := Partitions(plan);
            && r[0].start == plan.alignment
            && (forall i :: 0 <= i < 4 ==> plan.alignment <= r[i].start < r[i].end <= plan.diskSize)
            && (forall i :: 0 <= i < 3 ==> r[i].end == r[i + 1].start)
            && (forall i, j :: 0 <= i < j < 4 ==> r[i].end <= r[j].start && r[i].number != r[j].number)
  {
    var parts := plan.partitions;
    forall i | 0 <= i < 4
      ensures Partitions(plan)[i].start == StartOf(parts, plan.alignment, i)
      ensures Partitions(plan)[i].end == StartOf(parts, plan.alignment, i + 1)
      ensures plan.alignment <= Partitions(plan)[i].start < Partitions(plan)[i].end <= plan.diskSize
    {
      IntervalFits(plan, i);
    }
    forall i, j | 0 <= i < j < 4
      ensures Partitions(plan)[i].end <= Partitions(plan)[j].start
    {
      StartsGrow(parts, plan.alignment, i + 1, j);
    }
  }

  // ---------------------------------------------------------------- accepting a configuration

  datatype Config = Config(schema: string, diskSize: int, alignment: int, partitions: seq<Spec>)

  predicate ByNumber(a: Spec, b: Spec) {
    a.number <= b.number
  }

  ghost predicate Lowest(s: Spec, parts: seq<Spec>) {
    forall t <- parts :: ByNumber(s, t)
  }

  ghost predicate LowestIsVfat(parts: seq<Spec>) {
    forall s <- parts :: Lowest(s, parts) ==> s.filesystem == "vfat"
  }

  predicate HasRoot(parts: seq<Spec>) {
    exists s <- parts :: s.mount == ROOT
  }

  ghost predicate Acceptable(c: Config) {
    && c.schema == "gpt" && 4096 <= c.diskSize && 1 <= c.alignment <= 16
    && |c.partitions| == 4
    && (forall s <- c.partitions :: SpecOk(s))
    && PairwiseUnlike(c.partitions)
    && c.alignment + TotalSize(c.partitions) <= c.diskSize
    && Volumes(c.partitions) == LABELS
    && LowestIsVfat(c.partitions)
    && HasRoot(c.partitions)
  }

  /** The same with every rule written out. */
  ghost predicate IsSound(s: Spec) {
    && s.number >= 1 && s.number <= 128 && s.size >= 64
    && |s.volume| >= 1 && |s.volume| <= 16
    && (forall c <- s.volume :: 'A' <= c <= 'Z' || '0' <= c <= '9' || c == '_')
    && |s.typeCode| == 4 && (forall c <- s.typeCode :: '0' <= c <= '9' || 'A' <= c <= 'F' || 'a' <= c <= 'f')
    && s.filesystem in {"vfat", "ext4"}
    && s.mount.lead != Relative && (forall part <- s.mount.parts :: part != "..")
    && |s.options| > 0 && forall c <- s.options :: !IsSpace(c)
  }

  ghost predicate IsAccepted(c: Config) {
    && c.schema == "gpt" && c.diskSize >= 4096 && c.alignment >= 1 && c.alignment <= 16
    && |c.partitions| == 4
    && (forall i :: 0 <= i < 4 ==> IsSound(c.partitions[i]))
    && AllDiffer(c.partitions)
    && c.alignment + c.partitions[0].size + c.partitions[1].size + c.partitions[2].size + c.partitions[3].size
       <= c.diskSize
    && Labelled(c.partitions) && LowestVfat(c.partitions)
    && (exists p <- c.partitions :: p.mount == Mount(Slash, []))
  }

  ghost predicate AllDiffer(parts: seq<Spec>) {
    forall i, j :: 0 <= i < |parts| && 0 <= j < |parts| && i != j ==>
      parts[i].number != parts[j].number && parts[i].volume != parts[j].volume && parts[i].mount != parts[j].mount
  }

  ghost predicate Labelled(parts: seq<Spec>) {
    && (forall p <- parts :: p.volume in {"XAAC_EFI", "XAAC_ROOT", "XAAC_DATA", "XAAC_RECOVERY"})
    && (exists p <- parts :: p.volume == "XAAC_EFI") && (exists p <- parts :: p.volume == "XAAC_ROOT")
    && (exists p <- parts :: p.volume == "XAAC_DATA") && (exists p <- parts :: p.volume == "XAAC_RECOVERY")
  }

  /** The partition of the lowest number is the one for the firmware. */
  ghost predicate LowestVfat(parts: seq<Spec>) {
    exists p <- parts :: p.filesystem == "vfat" && forall q <- parts :: p.number <= q.number
  }

  lemma SoundIsOk(s: Spec)
    ensures SpecOk(s) <==> IsSound(s)
  {
    hide IsSpace;
  }

  lemma FourSizes(parts: seq<Spec>)
    requires |parts| == 4
    ensures TotalSize(parts) == parts[0].size + parts[1].size + parts[2].size + parts[3].size
  {
    assert TotalSize(parts[4..]) == 0;
    assert parts[3..][1..] == parts[4..] && TotalSize(parts[3..]) == parts[3].size;
    assert parts[2..][1..] == parts[3..] && TotalSize(parts[2..]) == parts[2].size + parts[3].size;
    assert parts[1..][1..] == parts[2..];
  }

  lemma {:induction false} SomeLowest(parts: seq<Spec>) returns (p: Spec)
    requires parts != []
    ensures p in parts && Lowest(p, parts)
  {
    p := parts[0];
    if |parts| > 1 {
      var q := SomeLowest(parts[1..]);
      assert parts == [parts[0]] + parts[1..];
      p := if q.number < p.number then q else p;
    }
  }

  lemma VfatComesFirst(parts: seq<Spec>)
    requires parts != [] && PairwiseUnlike(parts)
    ensures LowestIsVfat(parts) <==> LowestVfat(parts)
  {
    var p := SomeLowest(parts);
    if q :| q in parts && q.filesystem == "vfat" && forall t <- parts :: q.number <= t.number {
      assert Lowest(q, parts);
      LowestIsUnique(parts, q);
    }
  }

  lemma LabelsAre(parts: seq<Spec>)
    ensures Volumes(parts) == LABELS <==> Labelled(parts)
  {
    assert forall v :: v in Volumes(parts) <==> exists p <- parts :: p.volume == v;
    if Labelled(parts) {
      assert forall v :: v in LABELS <==> v in Volumes(parts);
    }
    if Volumes(parts) == LABELS {
      assert forall v <- LABELS :: v in Volumes(parts);
      assert forall p <- parts :: p.volume in Volumes(parts);
    }
  }

  lemma DifferPairwise(parts: seq<Spec>)
    ensures PairwiseUnlike(parts) <==> AllDiffer(parts)
  {
    assert AllDiffer(parts) ==> forall i, j :: 0 <= i < j < |parts| ==> Unlike(parts[i], parts[j]);
    if PairwiseUnlike(parts) {
      forall i, j | 0 <= i < |parts| && 0 <= j < |parts| && i != j
        ensures parts[i].number != parts[j].number && parts[i].volume != parts[j].volume
        ensures parts[i].mount != parts[j].mount
      {
        assert if i < j then Unlike(parts[i], parts[j]) else Unlike(parts[j], parts[i]);
      }
    }
  }

  lemma AcceptedExactly(c: Config)
    ensures Acceptable(c) <==> IsAccepted(c)
  {
    hide SpecOk, IsSound, TotalSize, LowestIsVfat, Lowest, PairwiseUnlike, AllDiffer, Labelled, LowestVfat, Volumes;
    var parts := c.partitions;
    if |parts| == 4 {
      FourSizes(parts);
      forall i | 0 <= i < 4
        ensures SpecOk(parts[i]) <==> IsSound(parts[i])
      {
        SoundIsOk(parts[i]);
      }
      DifferPairwise(parts);
      LabelsAre(parts);
      if PairwiseUnlike(parts) {
        VfatComesFirst(parts);
      }
    }
  }

  /** The plan's partitions: the configured ones with their type codes in upper case, by number. */
  ghost predicate IsInOrder(parts: seq<Spec>, raw: seq<Spec>) {
    && |parts| == |raw|
    && (forall i, j :: 0 <= i < j < |parts| ==> parts[i].number < parts[j].number)
    && (forall p <- parts :: exists s <- raw :: IsUpper(s.typeCode, p.typeCode) && p == s.(typeCode := p.typeCode))
    && (forall s <- raw :: exists p <- parts :: IsUpper(s.typeCode, p.typeCode) && p == s.(typeCode := p.typeCode))
  }

  ghost predicate IsUpper(was: string, now: string) {
    && |now| == |was|
    && forall i :: 0 <= i < |was| ==>
         if 'a' <= was[i] <= 'f' then now[i] as int - 'A' as int == was[i] as int - 'a' as int else now[i] == was[i]
  }

  lemma {:induction false} UpperIs(text: string)
    ensures IsUpper(text, Upper(text))
  {
    if text != "" {
      UpperIs(text[1..]);
      assert forall i :: 1 <= i < |text| ==> text[i] == text[1..][i - 1] && Upper(text)[i] == Upper(text[1..])[i - 1];
    }
  }

  lemma OrderIs(raw: seq<Spec>, parts: seq<Spec>)
    requires parts == InOrder(raw) && forall i, j :: 0 <= i < j < |parts| ==> parts[i].number < parts[j].number
    ensures IsInOrder(parts, raw)
  {
    hide Upper, SpecOk, InOrder, IsUpper;
    SameSpecs(raw);
    forall s <- raw
      ensures Normal(s) in parts && IsUpper(s.typeCode, Normal(s).typeCode)
    {
      UpperIs(s.typeCode);
    }
    forall p <- parts
      ensures exists s <- raw :: IsUpper(s.typeCode, p.typeCode) && p == s.(typeCode := p.typeCode)
    {
      var s :| s in raw && p == Normal(s);
    }
  }

  function UpperHex(c: char): char {
    if 'a' <= c <= 'f' then (c as int - 32) as char else c
  }

  function Upper(text: string): (r: string)
    ensures |r| == |text|
    ensures forall c <- r :: (exists d <- text :: c == UpperHex(d))
  {
    if text == "" then "" else [UpperHex(text[0])] + Upper(text[1..])
  }

  function Normal(s: Spec): (r: Spec)
    ensures SpecOk(s) ==> SpecOk(r)
  {
    s.(typeCode := Upper(s.typeCode))
  }

  function Normals(parts: seq<Spec>): (r: seq<Spec>)
    ensures |r| == |parts|
    ensures forall i :: 0 <= i < |parts| ==> r[i] == Normal(parts[i])
  {
    seq(|parts|, i requires 0 <= i < |parts| => Normal(parts[i]))
  }

  /** The first loop: every partition is sound, and unlike each one before it. */
  method ReadSpecs(raw: seq<Spec>) returns (r: Option<seq<Spec>>)
    ensures r.Some? <==> (forall s <- raw :: SpecOk(s)) && PairwiseUnlike(raw)
    ensures r.Some? ==> r.value == Normals(raw)
  {
    hide SpecOk, Normal, Normals;
    var specs := [];
    var numbers, labels, mounts := {}, {}, {};
    for i := 0 to |raw|
      invariant forall s <- raw[..i] :: SpecOk(s)
      invariant PairwiseUnlike(raw[..i])
      invariant specs == Normals(raw)[..i]
      invariant numbers == set s | s in raw[..i] :: s.number
      invariant labels == set s | s in raw[..i] :: s.volume
      invariant mounts == set s | s in raw[..i] :: s.mount
    {
      var item := raw[i];
      assert raw[..i + 1] == raw[..i] + [item];
      if !SpecOk(item) {
        return None;
      }
      if item.number in numbers || item.volume in labels || item.mount in mounts {
        assert exists s <- raw[..i] :: !Unlike(s, item);
        return None;
      }
      assert forall s <- raw[..i] :: Unlike(s, item);
      specs := specs + [Normal(item)];
      numbers, labels, mounts := numbers + {item.number}, labels + {item.volume}, mounts + {item.mount};
    }
    assert raw[..|raw|] == raw;
    r := Some(specs);
  }

  function ByNumbers(): (Spec, Spec) -> bool {
    (a: Spec, b: Spec) => ByNumber(a, b)
  }

  /** The accepted partitions: type codes in upper case, in the order of their numbers. */
  function InOrder(raw: seq<Spec>): seq<Spec> {
    Sorted(Normals(raw), ByNumbers())
  }

  lemma {:induction false} InsertTotal(x: Spec, s: seq<Spec>)
    requires Ascending(s, ByNumbers())
    ensures TotalSize(Insert(x, s, ByNumbers())) == x.size + TotalSize(s)
  {
    if s != [] && !ByNumbers()(x, s[0]) {
      InsertTotal(x, s[1..]);
      assert Insert(x, s, ByNumbers())[1..] == Insert(x, s[1..], ByNumbers());
    } else {
      assert ([x] + s)[1..] == s;
    }
  }

  lemma {:induction false} SortTotal(s: seq<Spec>)
    ensures TotalSize(Sorted(s, ByNumbers())) == TotalSize(s)
  {
    if s != [] {
      SortTotal(s[1..]);
      InsertTotal(s[0], Sorted(s[1..], ByNumbers()));
    }
  }

  lemma {:induction false} NormalTotal(s: seq<Spec>)
    ensures TotalSize(Normals(s)) == TotalSize(s)
  {
    if s != [] {
      NormalTotal(s[1..]);
      assert Normals(s)[1..] == Normals(s[1..]);
    }
  }

  lemma OrderTotal(raw: seq<Spec>)
    ensures TotalSize(InOrder(raw)) == TotalSize(raw)
  {
    SortTotal(Normals(raw));
    NormalTotal(raw);
  }

  lemma SortedUnlike(raw: seq<Spec>)
    requires PairwiseUnlike(raw)
    ensures var sorted := InOrder(raw);
            forall i, j :: 0 <= i < j < |sorted| ==>
              sorted[i].number < sorted[j].number && Unlike(sorted[i], sorted[j])
  {
    var sorted := InOrder(raw);
    var specs := Normals(raw);
    assert forall i, j :: 0 <= i < j < |specs| ==> Unlike(raw[i], raw[j]) && Unlike(specs[i], specs[j]);
    assert Distinct(specs);
    forall i, j | 0 <= i < j < |sorted|
      ensures sorted[i].number < sorted[j].number && Unlike(sorted[i], sorted[j])
    {
      assert sorted[i] in specs && sorted[j] in specs && sorted[i] != sorted[j];
      assert ByNumbers()(sorted[i], sorted[j]);
    }
  }

  /** Sorting and upper-casing keep the partitions, one for one. */
  lemma SameSpecs(raw: seq<Spec>)
    ensures |InOrder(raw)| == |raw|
    ensures forall t <- raw :: Normal(t) in InOrder(raw)
    ensures forall s <- InOrder(raw) :: exists t <- raw :: s == Normal(t)
  {
    var sorted := InOrder(raw);
    hide Normal, SpecOk;
    forall t <- raw
      ensures Normal(t) in sorted
    {
      var m :| 0 <= m < |raw| && raw[m] == t;
      assert Normals(raw)[m] == Normal(t);
    }
    forall s <- sorted
      ensures exists t <- raw :: s == Normal(t)
    {
      var m :| 0 <= m < |raw| && Normals(raw)[m] == s;
      assert raw[m] in raw;
    }
  }

  lemma FirstIsLowest(raw: seq<Spec>) returns (lowest: Spec)
    requires raw != []
    ensures lowest in raw && Lowest(lowest, raw)
    ensures InOrder(raw) != [] && InOrder(raw)[0] == Normal(lowest)
  {
    hide SpecOk;
    var sorted := InOrder(raw);
    SameSpecs(raw);
    assert sorted[0] in sorted;
    lowest :| lowest in raw && sorted[0] == Normal(lowest);
    forall t <- raw
      ensures ByNumber(lowest, t)
    {
      var m :| 0 <= m < |sorted| && sorted[m] == Normal(t);
      assert m == 0 || ByNumbers()(sorted[0], sorted[m]);
    }
  }

  lemma NumberedOnce(raw: seq<Spec>, i: nat, j: nat)
    requires PairwiseUnlike(raw) && i < |raw| && j < |raw| && raw[i].number == raw[j].number
    ensures i == j
  {
  }

  lemma LowestIsUnique(raw: seq<Spec>, lowest: Spec)
    requires PairwiseUnlike(raw) && lowest in raw && Lowest(lowest, raw)
    ensures LowestIsVfat(raw) <==> lowest.filesystem == "vfat"
  {
    hide SpecOk;
    forall s <- raw | Lowest(s, raw)
      ensures s == lowest
    {
      assert ByNumber(s, lowest) && ByNumber(lowest, s);
      var i :| 0 <= i < |raw| && raw[i] == s;
      var j :| 0 <= j < |raw| && raw[j] == lowest;
      NumberedOnce(raw, i, j);
    }
  }

  /** Some part of the path is `..`. */
  predicate ClimbsUp(path: string) {
    exists i :: && 0 <= i <= |path| - 3 && path[i] == '/' && path[i + 1] == '.' && path[i + 2] == '.'
                && (i + 3 == |path| || path[i + 3] == '/')
  }

  /** A part of the path, what is before it and what after. */
  ghost predicate Cuts(path: string, before: string, part: string, after: string) {
    path == before + "/" + part + after && (after == "" || after[0] == '/')
  }

  lemma JoinedTwice(a: string, b: string, c: string, d: string)
    ensures a + (b + c) + d == a + b + c + d
  {
  }

  lemma ClimbIsCut(path: string)
    requires ClimbsUp(path)
    ensures exists before, after :: Cuts(path, before, "..", after)
  {
    var i :| && 0 <= i <= |path| - 3 && path[i] == '/' && path[i + 1] == '.' && path[i + 2] == '.'
             && (i + 3 == |path| || path[i + 3] == '/');
    var before, after := path[..i], path[i + 3..];
    var part := path[i..i + 3];
    assert part == "/" + "..";
    assert path == before + part + after;
    JoinedTwice(before, "/", "..", after);
    assert Cuts(path, before, "..", after);
  }

  lemma CutIsClimb(path: string, before: string, after: string)
    requires Cuts(path, before, "..", after)
    ensures ClimbsUp(path)
  {
    var i := |before|;
    assert path == before + "/.." + after;
    assert path[i..i + 3] == "/..";
    assert path[i] == path[i..i + 3][0] && path[i + 1] == path[i..i + 3][1] && path[i + 2] == path[i..i + 3][2];
    assert after != "" ==> path[i + 3] == after[0];
  }

  lemma SafeDeviceIs(path: string)
    ensures SafeDevice(path) <==>
            "/dev/" <= path && forall before, after :: !Cuts(path, before, "..", after)
  {
    hide ClimbsUp, Cuts;
    if ClimbsUp(path) {
      ClimbIsCut(path);
    }
    if before, after :| Cuts(path, before, "..", after) {
      CutIsClimb(path, before, after);
    }
  }

  predicate SafeDevice(device: string) {
    "/dev/" <= device && !ClimbsUp(device)
  }

  /** `create_partition_plan`: a plan exactly for a safe root, a device under /dev, and an acceptable
      configuration; it holds the configured partitions, in the order of their numbers. */
  method CreatePlan(root: Root, device: string, c: Config) returns (r: Option<Plan>)
    ensures r.Some? <==> SafeRoot(root) && SafeDevice(device) && Acceptable(c)
    ensures r.Some? ==> Accepted(r.value) && r.value.device == device && r.value.diskSize == c.diskSize
    ensures r.Some? ==> forall s :: s in r.value.partitions <==> s in Normals(c.partitions)
    ensures r.Some? <==>
      && |root| > 1 && "/dev/" <= device && (forall before, after :: !Cuts(device, before, "..", after))
      && IsAccepted(c)
    ensures r.Some? ==>
      && IsInOrder(r.value.partitions, c.partitions)
      && r.value.device == device && r.value.diskSize == c.diskSize && r.value.alignment == c.alignment
  {
    hide SpecOk, Sorted, TotalSize, Normals, Volumes, SafeDevice, IsAccepted, IsInOrder, Cuts;
    AcceptedExactly(c);
    SafeDeviceIs(device);
    if !SafeRoot(root) || !SafeDevice(device) {
      return None;
    }
    if c.schema != "gpt" || c.diskSize < 4096 || !(1 <= c.alignment < 17) || |c.partitions| != 4 {
      return None;
    }
    var read := ReadSpecs(c.partitions);
    if read.None? {
      return None;
    }
    var specs := Sorted(read.value, ByNumbers());
    SortedFacts(c, specs);
    if TotalSize(specs) + c.alignment > c.diskSize {
      return None;
    }
    if Volumes(specs) != LABELS || specs[0].filesystem != "vfat" || !HasRoot(specs) {
      return None;
    }
    OrderIs(c.partitions, specs);
    r := Some(Plan(device, c.diskSize, c.alignment, specs));
  }

  function Volumes(parts: seq<Spec>): set<string> {
    set s | s in parts :: s.volume
  }

  lemma SortedFacts(c: Config, specs: seq<Spec>)
    requires |c.partitions| == 4 && (forall s <- c.partitions :: SpecOk(s)) && PairwiseUnlike(c.partitions)
    requires specs == InOrder(c.partitions)
    ensures |specs| == 4 && TotalSize(specs) == TotalSize(c.partitions)
    ensures forall i, j :: 0 <= i < j < 4 ==>
              specs[i].number < specs[j].number && Unlike(specs[i], specs[j])
    ensures forall s <- specs :: SpecOk(s)
    ensures Volumes(specs) == Volumes(c.partitions)
    ensures HasRoot(specs) <==> HasRoot(c.partitions)
    ensures specs[0].filesystem == "vfat" <==> LowestIsVfat(c.partitions)
  {
    hide SpecOk, Upper, Sorted, TotalSize, Normals, PairwiseUnlike, Lowest, InOrder;
    var raw := c.partitions;
    SameSpecs(raw);
    OrderTotal(raw);
    SortedUnlike(raw);
    var lowest := FirstIsLowest(raw);
    LowestIsUnique(raw, lowest);
    forall t <- raw
      ensures t.volume in Volumes(specs)
      ensures t.mount == ROOT ==> HasRoot(specs)
    {
      assert Normal(t) in specs;
    }
  }

  // ---------------------------------------------------------------- the image builder

  function RootNumber(parts: seq<Spec>): int
    requires HasRoot(parts)
  {
    if parts[0].mount == ROOT then parts[0].number else RootNumber(parts[1..])
  }

  /** The mounts besides the root's, in the order of the partitions. */
  function OtherMounts(device: string, parts: seq<Spec>): seq<Command> {
    if parts == [] then []
    else
      var last := parts[|parts| - 1];
      OtherMounts(device, parts[..|parts| - 1])
      + OtherMount(device, last)
  }

  function OtherMount(device: string, spec: Spec): seq<Command> {
    if spec.mount == ROOT then [] else [MountAt(Node(device + "p", spec.number), spec.mount)]
  }

  function Destinations(commands: seq<Command>): seq<Mount> {
    if commands == [] then []
    else
      var last := commands[|commands| - 1];
      Destinations(commands[..|commands| - 1]) + if last.MountAt? then [last.destination] else []
  }

  function Reverse(mounts: seq<Mount>): seq<Command> {
    if mounts == [] then [] else Reverse(mounts[1..]) + [Umount(mounts[0])]
  }

  /** What is recorded as mounted after running `body`: the destination of each of its mounts, but
      for a last command that failed. */
  ghost predicate Undoable(body: seq<Command>, o: Outcome, before: seq<Mount>, mounted: seq<Mount>) {
    || mounted == before + Destinations(body)
    || (o.Raised? && body != [] && body[|body| - 1].MountAt? && mounted == before + Destinations(body[..|body| - 1]))
  }

  lemma {:induction false} OtherMountsPrefix(device: string, parts: seq<Spec>, i: nat)
    requires i <= |parts|
    ensures OtherMounts(device, parts[..i]) <= OtherMounts(device, parts)
  {
    if i < |parts| {
      OtherMountsPrefix(device, parts[..|parts| - 1], i);
      assert parts[..|parts| - 1][..i] == parts[..i];
    } else {
      assert parts[..i] == parts;
    }
  }

  lemma {:induction false} DestinationsJoin(a: seq<Command>, b: seq<Command>)
    ensures Destinations(a + b) == Destinations(a) + Destinations(b)
  {
    if b == [] {
      assert a + b == a;
    } else {
      assert (a + b)[..|a + b| - 1] == a + b[..|b| - 1];
      DestinationsJoin(a, b[..|b| - 1]);
    }
  }

  lemma {:induction false} NoDestinations(a: seq<Command>)
    requires forall c <- a :: !c.MountAt?
    ensures Destinations(a) == []
  {
    if a != [] {
      NoDestinations(a[..|a| - 1]);
    }
  }

  lemma NothingToUndo(body: seq<Command>)
    requires forall c <- body :: !c.MountAt?
    ensures Destinations(body) == [] && forall o :: Undoable(body, o, [], [])
  {
    NoDestinations(body);
  }

  lemma PrefixInside(a: seq<Command>, x: seq<Command>, b: seq<Command>, c: seq<Command>)
    requires x <= b
    ensures a + x <= a + b + c
  {
  }

  lemma UndoableJoin(a: seq<Command>, b: seq<Command>, o: Outcome,
                     before: seq<Mount>, mid: seq<Mount>, after: seq<Mount>)
    requires mid == before + Destinations(a) && Undoable(b, o, mid, after)
    ensures Undoable(a + b, o, before, after)
  {
    hide Destinations;
    DestinationsJoin(a, b);
    if b != [] {
      assert (a + b)[..|a + b| - 1] == a + b[..|b| - 1];
      DestinationsJoin(a, b[..|b| - 1]);
    }
  }

  /** Everything a successful build runs, for the loop device the kernel handed out. */
  function Script(plan: Plan, loop: string): seq<Command>
    requires HasRoot(plan.partitions)
  {
    [Truncate(plan.diskSize), Losetup]
    + BuilderLayout(plan.(device := loop))
    + MountScript(plan, loop)
  }

  function MountScript(plan: Plan, loop: string): seq<Command>
    requires HasRoot(plan.partitions)
  {
    [MountAt(Node(loop + "p", RootNumber(plan.partitions)), ROOT), Rsync]
    + OtherMounts(loop, plan.partitions)
    + [GrubInstall, Sync]
  }

  /** The builder names every node with a `p`. */
  function BuilderFormats(plan: Plan): (r: seq<Command>)
    ensures |r| == |plan.partitions|
  {
    var parts := plan.partitions;
    seq(|parts|, i requires 0 <= i < |parts| => Format(parts[i], Node(plan.device + "p", parts[i].number)))
  }

  function BuilderLayout(plan: Plan): seq<Command> {
    [ZapAll(plan.device)] + Partitions(plan) + [PartProbe(plan.device)] + BuilderFormats(plan)
  }

  lemma BuilderLaysOut(plan: Plan)
    ensures LaysOut(BuilderLayout(plan), plan, plan.device + "p")
  {
    hide LaysOut;
    LayoutLaysOut(plan, BuilderFormats(plan), plan.device + "p");
  }

  /** The builder's own commands are the plan's exactly when the device's name ends in a digit, as
      the name of every numbered loop device does. */
  lemma SameLayout(plan: Plan)
    ensures BuilderLayout(plan) == Layout(plan) <==> EndsInDigit(plan.device) || plan.partitions == []
  {
    var n := 2 + |plan.partitions|;
    if EndsInDigit(plan.device) || plan.partitions == [] {
      assert BuilderFormats(plan) == Formats(plan);
    }
    if BuilderLayout(plan) == Layout(plan) {
      assert BuilderLayout(plan)[n..] == BuilderFormats(plan) && Layout(plan)[n..] == Formats(plan);
      if plan.partitions != [] {
        assert BuilderFormats(plan)[0] == Formats(plan)[0];
        assert |plan.device + "p"| != |plan.device|;
      }
    }
  }

  lemma NoMounts(plan: Plan, body: seq<Command>)
    requires body <= BuilderLayout(plan)
    ensures forall c <- body :: !c.MountAt?
  {
    forall i | 0 <= i < |body|
      ensures !body[i].MountAt?
    {
      assert body[i] == BuilderLayout(plan)[i];
    }
  }

  predicate IsLoopDevice(text: string) {
    "/dev/loop" <= text
  }

  /** A step stops at the first command that fails, and returns only if none did. */
  ghost predicate AtMostOne(before: nat, after: nat, o: Outcome) {
    before <= after <= before + 1 && (o.Done? ==> after == before)
  }

  class ImageBuilder {
    /** Every command handed to the runner. */
    var trace: seq<Command>
    var mounted: seq<Mount>
    var loop: Option<string>

    /** Mount points whose file system could not be unmounted. */
    var busy: set<Mount>

    /** Mount points whose file system has lost files to the removal of the mount directory. */
    var lost: set<Mount>

    /** The removal of the mount directory meets no error. */
    const thorough: bool

    /** No step since the builder was made has failed. */
    ghost var calm: bool

    /** How many commands have failed. */
    ghost var failures: nat

    constructor (thorough: bool)
      ensures trace == [] && mounted == [] && loop.None? && busy == {} && lost == {} && calm
      ensures this.thorough == thorough
    {
      this.thorough := thorough;
      trace, mounted, loop, busy, lost, calm, failures := [], [], None, {}, {}, true, 0;
    }

    method Run(command: Command) returns (o: Outcome)
      modifies this`trace, this`calm, this`failures
      ensures calm <==> old(calm) && o.Done?
      ensures failures == old(failures) + if o.Done? then 0 else 1
      ensures trace == old(trace) + [command] && !o.Crashed?
    {
      var fails: bool := *;
      o := if fails then Raised else Done;
      failures := failures + if fails then 1 else 0;
      calm := calm && o.Done?;
      trace := trace + [command];
    }

    method CreatePartitions(plan: Plan) returns (o: Outcome, body: seq<Command>)
      modifies this`trace, this`calm, this`failures
      ensures AtMostOne(old(failures), failures, o)
      ensures calm <==> old(calm) && o.Done?
      ensures trace == old(trace) + body && body <= Partitions(plan)
      ensures !o.Crashed? && (o.Done? ==> body == Partitions(plan))
    {
      var parts := plan.partitions;
      var start := plan.alignment;
      o, body := Done, [];
      for i := 0 to |parts|
        invariant start == StartOf(parts, plan.alignment, i) && o.Done? && (calm <==> old(calm))
        invariant failures == old(failures)
        invariant body == Partitions(plan)[..i] && trace == old(trace) + body
      {
        var end := start + parts[i].size;
        var command :=
          NewPartition(parts[i].number, start, end, parts[i].typeCode, parts[i].volume, plan.device);
        body := body + [command];
        o := Run(command);
        if o.IsFailure() {
          return;
        }
        start := end;
      }
    }

    method FormatPartitions(plan: Plan) returns (o: Outcome, body: seq<Command>)
      modifies this`trace, this`calm, this`failures
      ensures AtMostOne(old(failures), failures, o)
      ensures calm <==> old(calm) && o.Done?
      ensures trace == old(trace) + body && body <= BuilderFormats(plan)
      ensures !o.Crashed? && (o.Done? ==> body == BuilderFormats(plan))
    {
      var parts := plan.partitions;
      o, body := Done, [];
      for i := 0 to |parts|
        invariant (calm <==> old(calm)) && failures == old(failures)
        invariant o.Done? && body == BuilderFormats(plan)[..i] && trace == old(trace) + body
      {
        var command := Format(parts[i], Node(plan.device + "p", parts[i].number));
        body := body + [command];
        o := Run(command);
        if o.IsFailure() {
          return;
        }
      }
    }

    /** The builder's own layout loops, on the device the kernel handed out. */
    method PartitionDevice(plan: Plan) returns (o: Outcome, body: seq<Command>)
      modifies this`trace, this`calm, this`failures
      ensures AtMostOne(old(failures), failures, o)
      ensures calm <==> old(calm) && o.Done?
      ensures trace == old(trace) + body && body != [] && body <= BuilderLayout(plan)
      ensures !o.Crashed? && (o.Done? ==> body == BuilderLayout(plan) && LaysOut(body, plan, plan.device + "p"))
    {
      hide LaysOut, Partitions, BuilderFormats;
      body := [ZapAll(plan.device)];
      o := Run(ZapAll(plan.device));
      if o.IsFailure() {
        return;
      }
      var more;
      o, more := CreatePartitions(plan);
      body := body + more;
      if o.IsFailure() {
        return;
      }
      body := body + [PartProbe(plan.device)];
      o := Run(PartProbe(plan.device));
      if o.IsFailure() {
        return;
      }
      o, more := FormatPartitions(plan);
      body := body + more;
      BuilderLaysOut(plan);
    }

    /** `next(...)`: the number of the partition mounted at the root. */
    method FindRoot(parts: seq<Spec>) returns (number: int)
      requires HasRoot(parts)
      ensures number == RootNumber(parts)
    {
      var i := 0;
      while parts[i].mount != ROOT
        invariant 0 <= i < |parts| && HasRoot(parts[i..])
        invariant RootNumber(parts[i..]) == RootNumber(parts)
        decreases |parts| - i
      {
        assert parts[i..][1..] == parts[i + 1..];
        i := i + 1;
      }
      number := parts[i].number;
    }

    /** One mount: what it mounts is undone later only if it succeeded. */
    method MountOne(target: Node, destination: Mount) returns (o: Outcome)
      modifies this`trace, this`mounted, this`calm, this`failures
      ensures AtMostOne(old(failures), failures, o)
      ensures calm <==> old(calm) && o.Done?
      ensures trace == old(trace) + [MountAt(target, destination)] && !o.Crashed?
      ensures mounted == old(mounted) + if o.Done? then [destination] else []
    {
      o := Run(MountAt(target, destination));
      if o.Done? {
        mounted := mounted + [destination];
      }
    }

    /** One round of the mount loop: the root is skipped, and creating the mount point may fail. */
    method MountOther(device: string, spec: Spec) returns (o: Outcome, body: seq<Command>)
      modifies this`trace, this`mounted, this`calm, this`failures
      ensures AtMostOne(old(failures), failures, o)
      ensures calm <==> old(calm) && o.Done?
      ensures trace == old(trace) + body && body <= OtherMount(device, spec)
      ensures !o.Crashed? && (o.Done? ==> body == OtherMount(device, spec))
      ensures Undoable(body, o, old(mounted), mounted)
    {
      o, body := Done, [];
      if spec.mount != ROOT {
        var mkdir: bool := *;
        calm := calm && mkdir;
        if !mkdir {
          o := Raised;
          return;
        }
        body := OtherMount(device, spec);
        assert body[..0] == [];
        o := MountOne(Node(device + "p", spec.number), spec.mount);
      }
    }

    method MountOthers(device: string, parts: seq<Spec>) returns (o: Outcome, body: seq<Command>)
      modifies this`trace, this`mounted, this`calm, this`failures
      ensures AtMostOne(old(failures), failures, o)
      ensures calm <==> old(calm) && o.Done?
      ensures trace == old(trace) + body && body <= OtherMounts(device, parts)
      ensures !o.Crashed? && (o.Done? ==> body == OtherMounts(device, parts))
      ensures Undoable(body, o, old(mounted), mounted)
    {
      hide Destinations, OtherMount;
      o, body := Done, [];
      NoDestinations([]);
      for i := 0 to |parts|
        invariant (calm <==> old(calm)) && failures == old(failures)
        invariant o.Done? && body == OtherMounts(device, parts[..i]) && trace == old(trace) + body
        invariant mounted == old(mounted) + Destinations(body)
      {
        OtherMountsPrefix(device, parts, i + 1);
        assert parts[..i + 1][..i] == parts[..i];
        var more;
        ghost var mid := mounted;
        o, more := MountOther(device, parts[i]);
        UndoableJoin(body, more, o, old(mounted), mid, mounted);
        body := body + more;
        if o.IsFailure() {
          return;
        }
      }
      assert parts[..|parts|] == parts;
    }

    method MountRoot(plan: Plan, device: string) returns (o: Outcome, body: seq<Command>)
      requires HasRoot(plan.partitions)
      modifies this`trace, this`mounted, this`calm, this`failures
      ensures AtMostOne(old(failures), failures, o)
      ensures calm <==> old(calm) && o.Done?
      ensures var script := [MountAt(Node(device + "p", RootNumber(plan.partitions)), ROOT), Rsync];
              trace == old(trace) + body && body <= script && (o.Done? ==> body == script)
      ensures !o.Crashed? && Undoable(body, o, old(mounted), mounted)
    {
      var number := FindRoot(plan.partitions);
      var target := Node(device + "p", number);
      body := [MountAt(target, ROOT)];
      assert Destinations(body) == [ROOT] && body[..0] == [];
      o := MountOne(target, ROOT);
      if o.IsFailure() {
        return;
      }
      body := [MountAt(target, ROOT), Rsync];
      assert body[..1] == [MountAt(target, ROOT)];
      o := Run(Rsync);
    }

    method Finish() returns (o: Outcome, body: seq<Command>)
      modifies this`trace, this`calm, this`failures
      ensures AtMostOne(old(failures), failures, o)
      ensures calm <==> old(calm) && o.Done?
      ensures trace == old(trace) + body && body <= [GrubInstall, Sync] && !o.Crashed?
      ensures (o.Done? ==> body == [GrubInstall, Sync]) && Destinations(body) == []
    {
      body := [GrubInstall];
      o := Run(GrubInstall);
      NoDestinations(body);
      if o.IsFailure() {
        return;
      }
      body := [GrubInstall, Sync];
      o := Run(Sync);
      NoDestinations(body);
    }

    method MountAll(plan: Plan, device: string) returns (o: Outcome, body: seq<Command>)
      requires HasRoot(plan.partitions)
      modifies this`trace, this`mounted, this`calm, this`failures
      ensures AtMostOne(old(failures), failures, o)
      ensures calm <==> old(calm) && o.Done?
      ensures trace == old(trace) + body && body <= MountScript(plan, device)
      ensures !o.Crashed? && (o.Done? ==> body == MountScript(plan, device))
      ensures Undoable(body, o, old(mounted), mounted)
    {
      hide Destinations, RootNumber, OtherMounts, HasRoot;
      ghost var others, end := OtherMounts(device, plan.partitions), [GrubInstall, Sync];
      o, body := MountRoot(plan, device);
      if o.IsFailure() {
        return;
      }
      ghost var mid := mounted;
      var more;
      o, more := MountOthers(device, plan.partitions);
      UndoableJoin(body, more, o, old(mounted), mid, mounted);
      PrefixInside(body, more, others, end);
      body := body + more;
      if o.IsFailure() {
        return;
      }
      o, more := Finish();
      UndoableJoin(body, more, o, old(mounted), mounted, mounted);
      body := body + more;
    }

    /** The build proper, up to its end or its first failure. */
    method Build(plan: Plan, loopText: string) returns (o: Outcome, body: seq<Command>)
      requires HasRoot(plan.partitions) && mounted == [] && loop.None?
      modifies this`trace, this`mounted, this`loop, this`calm, this`failures
      ensures AtMostOne(old(failures), failures, o)
      ensures calm ==> old(calm)
      ensures calm && "/dev/loop" <= loopText ==> o.Done?
      ensures o.Done? && old(calm) ==> calm
      ensures trace == old(trace) + body
      ensures body <= Script(plan, loopText) && (o.Done? ==> body == Script(plan, loopText))
      ensures !o.Crashed? && Undoable(body, o, [], mounted)
      ensures loop == (if |body| > 2 then Some(loopText) else None)
      ensures |body| > 2 ==> IsLoopDevice(loopText)
      ensures |body| > 2 ==> "/dev/loop" <= loopText
    {
      hide BuilderLayout, OtherMounts, RootNumber, Destinations, MountScript, HasRoot, Undoable, LaysOut;
      body := [Truncate(plan.diskSize)];
      NothingToUndo(body);
      o := Run(body[0]);
      if o.IsFailure() {
        return;
      }
      body := body + [Losetup];
      NothingToUndo(body);
      o := Run(Losetup);
      if o.IsFailure() {
        return;
      }
      if !IsLoopDevice(loopText) {
        o := Raised;
        return;
      }
      loop := Some(loopText);
      var more;
      o, more := PartitionDevice(plan.(device := loopText));
      NoMounts(plan.(device := loopText), more);
      body := body + more;
      NothingToUndo(body);
      if o.IsFailure() {
        return;
      }
      o, more := MountAll(plan, loopText);
      UndoableJoin(body, more, o, [], [], mounted);
      body := body + more;
    }

    /** One `umount`; its failure is ignored, and the root cannot go before what is mounted on it. */
    method Unmount(destination: Mount)
      modifies this`trace, this`busy, this`calm, this`failures
      ensures calm ==> old(calm) && (old(busy) == {} ==> busy == {})
      ensures trace == old(trace) + [Umount(destination)]
      ensures busy == old(busy) || busy == old(busy) + {destination}
      ensures destination == ROOT && old(busy) != {} ==> ROOT in busy
    {
      var o := Run(Umount(destination));
      if o.IsFailure() || (destination == ROOT && busy != {}) {
        busy := busy + {destination};
      }
    }

    /** `rmtree` of the mount directory: what is still mounted there loses its files. */
    method RemoveMountDirectory()
      modifies this`lost
      ensures lost - old(lost) <= busy && old(lost) <= lost
      ensures thorough ==> lost == old(lost) + busy
    {
      var some: set<Mount> := *;
      lost := lost + if thorough then busy else some * busy;
    }

    /** Unmounts everything, the latest mount first. */
    method UnmountAll()
      requires busy == {}
      modifies this`trace, this`busy, this`calm, this`failures
      ensures calm ==> old(calm) && busy == {}
      ensures trace == old(trace) + Reverse(mounted)
      ensures forall d <- busy :: d in mounted
      ensures mounted != [] && mounted[0] == ROOT ==> (ROOT in busy <==> busy != {})
    {
      var i := |mounted|;
      assert mounted[i..] == [];
      while i > 0
        invariant 0 <= i <= |mounted|
        invariant calm ==> old(calm) && busy == {}
        invariant trace == old(trace) + Reverse(mounted[i..])
        invariant forall d <- busy :: d in mounted
        invariant i == 0 && mounted != [] && mounted[0] == ROOT ==> (ROOT in busy <==> busy != {})
      {
        i := i - 1;
        assert mounted[i..][1..] == mounted[i + 1..];
        Unmount(mounted[i]);
      }
      assert mounted[0..] == mounted;
    }

    /** Whatever happens, everything mounted is unmounted again if it can be, the latest mount first,
        and the loop device is detached; a build that completes has run the whole script.  Failing
        umounts are ignored: the image of a completed build has what was written to its root if and
        only if every umount succeeded. */
    method Execute(plan: Plan, loopText: string) returns (o: Outcome, body: seq<Command>)
      requires HasRoot(plan.partitions) && mounted == [] && loop.None? && busy == {} && lost == {}
      modifies this
      ensures calm ==> old(calm) && busy == {}
      ensures calm && "/dev/loop" <= loopText ==> o.Done?
      ensures |body| > 2 ==> "/dev/loop" <= loopText
      ensures body <= Script(plan, loopText) && (o.Done? ==> body == Script(plan, loopText))
      ensures Undoable(body, o, [], mounted)
      ensures trace == old(trace) + body + Reverse(mounted) + if |body| > 2 then [Detach(loopText)] else []
      ensures lost <= busy && forall d <- busy :: d in mounted
      ensures o.Done? && thorough ==> (ROOT !in lost <==> busy == {})
    {
      o, body := Build(plan, loopText);
      label Built:
      UnmountAll();
      if loop.Some? {
        var ignored := Run(Detach(loop.value));
      }
      RemoveMountDirectory();
      if o.Done? {
        RootIsFirst(plan, loopText);
      }
    }
  }

  /** A whole script mounts the root before anything else. */
  lemma RootIsFirst(plan: Plan, loop: string)
    requires HasRoot(plan.partitions)
    ensures var mounts := Destinations(Script(plan, loop)); mounts != [] && mounts[0] == ROOT
  {
    hide BuilderLayout, OtherMounts, RootNumber, Destinations, HasRoot;
    var layout := BuilderLayout(plan.(device := loop));
    var start := [Truncate(plan.diskSize), Losetup];
    NoMounts(plan.(device := loop), layout);
    NoDestinations(start);
    NoDestinations(layout);
    DestinationsJoin(start, layout);
    var target := Node(loop + "p", RootNumber(plan.partitions));
    var rest := OtherMounts(loop, plan.partitions) + [GrubInstall, Sync];
    assert MountScript(plan, loop) == [MountAt(target, ROOT), Rsync] + rest;
    RootMountLeads(target, rest);
    DestinationsJoin(start + layout, MountScript(plan, loop));
  }

  lemma RootMountLeads(target: Node, rest: seq<Command>)
    ensures var mounts := Destinations([MountAt(target, ROOT), Rsync] + rest); mounts != [] && mounts[0] == ROOT
  {
    var head := [MountAt(target, ROOT), Rsync];
    assert head[..1] == [MountAt(target, ROOT)] && head[..1][..0] == [];
    assert Destinations(head[..1]) == [ROOT];
    DestinationsJoin(head, rest);
  }
}
