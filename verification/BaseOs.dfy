/** The controlled Debian base updater: one approved plan, checked twice, installed once. */
module BaseOs {
  import opened Common
  import Sorting

  type Version = string

  // ---------------------------------------------------------------- apt's simulation output

  /** Length of the longest run of non-space characters at the start of `s`. */
  function TokenLength(s: string): (n: nat)
    ensures n <= |s|
    ensures forall i :: 0 <= i < n ==> !IsSpace(s[i])
    ensures n < |s| ==> IsSpace(s[n])
  {
    if s == "" || IsSpace(s[0]) then 0 else 1 + TokenLength(s[1..])
  }

  function SpaceLength(s: string): (n: nat)
    ensures n <= |s|
    ensures forall i :: 0 <= i < n ==> IsSpace(s[i])
    ensures n < |s| ==> !IsSpace(s[n])
  {
    if s == "" || !IsSpace(s[0]) then 0 else 1 + SpaceLength(s[1..])
  }

  /** Position of the first closing bracket, or the length of `s`. */
  function BracketLength(s: string): (n: nat)
    ensures n <= |s|
    ensures forall i :: 0 <= i < n ==> s[i] != ']'
    ensures n < |s| ==> s[n] == ']'
  {
    if s == "" || s[0] == ']' then 0 else 1 + BracketLength(s[1..])
  }

  /** One or more spaces, then a non-empty token: `\s+(\S+)`. */
  function SpacedToken(s: string): Option<(string, string)> {
    var rest := s[SpaceLength(s)..];
    var n := TokenLength(rest);
    if SpaceLength(s) == 0 || n == 0 then None else Some((rest[..n], rest[n..]))
  }

  /** The optional bracketed version: `(?:\s+\[([^\]]+)\])?`. */
  function Bracketed(s: string): (Option<string>, string) {
    var rest := s[SpaceLength(s)..];
    if SpaceLength(s) == 0 || rest == "" || rest[0] != '[' then (None, s)
    else
      var n := BracketLength(rest[1..]);
      if n == 0 || n == |rest[1..]| then (None, s) else (Some(rest[1..][..n]), rest[1..][n + 1..])
  }

  datatype Line =
    | Inst(package: string, installed: Option<Version>, candidate: Version)
    | Remv(package: string, installed: Option<Version>)
    | Other

  function ReadInst(s: string): Line {
    match SpacedToken(s)
    case None => Other
    case Some((package, afterPackage)) =>
      var (installed, afterInstalled) := Bracketed(afterPackage);
      match SpacedToken(afterInstalled)
      case None => Other
      case Some((token, _)) =>
        if |token| >= 2 && token[0] == '(' then Inst(package, installed, token[1..]) else Other
  }

  function ReadRemv(s: string): Line {
    match SpacedToken(s)
    case None => Other
    case Some((package, afterPackage)) => Remv(package, Bracketed(afterPackage).0)
  }

  /** What the two regular expressions make of one line. */
  function ReadLine(s: string): Line {
    if "Inst" <= s then ReadInst(s[4..]) else if "Remv" <= s then ReadRemv(s[4..]) else Other
  }

  predicate IsToken(s: string) {
    s != "" && forall c <- s :: !IsSpace(c)
  }

  predicate IsVersion(s: string) {
    s != "" && ']' !in s
  }

  predicate EndsToken(s: string) {
    s == "" || IsSpace(s[0])
  }

  lemma {:induction false} TokenOf(token: string, rest: string)
    requires IsToken(token) && EndsToken(rest)
    ensures TokenLength(token + rest) == |token|
  {
    assert (token + rest)[1..] == token[1..] + rest;
    if |token| > 1 {
      TokenOf(token[1..], rest);
    }
  }

  lemma {:induction false} BracketOf(inside: string, rest: string)
    requires ']' !in inside
    ensures BracketLength(inside + "]" + rest) == |inside|
  {
    if inside != "" {
      assert (inside + "]" + rest)[1..] == inside[1..] + "]" + rest;
      BracketOf(inside[1..], rest);
    }
  }

  lemma Spaces()
    ensures IsSpace(' ') && !IsSpace('(') && !IsSpace('[')
  {
  }

  /** One or more spaces. */
  predicate IsGap(s: string) {
    s != "" && forall c <- s :: IsSpace(c)
  }

  lemma {:induction false} GapOf(gap: string, rest: string)
    requires IsGap(gap) && rest != "" && !IsSpace(rest[0])
    ensures SpaceLength(gap + rest) == |gap|
  {
    assert (gap + rest)[1..] == gap[1..] + rest;
    if |gap| > 1 {
      GapOf(gap[1..], rest);
    } else {
      assert gap[1..] + rest == rest;
    }
  }

  lemma SpacedTokenOf(gap: string, token: string, rest: string)
    requires IsGap(gap) && IsToken(token) && EndsToken(rest)
    ensures SpacedToken(gap + (token + rest)) == Some((token, rest))
  {
    assert token[0] in token && (token + rest)[0] == token[0];
    GapOf(gap, token + rest);
    TokenOf(token, rest);
    assert (gap + (token + rest))[|gap|..] == token + rest;
  }

  /** Only such a text is read as a token. */
  lemma SpacedTokenIs(s: string)
    ensures SpacedToken(s).Some? ==>
              var (token, rest) := SpacedToken(s).value;
              var gap := s[..SpaceLength(s)];
              IsGap(gap) && IsToken(token) && EndsToken(rest) && s == gap + (token + rest)
  {
    if SpacedToken(s).Some? {
      var n := SpaceLength(s);
      var rest := s[n..];
      assert s == s[..n] + rest;
      assert forall i :: 0 <= i < TokenLength(rest) ==> !IsSpace(rest[i]);
      assert rest == rest[..TokenLength(rest)] + rest[TokenLength(rest)..];
    }
  }

  lemma BracketedOf(gap: string, inside: string, rest: string)
    requires IsGap(gap) && IsVersion(inside)
    ensures Bracketed(gap + ("[" + (inside + "]" + rest))) == (Some(inside), rest)
  {
    hide IsSpace;
    Spaces();
    var body := inside + "]" + rest;
    GapOf(gap, "[" + body);
    assert (gap + ("[" + body))[|gap|..] == "[" + body;
    assert ("[" + body)[1..] == body;
    BracketOf(inside, rest);
    assert body[..|inside|] == inside && body[|inside| + 1..] == rest;
  }

  lemma BracketedIs(s: string)
    ensures var (inside, rest) := Bracketed(s);
            var gap := s[..SpaceLength(s)];
            if inside.None? then rest == s
            else IsGap(gap) && IsVersion(inside.value) && s == gap + ("[" + (inside.value + "]" + rest))
  {
    var (inside, rest) := Bracketed(s);
    if inside.Some? {
      var n := SpaceLength(s);
      var body := s[n..][1..];
      assert s == s[..n] + s[n..] && s[n..] == "[" + body;
      var k := BracketLength(body);
      assert body == body[..k] + "]" + body[k + 1..];
    }
  }

  /** What apt prints for a change, whatever spaces it leaves. */
  function ShowInst(gaps: (string, string, string), package: string, installed: Option<Version>, candidate: Version,
                    rest: string): string
  {
    "Inst" + (gaps.0 + (package + (ShowInstalled(gaps.1, installed) + (gaps.2 + (("(" + candidate) + rest)))))
  }

  function ShowInstalled(gap: string, installed: Option<Version>): string {
    if installed.Some? then gap + ("[" + (installed.value + "]" + "")) else ""
  }

  /** A line that says a package of this name is installed or updated. */
  ghost predicate Announces(s: string, package: string, installed: Option<Version>, candidate: Version) {
    exists gaps: (string, string, string), rest: string ::
      && IsGap(gaps.0) && (installed.Some? ==> IsGap(gaps.1) && IsVersion(installed.value)) && IsGap(gaps.2)
      && IsToken(package) && IsToken(candidate) && EndsToken(rest)
      && s == ShowInst(gaps, package, installed, candidate, rest)
  }

  /** It is read back exactly. */
  lemma InstRoundTrip(gaps: (string, string, string), package: string, installed: Option<Version>,
                      candidate: Version, rest: string)
    requires IsGap(gaps.0) && (installed.Some? ==> IsGap(gaps.1)) && IsGap(gaps.2)
    requires IsToken(package) && IsToken(candidate) && (installed.Some? ==> IsVersion(installed.value))
    requires EndsToken(rest)
    ensures ReadLine(ShowInst(gaps, package, installed, candidate, rest)) == Inst(package, installed, candidate)
  {
    hide SpacedToken, Bracketed, IsSpace, IsVersion;
    Spaces();
    var tail := gaps.2 + (("(" + candidate) + rest);
    var after := ShowInstalled(gaps.1, installed) + tail;
    assert gaps.2[0] in gaps.2;
    if installed.Some? {
      assert gaps.1[0] in gaps.1 && after[0] == gaps.1[0];
    } else {
      assert after == tail && tail[0] == gaps.2[0];
    }
    SpacedTokenOf(gaps.0, package, after);
    assert forall c :: c in "(" + candidate <==> c == '(' || c in candidate;
    SpacedTokenOf(gaps.2, "(" + candidate, rest);
    ShownInstalled(gaps.1, installed, gaps.2, ("(" + candidate) + rest);
    var line := ShowInst(gaps, package, installed, candidate, rest);
    assert line[4..] == gaps.0 + (package + after);
    assert ("(" + candidate)[1..] == candidate;
  }

  lemma ShownInstalled(gap: string, installed: Option<Version>, next: string, tail: string)
    requires installed.Some? ==> IsGap(gap) && IsVersion(installed.value)
    requires IsGap(next) && tail != "" && tail[0] == '('
    ensures Bracketed(ShowInstalled(gap, installed) + (next + tail)) == (installed, next + tail)
  {
    hide IsSpace, IsVersion, Bracketed, IsGap;
    if installed.Some? {
      BracketedOf(gap, installed.value, next + tail);
      ShownThen(gap, installed.value, next + tail);
    } else {
      Unbracketed(next, tail);
      assert ShowInstalled(gap, installed) + (next + tail) == next + tail;
    }
  }

  lemma ShownThen(gap: string, version: Version, tail: string)
    ensures ShowInstalled(gap, Some(version)) + tail == gap + ("[" + (version + "]" + tail))
  {
    assert version + "]" + "" == version + "]";
    assert (version + "]") + tail == version + "]" + tail;
    assert ("[" + (version + "]")) + tail == "[" + (version + "]" + tail);
  }

  lemma Unbracketed(next: string, tail: string)
    requires IsGap(next) && tail != "" && tail[0] == '('
    ensures Bracketed(next + tail) == (None, next + tail)
  {
    Spaces();
    GapOf(next, tail);
    assert (next + tail)[|next|..] == tail;
  }

  lemma ShownWhole(gaps: (string, string, string), package: string, installed: Option<Version>, candidate: Version,
                   rest: string, after: string, tail: string)
    requires after == ShowInstalled(gaps.1, installed) + tail
    requires tail == gaps.2 + (("(" + candidate) + rest)
    ensures "Inst" + (gaps.0 + (package + after)) == ShowInst(gaps, package, installed, candidate, rest)
  {
  }

  lemma CandidateIs(token: string)
    requires IsToken(token) && |token| > 1 && token[0] == '('
    ensures IsToken(token[1..]) && token == "(" + token[1..]
  {
    assert forall c <- token[1..] :: c in token;
  }

  /** And nothing else is read as a change. */
  lemma InstIsOnly(s: string)
    requires ReadLine(s).Inst?
    ensures var line := ReadLine(s); Announces(s, line.package, line.installed, line.candidate)
  {
    hide SpacedToken, Bracketed, IsSpace, SpaceLength, TokenLength, IsGap, IsToken, IsVersion, EndsToken, ShowInst,
      ShowInstalled;
    var line := ReadLine(s);
    SpacedTokenIs(s[4..]);
    var (package, after) := SpacedToken(s[4..]).value;
    BracketedIs(after);
    var (installed, tail) := Bracketed(after);
    SpacedTokenIs(tail);
    var (token, rest) := SpacedToken(tail).value;
    var gaps := (s[4..][..SpaceLength(s[4..])], after[..SpaceLength(after)], tail[..SpaceLength(tail)]);
    CandidateIs(token);
    if installed.Some? {
      ShownThen(gaps.1, installed.value, tail);
    } else {
      ShownNone(gaps.1, tail);
    }
    assert s == "Inst" + s[4..];
    ShownWhole(gaps, package, installed, line.candidate, rest, after, tail);
  }

  lemma ShownNone(gap: string, tail: string)
    ensures ShowInstalled(gap, None) + tail == tail
  {
  }

  /** A removal line is read exactly if the first word is followed by a package name. */
  lemma RemvRoundTrip(gap: string, package: string, rest: string)
    requires IsGap(gap) && IsToken(package) && EndsToken(rest)
    ensures ReadLine("Remv" + (gap + (package + rest))) == Remv(package, Bracketed(rest).0)
    ensures forall next: string, installed: Version, end: string ::
              IsGap(next) && IsVersion(installed) && rest == next + ("[" + (installed + "]" + end)) ==>
                Bracketed(rest).0 == Some(installed)
  {
    hide SpacedToken, Bracketed;
    var line := "Remv" + (gap + (package + rest));
    assert line[4..] == gap + (package + rest);
    assert line[0] == 'R';
    SpacedTokenOf(gap, package, rest);
    forall next: string, installed: Version, end: string |
      IsGap(next) && IsVersion(installed) && rest == next + ("[" + (installed + "]" + end))
      ensures Bracketed(rest).0 == Some(installed)
    {
      BracketedOf(next, installed, end);
    }
  }

  lemma RemvIsOnly(s: string)
    requires ReadLine(s).Remv?
    ensures exists gap: string, rest: string ::
              IsGap(gap) && IsToken(ReadLine(s).package) && EndsToken(rest)
              && s == "Remv" + (gap + (ReadLine(s).package + rest))
  {
    assert s == "Remv" + s[4..];
    SpacedTokenIs(s[4..]);
  }

  // ---------------------------------------------------------------- plans

  datatype Change = Change(package: string, base: string, installed: Option<Version>, candidate: Version, isNew: bool)

  datatype RawPlan = RawPlan(changes: seq<Change>, removals: seq<string>)

  /** `package.split(":", 1)[0]`: the name without its architecture. */
  function BaseName(package: string): string {
    if package == "" || package[0] == ':' then "" else [package[0]] + BaseName(package[1..])
  }

  /** What precedes the first colon, if there is one. */
  lemma {:induction false} BaseNameIs(package: string)
    ensures ':' !in BaseName(package)
    ensures package == BaseName(package) || BaseName(package) + ":" <= package
  {
    if package != "" && package[0] != ':' {
      BaseNameIs(package[1..]);
      assert package == [package[0]] + package[1..];
      if BaseName(package[1..]) + ":" <= package[1..] {
        assert BaseName(package) + ":" == [package[0]] + (BaseName(package[1..]) + ":");
      }
    }
  }

  /** `package` is `name`, or `name` for some architecture. */
  ghost predicate IsCalled(package: string, name: string) {
    ':' !in name && (package == name || name + ":" <= package)
  }

  /** A package name without a colon is its own base name and that of all its architectures. */
  lemma {:induction false} BaseNameOf(p: string, package: string)
    requires IsCalled(package, p)
    ensures BaseName(package) == p
  {
    if p != "" {
      assert package[0] == p[0] && p == [p[0]] + p[1..];
      assert package[1..] == p[1..] || p[1..] + ":" <= package[1..];
      BaseNameOf(p[1..], package[1..]);
    }
  }

  function ChangeOf(line: Line): Change
    requires line.Inst?
  {
    Change(line.package, BaseName(line.package), line.installed, line.candidate, line.installed.None?)
  }

  /** The plan a simulation output describes. */
  function PlanOf(output: seq<string>): RawPlan {
    if output == [] then RawPlan([], [])
    else
      var front := PlanOf(output[..|output| - 1]);
      match ReadLine(output[|output| - 1])
      case Other => front
      case Remv(package, _) => front.(removals := front.removals + [package])
      case Inst(p, i, c) => front.(changes := front.changes + [ChangeOf(Inst(p, i, c))])
  }

  method ParsePlan(output: seq<string>) returns (plan: RawPlan)
    ensures plan == PlanOf(output)
  {
    hide ReadLine, BaseName;
    var changes, removals := [], [];
    for i := 0 to |output|
      invariant RawPlan(changes, removals) == PlanOf(output[..i])
    {
      assert output[..i + 1][..i] == output[..i];
      var line := ReadLine(output[i]);
      match line {
        case Inst(p, v, c) => changes := changes + [ChangeOf(line)];
        case Remv(p, v) => removals := removals + [p];
        case Other =>
      }
    }
    assert output[..|output|] == output;
    plan := RawPlan(changes, removals);
  }

  /** The plan lists every Inst line, in order, and no other; it has a removal as soon as one line
      announces one. */
  lemma {:induction false} PlanIsComplete(output: seq<string>)
    ensures PlanOf(output).removals == [] <==> forall i :: 0 <= i < |output| ==> !ReadLine(output[i]).Remv?
    ensures |PlanOf(output).changes| == InstCount(output)
    ensures forall i :: 0 <= i < |output| && ReadLine(output[i]).Inst? ==>
      && InstCount(output[..i]) < |PlanOf(output).changes|
      && Describes(PlanOf(output).changes[InstCount(output[..i])], ReadLine(output[i]))
  {
    hide ReadLine, BaseName, Describes;
    if output != [] {
      var n := |output| - 1;
      PlanIsComplete(output[..n]);
      assert forall i :: 0 <= i < n ==> output[..n][..i] == output[..i];
      if ReadLine(output[n]).Inst? {
        ChangeDescribes(ReadLine(output[n]));
      }
    }
  }

  /** The change is what the line says; its base name is the package without an architecture. */
  ghost predicate Describes(c: Change, line: Line)
    requires line.Inst?
  {
    && c.package == line.package && c.installed == line.installed && c.candidate == line.candidate
    && (c.isNew <==> line.installed.None?) && IsCalled(c.package, c.base)
  }

  lemma ChangeDescribes(line: Line)
    requires line.Inst?
    ensures Describes(ChangeOf(line), line)
  {
    BaseNameIs(line.package);
  }

  function InstCount(output: seq<string>): nat {
    if output == [] then 0
    else InstCount(output[..|output| - 1]) + if ReadLine(output[|output| - 1]).Inst? then 1 else 0
  }

  datatype Rules = Rules(
    maximumChanged: int, maximumNew: int, protectedPackages: set<string>, rebootPrefixes: seq<string>)

  type Order = (Version, Version) -> bool

  function NewCount(changes: seq<Change>): nat {
    if changes == [] then 0
    else NewCount(changes[..|changes| - 1]) + if changes[|changes| - 1].isNew then 1 else 0
  }

  ghost predicate Acceptable(rules: Rules, atLeast: Order, plan: RawPlan) {
    && plan.removals == []
    && |plan.changes| <= rules.maximumChanged
    && NewCount(plan.changes) <= rules.maximumNew
    && forall c <- plan.changes ::
         && c.base !in rules.protectedPackages
         && (c.installed.Some? ==> atLeast(c.candidate, c.installed.value))
  }

  /** No change touches a protected package, on any architecture. */
  ghost predicate Untouched(rules: Rules, changes: seq<Change>) {
    forall c <- changes, p <- rules.protectedPackages :: !IsCalled(c.package, p)
  }

  /** The positions of the packages that are not installed yet. */
  ghost function NewOnes(changes: seq<Change>): set<int> {
    set i | 0 <= i < |changes| && changes[i].installed.None?
  }

  /** What a plan read from apt's output must be, told from package names and versions alone. */
  ghost predicate Harmless(rules: Rules, atLeast: Order, plan: RawPlan) {
    && plan.removals == []
    && |plan.changes| <= rules.maximumChanged
    && |NewOnes(plan.changes)| <= rules.maximumNew
    && Untouched(rules, plan.changes)
    && forall c <- plan.changes :: c.installed.Some? ==> atLeast(c.candidate, c.installed.value)
  }

  lemma {:induction false} NewCountIs(changes: seq<Change>)
    requires forall c <- changes :: Parsed(c)
    ensures NewCount(changes) == |NewOnes(changes)|
  {
    if changes != [] {
      var n := |changes| - 1;
      NewCountIs(changes[..n]);
      assert Parsed(changes[n]);
      assert NewOnes(changes) == NewOnes(changes[..n]) + if changes[n].isNew then {n} else {};
    }
  }

  /** Package names have no colon. */
  ghost predicate PlainNames(names: set<string>) {
    forall p <- names :: ':' !in p
  }

  lemma UntouchedExactly(rules: Rules, changes: seq<Change>)
    requires forall c <- changes :: Parsed(c)
    ensures (forall c <- changes :: c.base !in rules.protectedPackages) ==> Untouched(rules, changes)
    ensures PlainNames(rules.protectedPackages) && Untouched(rules, changes) ==>
              forall c <- changes :: c.base !in rules.protectedPackages
  {
    if PlainNames(rules.protectedPackages) && Untouched(rules, changes) {
      forall c <- changes
        ensures c.base !in rules.protectedPackages
      {
        BaseNameIs(c.package);
        assert IsCalled(c.package, c.base);
      }
    }
    if forall c <- changes :: c.base !in rules.protectedPackages {
      forall c <- changes, p <- rules.protectedPackages
        ensures !IsCalled(c.package, p)
      {
        if IsCalled(c.package, p) {
          BaseNameOf(p, c.package);
        }
      }
    }
  }

  lemma AcceptableIsHarmless(rules: Rules, atLeast: Order, plan: RawPlan)
    requires forall c <- plan.changes :: Parsed(c)
    ensures Acceptable(rules, atLeast, plan) ==> Harmless(rules, atLeast, plan)
    ensures PlainNames(rules.protectedPackages) && Harmless(rules, atLeast, plan) ==> Acceptable(rules, atLeast, plan)
  {
    hide PlainNames, Parsed, NewCount, NewOnes, Untouched;
    NewCountIs(plan.changes);
    UntouchedExactly(rules, plan.changes);
  }

  /** Some package whose name begins with one of these prefixes changes. */
  ghost predicate RebootAdvised(rules: Rules, changes: seq<Change>) {
    exists c <- changes, p <- rules.rebootPrefixes :: |p| <= |c.base| && c.base[..|p|] == p
  }

  /** `validate_plan` refuses exactly the plans that remove, exceed a limit, touch a protected
      package or downgrade.  An accepted plan read from apt's output is `Harmless`: no protected
      package is in it on any architecture; and if no protected name has a colon, as no package name
      has, every harmless plan is accepted. */
  method ValidatePlan(rules: Rules, atLeast: Order, plan: RawPlan) returns (accepted: bool, rebootRecommended: bool)
    ensures accepted <==> Acceptable(rules, atLeast, plan)
    ensures accepted ==> forall output :: plan == PlanOf(output) ==> Harmless(rules, atLeast, plan)
    ensures PlainNames(rules.protectedPackages) && Harmless(rules, atLeast, plan) ==>
              forall output :: plan == PlanOf(output) ==> accepted
    ensures accepted ==> (rebootRecommended <==> RebootAdvised(rules, plan.changes))
  {
    rebootRecommended := false;
    if plan.removals != [] || |plan.changes| > rules.maximumChanged {
      return false, false;
    }
    var added := 0;
    var allowed := true;
    for i := 0 to |plan.changes|
      invariant added == NewCount(plan.changes[..i])
      invariant allowed <==> forall c <- plan.changes[..i] ::
        && c.base !in rules.protectedPackages
        && (c.installed.Some? ==> atLeast(c.candidate, c.installed.value))
      invariant rebootRecommended <==> exists c <- plan.changes[..i] :: HasPrefix(rules.rebootPrefixes, c.base)
    {
      var c := plan.changes[i];
      assert plan.changes[..i + 1] == plan.changes[..i] + [c];
      added := added + if c.isNew then 1 else 0;
      allowed := allowed && c.base !in rules.protectedPackages
                 && (c.installed.Some? ==> atLeast(c.candidate, c.installed.value));
      rebootRecommended := rebootRecommended || HasPrefix(rules.rebootPrefixes, c.base);
    }
    assert plan.changes[..|plan.changes|] == plan.changes;
    accepted := added <= rules.maximumNew && allowed;
    hide PlanOf, Harmless, Parsed;
    forall output | plan == PlanOf(output)
      ensures accepted ==> Harmless(rules, atLeast, plan)
      ensures PlainNames(rules.protectedPackages) && Harmless(rules, atLeast, plan) ==> accepted
    {
      BasesFollow(output);
      AcceptableIsHarmless(rules, atLeast, plan);
    }
  }

  /** `str.startswith` with a tuple of prefixes. */
  predicate HasPrefix(prefixes: seq<string>, s: string) {
    exists p <- prefixes :: p <= s
  }

  // ---------------------------------------------------------------- fingerprints

  datatype Stable = Stable(package: string, installed: Option<Version>, candidate: Version, isNew: bool)

  /** SHA-256 of the canonical JSON text, idealised as injective. */
  datatype Fingerprint = Fingerprint(of: seq<Stable>)

  function PlanFingerprint(changes: seq<Change>): Fingerprint {
    Fingerprint(seq(|changes|, i requires 0 <= i < |changes| =>
      Stable(changes[i].package, changes[i].installed, changes[i].candidate, changes[i].isNew)))
  }

  /** In a parsed change the omitted fields follow from the others. */
  predicate Parsed(c: Change) {
    c.base == BaseName(c.package) && c.isNew == c.installed.None?
  }

  /** The fingerprint leaves fields out, yet for parsed plans it fixes the whole ordered list. */
  lemma FingerprintFixesPlan(x: seq<Change>, y: seq<Change>)
    requires PlanFingerprint(x) == PlanFingerprint(y)
    requires (forall c <- x :: Parsed(c)) && forall c <- y :: Parsed(c)
    ensures x == y
  {
    assert |PlanFingerprint(x).of| == |PlanFingerprint(y).of|;
    forall i | 0 <= i < |x|
      ensures x[i] == y[i]
    {
      assert PlanFingerprint(x).of[i] == PlanFingerprint(y).of[i];
      assert Parsed(x[i]) && Parsed(y[i]);
    }
  }

  lemma {:induction false} BasesFollow(output: seq<string>)
    ensures forall c <- PlanOf(output).changes :: Parsed(c)
  {
    if output != [] {
      BasesFollow(output[..|output| - 1]);
    }
  }

  // ---------------------------------------------------------------- the machine

  datatype Value = Text(text: string) | Count(count: int) | Flag(flag: bool) | Sha(sha: Fingerprint) | Null

  type State = map<string, Value>

  ghost predicate Says(state: State, key: string, value: Value) {
    key in state && state[key] == value
  }

  datatype Event = Simulated(output: seq<string>) | InstallRun

  ghost predicate ApprovedAt(rules: Rules, atLeast: Order, journal: seq<Event>, k: nat) {
    k < |journal| && journal[k].InstallRun? ==>
      && k >= 2 && journal[k - 1].Simulated? && journal[k - 2].Simulated?
      && PlanOf(journal[k - 1].output).changes == PlanOf(journal[k - 2].output).changes
      && Acceptable(rules, atLeast, PlanOf(journal[k - 1].output))
  }

  /** Every installation was preceded by two simulations of one and the same acceptable change list. */
  ghost predicate InstallsApproved(rules: Rules, atLeast: Order, journal: seq<Event>) {
    forall k: nat :: ApprovedAt(rules, atLeast, journal, k)
  }

  /** What "completed" promises about a plan. */
  ghost predicate Fulfilled(installed: map<string, Version>, changes: seq<Change>) {
    forall c <- changes :: c.package in installed && installed[c.package] == c.candidate
  }

  function VersionOf(installed: map<string, Version>, package: string): Option<Version> {
    if package in installed then Some(installed[package]) else None
  }

  /** The plan states what is installed. */
  predicate Truthful(changes: seq<Change>, installed: map<string, Version>) {
    forall c <- changes :: c.installed == VersionOf(installed, c.package)
  }

  /** Every package that was installed still is, at its old version or at a planned candidate. */
  predicate OnlyPlanned(before: map<string, Version>, after: map<string, Version>, changes: seq<Change>) {
    forall p <- before ::
      p in after && (after[p] == before[p] || exists c <- changes :: c.package == p && after[p] == c.candidate)
  }

  lemma OnlyPlannedTwice(
    a: map<string, Version>, b: map<string, Version>, c: map<string, Version>, changes: seq<Change>)
    requires OnlyPlanned(a, b, changes) && OnlyPlanned(b, c, changes)
    ensures OnlyPlanned(a, c, changes)
  {
  }

  /** What an update does besides reading and writing its state; a run of apt or dpkg is marked if it
      ended with an error code. */
  datatype Act =
    | Preflight | SavePlan | Audit | Download
    | AptRun(bad: bool) | DpkgRun(bad: bool) | AptCheck
    | Probe | Clean

  /** One installation between these acts: apt succeeded, or it failed, dpkg repaired, and apt finds
      nothing wrong. */
  ghost predicate Took(before: seq<Act>, after: seq<Act>, first: seq<Act>, last: seq<Act>) {
    || after == before + first + [AptRun(false)] + last
    || after == before + first + [AptRun(true), DpkgRun(false), AptCheck] + last
  }

  lemma TookMore(a: seq<Act>, b: seq<Act>, c: seq<Act>, d: seq<Act>, head: seq<Act>, first: seq<Act>, last: seq<Act>,
                 tail: seq<Act>)
    requires b == a + head && Took(b, c, first, last) && d == c + tail
    ensures Took(a, d, head + first, last + tail)
  {
  }

  lemma TookWhole(a: seq<Act>, b: seq<Act>, c: seq<Act>)
    requires b == a + [Preflight, SavePlan, Audit] + [Audit] && Took(b, c, [Download], [Probe, Audit, Clean])
    ensures Took(a, c, [Preflight, SavePlan, Audit, Audit, Download], [Probe, Audit, Clean])
  {
    var head := [Preflight, SavePlan, Audit, Audit];
    assert b == a + head;
    TookMore(a, b, c, c, head, [Download], [Probe, Audit, Clean], []);
    assert head + [Download] == [Preflight, SavePlan, Audit, Audit, Download];
    assert [Probe, Audit, Clean] + [] == [Probe, Audit, Clean];
  }

  /** A step can fail with the runtime's own error (`Raised`), which the updater catches, or end the
      process (`Crashed`): a power cut or any other exception, which it does not catch. */
  class AptHost {
    const rules: Rules
    const atLeast: Order

    /** The hypothesis that apt and dpkg keep to their word: a simulation names the installed versions,
        and an installation leaves every package at its old version or at a planned candidate. */
    const truthful: bool

    var installed: map<string, Version>
    var state: State
    var approved: Option<seq<Change>>       // checkpoint/approved-plan.json
    ghost var journal: seq<Event>

    /** The last run of apt or dpkg that was to install something succeeded. */
    ghost var lastRunOk: bool

    /** What has been attempted, in order. */
    ghost var acts: seq<Act>

    /** No step has failed, no probe was bad, and an installation installed what it was to. */
    ghost var calm: bool

    constructor (rules: Rules, atLeast: Order, truthful: bool, installed: map<string, Version>)
      ensures this.rules == rules && this.atLeast == atLeast && this.truthful == truthful
      ensures this.installed == installed
      ensures journal == [] && state == map[] && calm
    {
      this.rules, this.atLeast, this.truthful, this.installed := rules, atLeast, truthful, installed;
      state, approved, journal, calm, lastRunOk, acts := map[], None, [], true, true, [];
    }

    method Step(act: Act) returns (o: Outcome)
      modifies this`calm, this`acts
      ensures calm <==> old(calm) && o.Done?
      ensures acts == old(acts) + [act]
    {
      o := *;
      acts := acts + [act];
      calm := calm && o.Done?;
    }

    /** `_write_state`: merges into whatever the file already holds. */
    method WriteState(updates: State) returns (o: Outcome)
      modifies this`state, this`calm
      ensures calm <==> old(calm) && o.Done?
      ensures o.Done? ==> state == old(state) + map["update_id" := Text("xaac-base-os-update")] + updates
      ensures o.Raised? ==> state == old(state)
      ensures state == old(state) || state == old(state) + map["update_id" := Text("xaac-base-os-update")] + updates
    {
      o := *;
      var reached: bool := *;
      if o.Done? || (o.Crashed? && reached) {
        state := state + map["update_id" := Text("xaac-base-os-update")] + updates;
      }
      calm := calm && o.Done?;
    }

    method Simulate() returns (o: Outcome, output: seq<string>)
      modifies this`journal, this`calm
      ensures calm <==> old(calm) && o.Done?
      ensures !o.Done? ==> journal == old(journal)
      ensures o.Done? ==> journal == old(journal) + [Simulated(output)]
      ensures truthful && o.Done? ==> Truthful(PlanOf(output).changes, installed)
    {
      o := *;
      output := *;
      if truthful && !Truthful(PlanOf(output).changes, installed) {
        output := [];
      }
      if o.Done? {
        journal := journal + [Simulated(output)];
      }
      calm := calm && o.Done?;
    }

    /** `_snapshot_checkpoint`. */
    method Checkpoint(changes: seq<Change>) returns (o: Outcome)
      modifies this`approved, this`calm
      ensures calm <==> old(calm) && o.Done?
      ensures o.Done? ==> approved == Some(changes)
    {
      o := *;
      approved := *;
      if o.Done? {
        approved := Some(changes);
      }
      calm := calm && o.Done?;
    }

    /** `apt-get upgrade`, and its repair by `dpkg --configure -a`: any packages may change, unless
        they keep to the plan. */
    method Install(planned: seq<Change>) returns (o: Outcome, ok: bool)
      requires Says(state, "status", Text("installing"))
      modifies this`installed, this`journal, this`calm, this`lastRunOk, this`acts
      ensures o.Done? ==> lastRunOk == ok
      ensures acts == old(acts) + [AptRun(o.Done? && !ok)]
      ensures journal == old(journal) + [InstallRun]
      ensures calm ==> old(calm) && o.Done? && ok && Fulfilled(installed, planned)
      ensures truthful ==> OnlyPlanned(old(installed), installed, planned)
    {
      o := *;
      ok := *;
      var before := installed;
      installed := *;
      if truthful && !OnlyPlanned(before, installed, planned) {
        installed := before;
      }
      journal := journal + [InstallRun];
      lastRunOk, acts := ok, acts + [AptRun(o.Done? && !ok)];
      calm := calm && o.Done? && ok && Fulfilled(installed, planned);
    }

    method Repair(planned: seq<Change>) returns (o: Outcome, ok: bool)
      modifies this`installed, this`calm, this`lastRunOk, this`acts
      ensures o.Done? ==> lastRunOk == ok
      ensures acts == old(acts) + [DpkgRun(o.Done? && !ok)]
      ensures calm ==> old(calm)
      ensures o.Done? && old(calm) ==> calm
      ensures truthful ==> OnlyPlanned(old(installed), installed, planned)
    {
      o := *;
      ok := *;
      var before := installed;
      installed := *;
      if truthful && !OnlyPlanned(before, installed, planned) {
        installed := before;
      }
      lastRunOk, acts := ok, acts + [DpkgRun(o.Done? && !ok)];
    }

    method QueryInstalled(package: string) returns (o: Outcome, version: Option<Version>)
      modifies this`calm
      ensures calm <==> old(calm) && o.Done?
      ensures o.Done? ==> version == if package in installed then Some(installed[package]) else None
    {
      o := *;
      version := if package in installed then Some(installed[package]) else None;
      calm := calm && o.Done?;
    }
  }

  // ---------------------------------------------------------------- checking

  ghost predicate MoreSimulated(a: seq<Event>, b: seq<Event>) {
    |b| == |a| + 1 && a <= b && b[|a|].Simulated?
  }

  /** `check_updates`: preflight, refresh, simulate, validate, record. */
  method CheckUpdates(h: AptHost)
    returns (o: Outcome, changes: seq<Change>, reboot: bool, ghost output: seq<string>)
    modifies h`state, h`journal, h`calm, h`acts
    ensures o.Done? ==> h.acts == old(h.acts) + [Preflight, SavePlan, Audit]
    ensures h.calm ==> old(h.calm) && h.journal == old(h.journal) + [Simulated(output)]
    ensures h.calm ==> if Acceptable(h.rules, h.atLeast, PlanOf(output)) then o.Done? else o.Raised?
    ensures h.journal == old(h.journal) || MoreSimulated(old(h.journal), h.journal)
    ensures o.Done? ==>
      && h.journal == old(h.journal) + [Simulated(output)]
      && changes == PlanOf(output).changes && Acceptable(h.rules, h.atLeast, PlanOf(output))
      && (h.truthful ==> Truthful(changes, h.installed)) && (forall c <- changes :: Parsed(c))
      && (reboot <==> RebootAdvised(h.rules, changes))
      && Says(h.state, "status", Text(if changes == [] then "current" else "available"))
      && Says(h.state, "available_packages", Count(|changes|))
      && Says(h.state, "last_plan_fingerprint", Sha(PlanFingerprint(changes)))
      && Says(h.state, "last_error", Null)
    ensures o.Done? && old(h.calm) ==> h.calm
  {
    hide Acceptable, PlanOf, PlanFingerprint, Truthful, Parsed, RebootAdvised, Harmless, PlainNames, NewOnes;
    changes, output, reboot := [], [], false;
    :- h.Step(Preflight);
    var lines :- h.Simulate();
    output := lines;
    var plan := ParsePlan(lines);
    BasesFollow(lines);
    var accepted;
    accepted, reboot := ValidatePlan(h.rules, h.atLeast, plan);
    if !accepted {
      return Raised, changes, reboot, output;
    }
    o := RecordPlan(h, plan.changes);
    changes := plan.changes;
  }

  /** The plan file, the state file and the audit entry of a check. */
  method RecordPlan(h: AptHost, changes: seq<Change>) returns (o: Outcome)
    modifies h`state, h`calm, h`acts
    ensures h.calm <==> old(h.calm) && o.Done?
    ensures o.Done? ==> h.acts == old(h.acts) + [SavePlan, Audit]
    ensures o.Done? ==>
      && Says(h.state, "status", Text(if changes == [] then "current" else "available"))
      && Says(h.state, "available_packages", Count(|changes|))
      && Says(h.state, "last_plan_fingerprint", Sha(PlanFingerprint(changes)))
      && Says(h.state, "last_error", Null)
  {
    hide PlanFingerprint;
    :- h.Step(SavePlan);
    :- h.WriteState(map[
      "status" := Text(if changes == [] then "current" else "available"),
      "available_packages" := Count(|changes|),
      "last_plan_fingerprint" := Sha(PlanFingerprint(changes)),
      "last_error" := Null]);
    :- h.Step(Audit);
    return Done;
  }

  /** `_post_health`: `ok` exactly when the other probes are good and every planned package is at
      its candidate. */
  method PostHealth(h: AptHost, changes: seq<Change>) returns (o: Outcome, ok: bool, probes: bool)
    modifies h`calm, h`acts
    ensures h.calm ==> old(h.calm) && o.Done? && probes
    ensures o.Done? ==> h.acts == old(h.acts) + [Probe]
    ensures o.Done? ==> (ok <==> probes && Fulfilled(h.installed, changes))
  {
    probes := *;
    h.calm := h.calm && probes;
    ok := probes;
    for i := 0 to |changes|
      invariant (h.calm ==> old(h.calm) && probes) && h.acts == old(h.acts)
      invariant ok <==> probes && forall j :: 0 <= j < i ==>
        changes[j].package in h.installed && h.installed[changes[j].package] == changes[j].candidate
    {
      var actual :- h.QueryInstalled(changes[i].package);
      ok := ok && actual == Some(changes[i].candidate);
    }
    o := h.Step(Probe);
  }

  // ---------------------------------------------------------------- updating

  /** What follows an approved list when nothing fails: one more simulation, at position n of the
      record, and the installation if and only if it repeats the list. */
  ghost predicate Answers(
    rules: Rules, atLeast: Order, journal: seq<Event>, n: nat, changes: seq<Change>, o: Outcome)
  {
    && n < |journal| && journal[n].Simulated?
    && var again := PlanOf(journal[n].output);
    if Acceptable(rules, atLeast, again) && again.changes == changes
    then o.Done? && |journal| == n + 2 && journal[n + 1].InstallRun?
    else o.Raised? && |journal| == n + 1
  }

  /** What a whole update does when nothing fails: it refuses an unacceptable plan, stops at an empty
      one, and otherwise installs if and only if the second simulation repeats the first. */
  ghost predicate Outcomes(rules: Rules, atLeast: Order, journal: seq<Event>, n: nat, o: Outcome) {
    && n < |journal| && journal[n].Simulated?
    && var plan := PlanOf(journal[n].output);
    if !Acceptable(rules, atLeast, plan) then o.Raised? && |journal| == n + 1
    else if plan.changes == [] then o.Done? && |journal| == n + 1
    else Answers(rules, atLeast, journal, n + 1, plan.changes, o)
  }

  ghost predicate Completed(h: AptHost, changes: seq<Change>)
    reads h`state, h`approved, h`installed, h`lastRunOk
  {
    && Says(h.state, "status", Text("completed")) && Says(h.state, "last_error", Null)
    && Says(h.state, "approved_plan_fingerprint", Sha(PlanFingerprint(changes)))
    && Says(h.state, "changed_packages", Count(|changes|))
    && Says(h.state, "new_packages", Count(|NewOnes(changes)|))
    && (RebootAdvised(h.rules, changes) ==> Says(h.state, "reboot_required", Flag(true)))
    && h.approved == Some(changes) && h.lastRunOk
    && Fulfilled(h.installed, changes)
  }

  /** The `try` block: download, simulate again, compare, install, check, record, audit, clean.
      `finished` says that completion was recorded; a failure after that is still raised. */
  method DownloadAndInstall(h: AptHost, changes: seq<Change>, reboot: bool, ghost first: seq<string>)
    returns (o: Outcome, finished: bool)
    requires InstallsApproved(h.rules, h.atLeast, h.journal)
    requires h.journal != [] && h.journal[|h.journal| - 1] == Simulated(first) && changes == PlanOf(first).changes
    requires h.approved == Some(changes)
    requires Says(h.state, "approved_plan_fingerprint", Sha(PlanFingerprint(changes)))
    requires (reboot <==> RebootAdvised(h.rules, changes)) && forall c <- changes :: Parsed(c)
    modifies h`installed, h`state, h`journal, h`calm, h`lastRunOk, h`acts
    ensures h.calm ==> old(h.calm)
    ensures h.calm ==> Answers(h.rules, h.atLeast, h.journal, |old(h.journal)|, changes, o)
    ensures InstallsApproved(h.rules, h.atLeast, h.journal)
    ensures old(h.journal) <= h.journal
    ensures || h.installed == old(h.installed)
            || exists k :: |old(h.journal)| <= k < |h.journal| && h.journal[k].InstallRun?
    ensures h.installed != old(h.installed) ==>
              Says(h.state, "status", Text("installing")) || Says(h.state, "status", Text("completed"))
    ensures o.Done? ==> finished && Took(old(h.acts), h.acts, [Download], [Probe, Audit, Clean])
    ensures finished ==> Completed(h, changes)
    ensures h.truthful ==> h.installed == old(h.installed) || OnlyPlanned(old(h.installed), h.installed, changes)
  {
    hide Acceptable, PlanOf, PlanFingerprint, InstallsApproved, Fulfilled, Answers, OnlyPlanned, Took;
    finished := false;
    ghost var n := |h.journal|;
    o := DownloadAndCompare(h, changes, first);
    if o.IsFailure() {
      if h.calm {
        AnswersNo(h.rules, h.atLeast, h.journal, n, changes);
      }
      return;
    }
    ghost var middle, acts := h.journal, h.acts;
    o, finished := InstallAndRecord(h, changes, reboot);
    assert h.installed == old(h.installed) || h.journal[|h.journal| - 1].InstallRun?;
    if o.Done? {
      TookMore(old(h.acts), acts, h.acts, h.acts, [Download], [], [Probe, Audit, Clean], []);
      assert [Probe, Audit, Clean] + [] == [Probe, Audit, Clean] && [Download] + [] == [Download];
    }
    if h.calm {
      AnswersYes(h.rules, h.atLeast, middle, n, changes);
    }
  }

  lemma AnswersNo(rules: Rules, atLeast: Order, journal: seq<Event>, n: nat, changes: seq<Change>)
    requires |journal| == n + 1 && journal[n].Simulated?
    requires !(Acceptable(rules, atLeast, PlanOf(journal[n].output)) && PlanOf(journal[n].output).changes == changes)
    ensures Answers(rules, atLeast, journal, n, changes, Raised)
  {
  }

  lemma AnswersYes(rules: Rules, atLeast: Order, journal: seq<Event>, n: nat, changes: seq<Change>)
    requires |journal| == n + 1 && journal[n].Simulated?
    requires Acceptable(rules, atLeast, PlanOf(journal[n].output)) && PlanOf(journal[n].output).changes == changes
    ensures Answers(rules, atLeast, journal + [InstallRun], n, changes, Done)
  {
  }

  /** From "installing" to the clean-up after "completed". */
  method InstallAndRecord(h: AptHost, changes: seq<Change>, reboot: bool) returns (o: Outcome, finished: bool)
    requires InstallsApproved(h.rules, h.atLeast, h.journal)
    requires InstallsApproved(h.rules, h.atLeast, h.journal + [InstallRun])
    requires h.approved == Some(changes)
    requires Says(h.state, "approved_plan_fingerprint", Sha(PlanFingerprint(changes)))
    requires (reboot <==> RebootAdvised(h.rules, changes)) && forall c <- changes :: Parsed(c)
    modifies h`installed, h`state, h`journal, h`calm, h`lastRunOk, h`acts
    ensures h.calm ==> old(h.calm) && o.Done?
    ensures || h.journal == old(h.journal) + [InstallRun]
            || (h.journal == old(h.journal) && h.installed == old(h.installed))
    ensures h.calm ==> h.journal == old(h.journal) + [InstallRun]
    ensures h.installed != old(h.installed) ==>
              Says(h.state, "status", Text("installing")) || Says(h.state, "status", Text("completed"))
    ensures o.Done? ==> finished && Took(old(h.acts), h.acts, [], [Probe, Audit, Clean])
    ensures finished ==> Completed(h, changes)
    ensures h.truthful ==> h.installed == old(h.installed) || OnlyPlanned(old(h.installed), h.installed, changes)
  {
    hide PlanFingerprint, InstallsApproved, Fulfilled, OnlyPlanned, Took;
    finished := false;
    o := h.WriteState(map["status" := Text("installing")]);
    if o.IsFailure() {
      return;
    }
    o := InstallAndCheck(h, changes);
    if o.IsFailure() {
      return;
    }
    ghost var acts := h.acts;
    o, finished := RecordSuccess(h, changes, reboot);
    if o.Done? {
      TookMore(old(h.acts), old(h.acts), acts, h.acts, [], [], [Probe], [Audit, Clean]);
      assert [Probe] + [Audit, Clean] == [Probe, Audit, Clean];
    }
  }

  /** "completed", with what changed and whether a reboot is due. */
  method RecordCompletion(h: AptHost, changes: seq<Change>, reboot: bool) returns (o: Outcome)
    requires h.approved == Some(changes) && Fulfilled(h.installed, changes) && h.lastRunOk
    requires Says(h.state, "approved_plan_fingerprint", Sha(PlanFingerprint(changes)))
    requires (reboot <==> RebootAdvised(h.rules, changes)) && forall c <- changes :: Parsed(c)
    modifies h`state, h`calm
    ensures h.calm <==> old(h.calm) && o.Done?
    ensures o.Done? ==> Completed(h, changes)
    ensures h.state == old(h.state) || Says(h.state, "status", Text("completed"))
  {
    hide PlanFingerprint, Fulfilled, RebootAdvised, NewOnes, NewCount, Parsed;
    NewCountIs(changes);
    var asked: bool := *;
    o := h.WriteState(map[
      "status" := Text("completed"), "changed_packages" := Count(|changes|), "new_packages" := Count(NewCount(changes)),
      "reboot_required" := Flag(asked || reboot), "last_error" := Null]);
  }

  /** "completed", the audit entry, and the clean-up of the package archive. */
  method RecordSuccess(h: AptHost, changes: seq<Change>, reboot: bool) returns (o: Outcome, finished: bool)
    requires h.approved == Some(changes) && Fulfilled(h.installed, changes) && h.lastRunOk
    requires Says(h.state, "approved_plan_fingerprint", Sha(PlanFingerprint(changes)))
    requires (reboot <==> RebootAdvised(h.rules, changes)) && forall c <- changes :: Parsed(c)
    modifies h`state, h`calm, h`acts
    ensures o.Done? ==> h.acts == old(h.acts) + [Audit, Clean]
    ensures h.calm <==> old(h.calm) && o.Done?
    ensures h.state == old(h.state) || Says(h.state, "status", Text("completed"))
    ensures o.Done? && old(h.calm) ==> h.calm
    ensures o.Done? ==> finished
    ensures finished ==> Completed(h, changes)
  {
    hide PlanFingerprint, Fulfilled, RebootAdvised, NewOnes, Parsed, Completed;
    o := RecordCompletion(h, changes, reboot);
    finished := o.Done?;
    if o.Done? {
      o := h.Step(Audit);
    }
    if o.Done? {
      o := h.Step(Clean);
    }
  }

  /** Nothing is installed unless the second simulation yields the approved list again. */
  method DownloadAndCompare(h: AptHost, changes: seq<Change>, ghost first: seq<string>) returns (o: Outcome)
    requires InstallsApproved(h.rules, h.atLeast, h.journal)
    requires h.journal != [] && h.journal[|h.journal| - 1] == Simulated(first) && changes == PlanOf(first).changes
    modifies h`journal, h`calm, h`acts
    ensures o.Done? ==> h.acts == old(h.acts) + [Download]
    ensures InstallsApproved(h.rules, h.atLeast, h.journal) && old(h.journal) <= h.journal
    ensures o.Done? && old(h.calm) ==> h.calm
    ensures o.Done? ==> InstallsApproved(h.rules, h.atLeast, h.journal + [InstallRun])
    ensures h.calm ==> old(h.calm) && MoreSimulated(old(h.journal), h.journal)
    ensures h.calm ==>
              var again := PlanOf(h.journal[|old(h.journal)|].output);
              if Acceptable(h.rules, h.atLeast, again) && again.changes == changes then o.Done? else o.Raised?
  {
    hide Acceptable, PlanOf, PlanFingerprint, InstallsApproved;
    o := h.Step(Download);
    if o.IsFailure() {
      return;
    }
    ghost var journal := h.journal;
    var again :- h.Simulate();
    KeepsApproved(h.rules, h.atLeast, journal, journal + [Simulated(again)]);
    var second := ParsePlan(again);
    var accepted, reboot := ValidatePlan(h.rules, h.atLeast, second);
    if !accepted || PlanFingerprint(second.changes) != PlanFingerprint(changes) {
      return Raised;
    }
    BasesFollow(again);
    BasesFollow(first);
    FingerprintFixesPlan(second.changes, changes);
    ApprovedTwice(h.rules, h.atLeast, journal, first, again);
    return Done;
  }

  method InstallAndCheck(h: AptHost, changes: seq<Change>) returns (o: Outcome)
    requires Says(h.state, "status", Text("installing"))
    modifies h`installed, h`journal, h`calm, h`lastRunOk, h`acts
    ensures o.Done? ==> h.lastRunOk && Took(old(h.acts), h.acts, [], [Probe])
    ensures h.calm ==> old(h.calm) && o.Done?
    ensures h.journal == old(h.journal) + [InstallRun]
    ensures o.Done? ==> Fulfilled(h.installed, changes)
    ensures h.truthful ==> OnlyPlanned(old(h.installed), h.installed, changes)
  {
    o := InstallOrRepair(h, changes);
    if o.IsFailure() {
      return;
    }
    ghost var acts := h.acts;
    var healthy, probes :- PostHealth(h, changes);
    TookMore(old(h.acts), old(h.acts), acts, h.acts, [], [], [], [Probe]);
    assert [] + [Probe] == [Probe];
    return if healthy then Done else Raised;
  }

  lemma ApprovedTwice(rules: Rules, atLeast: Order, journal: seq<Event>, first: seq<string>, again: seq<string>)
    requires InstallsApproved(rules, atLeast, journal + [Simulated(again)])
    requires journal != [] && journal[|journal| - 1] == Simulated(first)
    requires PlanOf(again).changes == PlanOf(first).changes && Acceptable(rules, atLeast, PlanOf(again))
    ensures InstallsApproved(rules, atLeast, journal + [Simulated(again)] + [InstallRun])
  {
    hide Acceptable, PlanOf;
    var shorter := journal + [Simulated(again)];
    forall k: nat ensures ApprovedAt(rules, atLeast, shorter + [InstallRun], k) {
      assert ApprovedAt(rules, atLeast, shorter, k);
    }
  }

  method InstallOrRepair(h: AptHost, planned: seq<Change>) returns (o: Outcome)
    requires Says(h.state, "status", Text("installing"))
    modifies h`installed, h`journal, h`calm, h`lastRunOk, h`acts
    ensures o.Done? ==> h.lastRunOk && Took(old(h.acts), h.acts, [], [])
    ensures h.acts != old(h.acts) + [AptRun(true)]
    ensures h.calm ==> old(h.calm) && o.Done? && Fulfilled(h.installed, planned)
    ensures h.journal == old(h.journal) + [InstallRun]
    ensures h.truthful ==> OnlyPlanned(old(h.installed), h.installed, planned)
  {
    ghost var before, acts := h.installed, h.acts;
    var ok;
    o, ok := h.Install(planned);
    assert o.Done? && ok ==> h.acts == acts + [] + [AptRun(false)] + [];
    assert h.acts[|acts|] == AptRun(o.Done? && !ok);
    if o.Done? && !ok {
      ghost var middle := h.installed;
      o, ok := h.Repair(planned);
      assert |h.acts| > |acts| + 1;
      if h.truthful {
        OnlyPlannedTwice(before, middle, h.installed, planned);
      }
      if o.Done? && !ok {
        return Raised;
      }
      if o.Done? {
        o := h.Step(AptCheck);
        assert h.acts == acts + [] + [AptRun(true), DpkgRun(false), AptCheck] + [];
      }
    }
  }

  /** `apply_update`.  A completed run has every approved package at its candidate; an installation
      only ever follows two simulations of the same acceptable list.  When `finished` the packages are
      all in place, yet an audit or clean-up that fails then still records the update as failed. */
  method ApplyUpdate(h: AptHost) returns (o: Outcome, changes: seq<Change>, finished: bool)
    requires InstallsApproved(h.rules, h.atLeast, h.journal)
    modifies h`installed, h`state, h`approved, h`journal, h`calm, h`lastRunOk, h`acts
    ensures h.calm ==> old(h.calm) && Outcomes(h.rules, h.atLeast, h.journal, |old(h.journal)|, o)
    ensures InstallsApproved(h.rules, h.atLeast, h.journal) && old(h.journal) <= h.journal
    ensures || h.installed == old(h.installed)
            || exists k :: |old(h.journal)| <= k < |h.journal| && h.journal[k].InstallRun?
    ensures o.Done? && changes != [] ==> finished && Completed(h, changes)
    ensures o.Done? && changes != [] ==>
              Took(old(h.acts), h.acts, [Preflight, SavePlan, Audit, Audit, Download], [Probe, Audit, Clean])
    ensures o.Done? && changes == [] ==> h.installed == old(h.installed)
    ensures finished ==> Fulfilled(h.installed, changes) && AcceptableChanges(h.rules, h.atLeast, changes)
    ensures o.Raised? && (finished || h.installed != old(h.installed)) ==>
              Says(h.state, "status", Text("failed_requires_recovery"))
    ensures h.installed != old(h.installed) ==>
              exists text <- {"installing", "completed", "failed_requires_recovery"} ::
              Says(h.state, "status", Text(text))
    ensures h.truthful && Sorting.TotalPreorder(h.atLeast) ==>
              NoLower(h.rules, h.atLeast, old(h.installed), h.installed)
  {
    hide Acceptable, PlanOf, PlanFingerprint, Answers, Fulfilled, InstallsApproved, Truthful, Parsed, OnlyPlanned,
      NoLower, Took;
    finished := false;
    ghost var before := h.installed;
    NoLowerSelf(h.rules, h.atLeast, before);
    ghost var output;
    var reboot;
    o, changes, reboot, output := CheckUpdates(h);
    KeepsApproved(h.rules, h.atLeast, old(h.journal), h.journal);
    if !o.Done? || changes == [] {
      return;
    }
    TheChanges(h.rules, h.atLeast, output);
    o := Announce(h, changes);
    if o.IsFailure() {
      return;
    }
    ghost var acts := h.acts;
    o, finished := DownloadAndInstall(h, changes, reboot, output);
    if h.truthful && Sorting.TotalPreorder(h.atLeast) && h.installed != before {
      PlannedIsNoLower(h.rules, h.atLeast, before, h.installed, changes);
    }
    if o.Done? {
      TookWhole(old(h.acts), acts, h.acts);
    }
    if o.Raised? {
      o := RecordFailure(h);
    }
  }

  /** Checkpoint, "downloading" with the approved fingerprint, and the audit entry. */
  method Announce(h: AptHost, changes: seq<Change>) returns (o: Outcome)
    modifies h`state, h`approved, h`calm, h`acts
    ensures o.Done? ==> h.acts == old(h.acts) + [Audit]
    ensures h.calm <==> old(h.calm) && o.Done?
    ensures o.Done? ==>
              && h.approved == Some(changes)
              && Says(h.state, "approved_plan_fingerprint", Sha(PlanFingerprint(changes)))
              && Says(h.state, "status", Text("downloading")) && Says(h.state, "last_error", Null)
  {
    o := h.Checkpoint(changes);
    if o.Done? {
      o := h.WriteState(map[
        "status" := Text("downloading"), "approved_plan_fingerprint" := Sha(PlanFingerprint(changes)),
        "last_error" := Null]);
    }
    if o.Done? {
      o := h.Step(Audit);
    }
  }

  /** The `except` block: it raises again, unless it is itself cut short. */
  method RecordFailure(h: AptHost) returns (o: Outcome)
    modifies h`state, h`calm, h`acts
    ensures o.Raised? ==> h.acts == old(h.acts) + [Audit]
    ensures h.calm ==> old(h.calm) && o.Raised?
    ensures !o.Done?
    ensures o.Raised? ==> Says(h.state, "status", Text("failed_requires_recovery"))
    ensures o.Raised? ==> Says(h.state, "last_error", Text("error"))
    ensures || Says(h.state, "status", Text("failed_requires_recovery"))
            || h.state == old(h.state)
  {
    o := h.WriteState(map["status" := Text("failed_requires_recovery"), "last_error" := Text("error")]);
    if o.Done? {
      o := h.Step(Audit);
    }
    o := if o.Done? then Raised else Crashed;
  }

  /** The part of acceptance that speaks of the list of changes alone. */
  ghost predicate AcceptableChanges(rules: Rules, atLeast: Order, changes: seq<Change>) {
    Acceptable(rules, atLeast, RawPlan(changes, []))
  }

  lemma TheChanges(rules: Rules, atLeast: Order, output: seq<string>)
    requires Acceptable(rules, atLeast, PlanOf(output))
    ensures AcceptableChanges(rules, atLeast, PlanOf(output).changes)
  {
  }

  /** Simulating again keeps the record in order. */
  lemma KeepsApproved(rules: Rules, atLeast: Order, a: seq<Event>, b: seq<Event>)
    requires InstallsApproved(rules, atLeast, a)
    requires b == a || MoreSimulated(a, b)
    ensures InstallsApproved(rules, atLeast, b)
  {
    hide Acceptable, PlanOf;
    forall k: nat ensures ApprovedAt(rules, atLeast, b, k) {
      assert ApprovedAt(rules, atLeast, a, k);
    }
  }

  // ---------------------------------------------------------------- over many updates

  /** No package is gone or lower than it was, and the protected ones are as they were. */
  ghost predicate NoLower(
    rules: Rules, atLeast: Order, before: map<string, Version>, after: map<string, Version>)
  {
    forall p <- before ::
      && p in after && atLeast(after[p], before[p])
      && (BaseName(p) in rules.protectedPackages ==> after[p] == before[p])
  }

  lemma NoLowerSelf(rules: Rules, atLeast: Order, installed: map<string, Version>)
    ensures Sorting.TotalPreorder(atLeast) ==> NoLower(rules, atLeast, installed, installed)
  {
  }

  /** One update that keeps to an acceptable, truthful plan. */
  lemma PlannedIsNoLower(
    rules: Rules, atLeast: Order, before: map<string, Version>, after: map<string, Version>, changes: seq<Change>)
    requires Sorting.TotalPreorder(atLeast) && AcceptableChanges(rules, atLeast, changes)
    requires Truthful(changes, before) && (forall c <- changes :: Parsed(c)) && OnlyPlanned(before, after, changes)
    ensures NoLower(rules, atLeast, before, after)
  {
    forall p <- before
      ensures p in after && atLeast(after[p], before[p])
      ensures BaseName(p) in rules.protectedPackages ==> after[p] == before[p]
    {
      if c :| c in changes && c.package == p && after[p] == c.candidate {
        assert c.installed == Some(before[p]) && c.base == BaseName(p);
      }
    }
  }

  lemma NoLowerChain(rules: Rules, atLeast: Order,
                     a: map<string, Version>, b: map<string, Version>, c: map<string, Version>)
    requires Sorting.TotalPreorder(atLeast) && NoLower(rules, atLeast, a, b) && NoLower(rules, atLeast, b, c)
    ensures NoLower(rules, atLeast, a, c)
  {
    forall p <- a
      ensures p in c && atLeast(c[p], a[p])
    {
      assert atLeast(b[p], a[p]) && atLeast(c[p], b[p]);
    }
  }

  /** Any number of updates, completed, failed or cut short: if apt and dpkg keep to their word, no
      package is ever lost or lowered and no protected one ever changes. */
  method UpdateRepeatedly(h: AptHost, times: nat)
    requires InstallsApproved(h.rules, h.atLeast, h.journal)
    modifies h`installed, h`state, h`approved, h`journal, h`calm, h`lastRunOk, h`acts
    ensures InstallsApproved(h.rules, h.atLeast, h.journal) && old(h.journal) <= h.journal
    ensures h.truthful && Sorting.TotalPreorder(h.atLeast) ==>
              NoLower(h.rules, h.atLeast, old(h.installed), h.installed)
    ensures h.truthful && Sorting.TotalPreorder(h.atLeast) ==>
              forall q <- old(h.installed), p <- h.rules.protectedPackages ::
                IsCalled(q, p) ==> q in h.installed && h.installed[q] == old(h.installed)[q]
  {
    hide InstallsApproved, NoLower;
    ghost var start := h.installed;
    NoLowerSelf(h.rules, h.atLeast, start);
    for i := 0 to times
      invariant InstallsApproved(h.rules, h.atLeast, h.journal) && old(h.journal) <= h.journal
      invariant h.truthful && Sorting.TotalPreorder(h.atLeast) ==> NoLower(h.rules, h.atLeast, start, h.installed)
    {
      ghost var before := h.installed;
      var o, changes, finished := ApplyUpdate(h);
      if h.truthful && Sorting.TotalPreorder(h.atLeast) {
        NoLowerChain(h.rules, h.atLeast, start, before, h.installed);
      }
    }
    if h.truthful && Sorting.TotalPreorder(h.atLeast) {
      ProtectedStay(h.rules, h.atLeast, start, h.installed);
    }
  }

  lemma ProtectedStay(rules: Rules, atLeast: Order, before: map<string, Version>, after: map<string, Version>)
    requires NoLower(rules, atLeast, before, after)
    ensures forall q <- before, p <- rules.protectedPackages ::
              IsCalled(q, p) ==> q in after && after[q] == before[q]
  {
    forall q <- before, p <- rules.protectedPackages | IsCalled(q, p)
      ensures q in after && after[q] == before[q]
    {
      BaseNameOf(p, q);
    }
  }
}
