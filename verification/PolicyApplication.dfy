/** Staging, applying, confirming and rolling back device policies. */
module PolicyApplication {
  import opened Common

  type Payload = map<string, string>

  /** SHA-256 of the canonical encoding, idealised as injective. */
  datatype Digest = Digest(of: Payload)

  /** `size` is the length of the document's canonical encoding. */
  datatype Document = Document(
    schemaVersion: int, format: string, policyId: string, revision: int,
    payload: Payload, sha256: Digest, size: nat)

  /** A file's contents: a JSON object with a policy's keys, or anything else. */
  datatype Content = Policy(document: Document) | Garbage

  datatype Profile = Profile(allowedSections: set<string>, maximumBytes: nat)

  predicate IsAlnum(c: char) {
    'a' <= c <= 'z' || '0' <= c <= '9'
  }

  predicate IsPolicyId(id: string) {
    && 3 <= |id| <= 64 && IsAlnum(id[0])
    && forall c <- id :: IsAlnum(c) || c in {'.', '_', '-'}
  }

  /** `validate_policy_document` returns instead of raising. */
  predicate Validates(d: Document, profile: Profile) {
    && d.schemaVersion == 1 && d.format == "xaac-device-policy"
    && IsPolicyId(d.policyId) && d.revision >= 1
    && d.payload != map[] && d.payload.Keys <= profile.allowedSections
    && d.sha256 == Digest(d.payload)
    && d.size <= profile.maximumBytes
  }

  /** What a document must be to be staged, applied or restored, rule by rule. */
  ghost predicate IsDevicePolicy(d: Document, profile: Profile) {
    && d.schemaVersion == 1 && d.format == "xaac-device-policy" && d.revision > 0
    && |d.policyId| >= 3 && |d.policyId| < 65 && d.policyId[0] !in {'.', '_', '-'}
    && (forall i :: 0 <= i < |d.policyId| ==>
          var n := d.policyId[i] as int; 97 <= n <= 122 || 48 <= n <= 57 || n == 46 || n == 95 || n == 45)
    && (exists section :: section in d.payload) && (forall section <- d.payload :: section in profile.allowedSections)
    && d.sha256.of == d.payload && !(d.size > profile.maximumBytes)
  }

  lemma ValidatesExactly(d: Document, profile: Profile)
    ensures Validates(d, profile) <==> IsDevicePolicy(d, profile)
  {
    assert forall i :: 0 <= i < |d.policyId| ==> d.policyId[i] in d.policyId;
    assert d.payload != map[] <==> exists section :: section in d.payload;
  }

  // ---------------------------------------------------------------- staged file names

  function Decimal(n: nat): (r: string)
    ensures r != "" && (|r| == 1 <==> n < 10)
    ensures forall c <- r :: '0' <= c <= '9'
  {
    var digit := [('0' as int + n % 10) as char];
    if n < 10 then digit else Decimal(n / 10) + digit
  }

  /** The number a row of digits stands for. */
  ghost function ValueOf(digits: string): int {
    if digits == "" then 0
    else 10 * ValueOf(digits[..|digits| - 1]) + digits[|digits| - 1] as int - '0' as int
  }

  /** The digits of a number stand for it, and begin with no needless zero. */
  lemma {:induction false} DecimalIs(n: nat)
    ensures ValueOf(Decimal(n)) == n
    ensures n > 0 ==> Decimal(n)[0] != '0'
  {
    if n >= 10 {
      DecimalIs(n / 10);
      assert Decimal(n)[..|Decimal(n)| - 1] == Decimal(n / 10);
    }
  }

  lemma {:induction false} DecimalInjective(a: nat, b: nat)
    requires Decimal(a) == Decimal(b)
    ensures a == b
  {
    var s, t := Decimal(a), Decimal(b);
    assert s[|s| - 1] == t[|t| - 1];
    assert a % 10 == b % 10;
    if a >= 10 {
      assert s[..|s| - 1] == Decimal(a / 10) && t[..|t| - 1] == Decimal(b / 10);
      DecimalInjective(a / 10, b / 10);
    }
  }

  function StagedName(id: string, revision: nat): string {
    id + "-" + Decimal(revision) + ".json"
  }

  /** Two policies share a staged file only if they share identifier and revision, although an
      identifier may itself contain hyphens and digits. */
  lemma StagedNameInjective(id: string, revision: nat, id': string, revision': nat)
    requires StagedName(id, revision) == StagedName(id', revision')
    ensures id == id' && revision == revision'
  {
    var a, b := id + "-" + Decimal(revision), id' + "-" + Decimal(revision');
    assert a == StagedName(id, revision)[..|a|] && b == StagedName(id', revision')[..|b|];
    assert a == b;
    LastHyphen(id, Decimal(revision), id', Decimal(revision'));
    DecimalInjective(revision, revision');
  }

  lemma NoHyphenAfter(x: string, u: string)
    requires '-' !in u
    ensures forall i :: |x| < i < |x + "-" + u| ==> (x + "-" + u)[i] != '-'
  {
    forall i | |x| < i < |x + "-" + u|
      ensures (x + "-" + u)[i] != '-'
    {
      assert (x + "-" + u)[i] == u[i - |x| - 1];
    }
  }

  lemma LastHyphen(x: string, u: string, y: string, v: string)
    requires '-' !in u && '-' !in v && x + "-" + u == y + "-" + v
    ensures x == y && u == v
  {
    var s, t := x + "-" + u, y + "-" + v;
    assert s[|x|] == '-' && t[|y|] == '-';
    NoHyphenAfter(x, u);
    NoHyphenAfter(y, v);
    assert x == s[..|x|] == t[..|y|] == y;
    assert u == s[|x| + 1..] == t[|y| + 1..] == v;
  }

  // ---------------------------------------------------------------- the manager

  datatype Ref = Ref(policyId: string, revision: int)

  datatype Status = Idle | Staged | PendingConfirmation | Confirmed | RolledBack

  datatype State = State(status: Status, active: Option<Ref>, pending: Option<Ref>)

  /** The reference names this document. */
  ghost predicate Names(ref: Option<Ref>, d: Document) {
    ref.Some? && ref.value.policyId == d.policyId && ref.value.revision == d.revision
  }

  function RefOf(d: Document): Ref {
    Ref(d.policyId, d.revision)
  }

  predicate Holds(file: Option<Content>, d: Document) {
    file == Some(Policy(d))
  }

  class Manager {
    const profile: Profile
    var staging: map<string, Content>
    var active: Option<Content>
    var rollback: Option<Content>
    var state: Option<State>

    /** A copy to the rollback file has been cut short since the last complete one. */
    ghost var torn: bool

    /** The policy files have changed, or may have, since the state file was last written. */
    ghost var stale: bool

    /** No step since the manager was made has failed. */
    ghost var calm: bool

    /** What every run keeps. */
    ghost predicate Valid()
      reads this
    {
      && (active.Some? ==> active.value.Policy? && Validates(active.value.document, profile))
      && (rollback.Some? ==> active.Some?)
      && (rollback.Some? && !torn ==> rollback.value.Policy? && Validates(rollback.value.document, profile))
      && (!stale && state.Some? ==> state.value.active == ActiveRef())
      && (calm ==> !torn) && (torn ==> active.Some?)
    }

    /** The rollback file, when there is one, holds a policy that validates. */
    predicate RollbackIntact()
      reads this`rollback
    {
      rollback.Some? ==> rollback.value.Policy? && Validates(rollback.value.document, profile)
    }

    /** The state file names the policy in the active file. */
    ghost predicate StateAgrees()
      reads this`state, this`active
    {
      state.Some? && state.value.active == ActiveRef()
    }

    ghost function ActiveRef(): Option<Ref>
      reads this`active
    {
      if active.Some? && active.value.Policy? then Some(RefOf(active.value.document)) else None
    }

    /** There is an active policy, and the state file names it. */
    ghost predicate NamesActive()
      reads this`state, this`active
    {
      active.Some? && active.value.Policy? && state.Some? && Names(state.value.active, active.value.document)
    }

    /** A manager on an empty root. */
    constructor (profile: Profile)
      ensures Valid() && this.profile == profile && !torn && !stale
      ensures active.None? && rollback.None? && state.None? && staging == map[] && calm
    {
      this.profile := profile;
      staging, active, rollback, state := map[], None, None, None;
      torn, stale, calm := false, false, true;
    }

    // -------------------------------------------------------------- file steps

    /** `_atomic_json` onto the active file: all or nothing. */
    method ReplaceActive(d: Document) returns (o: Outcome)
      modifies this`active, this`stale, this`calm
      ensures calm <==> old(calm) && o.Done?
      ensures o.Done? ==> active == Some(Policy(d))
      ensures o.Raised? ==> active == old(active)
      ensures active == old(active) || active == Some(Policy(d))
      ensures stale
    {
      o := *;
      var reached: bool := *;
      if o.Done? || (o.Crashed? && reached) {
        active := Some(Policy(d));
      }
      stale := true;
      calm := calm && o.Done?;
    }

    /** `copy2` onto the rollback file: not atomic, so a cut leaves the old contents, a fragment, or
        the whole copy. */
    method CopyToRollback(content: Content) returns (o: Outcome)
      modifies this`rollback, this`torn, this`calm
      ensures calm <==> old(calm) && o.Done?
      ensures o.Done? ==> rollback == Some(content) && !torn
      ensures rollback == old(rollback) || rollback == Some(Garbage) || rollback == Some(content)
      ensures torn <==> !o.Done?
    {
      o := *;
      var truncated: bool, finished: bool := *, *;
      if o.Done? || finished {
        rollback := Some(content);
      } else if truncated {
        rollback := Some(Garbage);
      }
      torn := !o.Done?;
      calm := calm && o.Done?;
    }

    method ReplaceState(s: State) returns (o: Outcome)
      modifies this`state, this`stale, this`calm
      ensures calm <==> old(calm) && o.Done?
      ensures o.Done? ==> state == Some(s) && !stale
      ensures state == old(state) || state == Some(s)
      ensures !o.Done? ==> stale
    {
      o := *;
      var reached: bool := *;
      if o.Done? || (o.Crashed? && reached) {
        state := Some(s);
      }
      stale := !o.Done?;
      calm := calm && o.Done?;
    }

    method ReplaceStaged(name: string, d: Document) returns (o: Outcome)
      modifies this`staging, this`calm
      ensures calm <==> old(calm) && o.Done?
      ensures o.Done? ==> staging == old(staging)[name := Policy(d)]
      ensures staging == old(staging) || staging == old(staging)[name := Policy(d)]
    {
      o := *;
      var reached: bool := *;
      if o.Done? || (o.Crashed? && reached) {
        staging := staging[name := Policy(d)];
      }
      calm := calm && o.Done?;
    }

    /** `_write_state`: the active reference comes from the argument or, without one, from the
        active file. */
    method WriteState(status: Status, given: Option<Document>, pending: Option<Document>) returns (o: Outcome)
      requires Valid() && (given.Some? ==> Holds(active, given.value))
      modifies this`state, this`stale, this`calm
      ensures state.None? ==> old(state).None?
      ensures calm <==> old(calm) && o.Done?
      ensures Valid()
      ensures o.Done? ==> !stale && state == Some(State(status, ActiveRef(), PendingRef(pending)))
    {
      var current := given;
      if current.None? && active.Some? {
        current := Some(active.value.document);
      }
      var ref := if current.None? then None else Some(RefOf(current.value));
      o := ReplaceState(State(status, ref, PendingRef(pending)));
    }

    function PendingRef(pending: Option<Document>): Option<Ref> {
      if pending.None? then None else Some(RefOf(pending.value))
    }

    /** The last two steps of `apply` and of `rollback`: the active file, then the state file. */
    method Activate(d: Document, status: Status, given: Option<Document>, pending: Option<Document>)
      returns (o: Outcome)
      requires Valid() && Validates(d, profile) && (given.Some? ==> given.value == d)
      modifies this`active, this`state, this`stale, this`calm
      ensures state.None? ==> old(state).None?
      ensures Valid() && (calm <==> old(calm) && o.Done?)
      ensures o.Done? ==> active == Some(Policy(d)) && !stale
      ensures o.Done? ==> state == Some(State(status, ActiveRef(), PendingRef(pending)))
      ensures active == old(active) || active == Some(Policy(d))
    {
      o := ReplaceActive(d);
      if o.Done? {
        o := WriteState(status, given, pending);
      }
    }

    // -------------------------------------------------------------- operations

    method Install() returns (o: Outcome)
      requires Valid() && active.None?
      modifies this`state, this`stale, this`calm
      ensures calm <==> old(calm) && o.Done?
      ensures Valid() && (o.Done? ==> !stale && state == Some(State(Idle, None, None)))
      ensures !o.Done? ==> state == old(state) || state == Some(State(Idle, None, None))
    {
      o := ReplaceState(State(Idle, None, None));
    }

    /** Staging touches no policy file and no other staged document. */
    method Stage(d: Document) returns (o: Outcome)
      requires Valid()
      modifies this`staging, this`state, this`stale, this`calm
      ensures state.None? ==> old(state).None?
      ensures calm ==> old(calm)
      ensures o.Done? && old(calm) ==> calm
      ensures calm && Validates(d, profile) ==> o.Done?
      ensures calm && !old(stale) ==> !stale
      ensures o.Done? ==> state == Some(State(Staged, ActiveRef(), Some(RefOf(d))))
      ensures Valid()
      ensures o.Done? ==> Validates(d, profile) && !stale
      ensures o.Done? ==> staging == old(staging)[StagedName(d.policyId, d.revision) := Policy(d)]
      ensures o.Done? ==> IsDevicePolicy(d, profile) && Names(state.value.pending, d)
      ensures calm && IsDevicePolicy(d, profile) ==> o.Done?
      ensures !Validates(d, profile) ==> o.Raised? && staging == old(staging) && state == old(state)
      ensures forall id, r: nat :: IsPolicyId(id) && (id != d.policyId || r != d.revision) ==>
                (StagedName(id, r) in staging <==> StagedName(id, r) in old(staging)) &&
                (StagedName(id, r) in staging ==> staging[StagedName(id, r)] == old(staging)[StagedName(id, r)])
    {
      ValidatesExactly(d, profile);
      if !Validates(d, profile) {
        return Raised;
      }
      forall id, r: nat | StagedName(id, r) == StagedName(d.policyId, d.revision)
        ensures id == d.policyId && r == d.revision
      {
        StagedNameInjective(id, r, d.policyId, d.revision);
      }
      o := ReplaceStaged(StagedName(d.policyId, d.revision), d);
      if o.Done? {
        o := WriteState(Staged, None, Some(d));
      }
    }

    /** Only a staged document that validates is ever applied.  Wherever an apply is cut, the policy
        that was active is still active, or the new one is and the old one is the rollback copy. */
    method Apply(name: string) returns (o: Outcome)
      requires Valid()
      modifies this`active, this`rollback, this`state, this`torn, this`stale, this`calm
      ensures state.None? ==> old(state).None?
      ensures calm ==> old(calm)
      ensures o.Done? && old(calm) ==> calm
      ensures calm && Applicable(name) ==> o.Done?
      ensures calm && !old(stale) ==> !stale
      ensures Valid()
      ensures o.Done? ==> Applicable(name) && active == Some(staging[name]) && !stale
      ensures o.Done? ==> state == Some(State(PendingConfirmation, ActiveRef(), ActiveRef()))
      ensures o.Done? ==> NamesActive() && IsDevicePolicy(active.value.document, profile)
      ensures o.Done? ==> rollback == (if old(active).Some? then old(active) else old(rollback))
      ensures if o.Done? then !torn else torn && !old(torn) ==> Applicable(name)
      ensures !Applicable(name) ==>
                o.Raised? && active == old(active) && rollback == old(rollback) && state == old(state)
                && torn == old(torn) && stale == old(stale)
      ensures || (active == old(active) && rollback in {old(rollback), old(active), Some(Garbage)})
              || (Applicable(name) && active == Some(staging[name]) && (old(active).Some? ==> !torn) &&
                  rollback == (if old(active).Some? then old(active) else old(rollback)))
    {
      if name in staging && staging[name].Policy? {
        ValidatesExactly(staging[name].document, profile);
      }
      if name !in staging || staging[name].Garbage? || !Validates(staging[name].document, profile) {
        return Raised;
      }
      var document := staging[name].document;
      if active.Some? {
        o := CopyToRollback(active.value);
        if o.IsFailure() {
          return;
        }
      }
      o := Activate(document, PendingConfirmation, None, Some(document));
    }

    predicate Applicable(name: string)
      reads this`staging
    {
      name in staging && staging[name].Policy? && Validates(staging[name].document, profile)
    }

    method Confirm() returns (o: Outcome)
      requires Valid()
      modifies this`state, this`stale, this`calm
      ensures state.None? ==> old(state).None?
      ensures calm ==> old(calm)
      ensures o.Done? && old(calm) ==> calm
      ensures calm && active.Some? ==> o.Done?
      ensures calm && !old(stale) ==> !stale
      ensures Valid()
      ensures old(active).None? ==> o.Raised? && state == old(state)
      ensures o.Done? ==> !stale && state == Some(State(Confirmed, ActiveRef(), None))
      ensures o.Done? ==> NamesActive()
    {
      if active.None? {
        return Raised;
      }
      o := WriteState(Confirmed, Some(active.value.document), None);
    }

    /** Rollback refuses only for want of an intact rollback copy, which only an interrupted apply
        can damage; it never changes that copy, so it can be repeated. */
    method Rollback() returns (o: Outcome)
      requires Valid()
      modifies this`active, this`state, this`stale, this`calm
      ensures state.None? ==> old(state).None?
      ensures calm ==> old(calm)
      ensures o.Done? && old(calm) ==> calm
      ensures calm && rollback.Some? ==> o.Done?
      ensures calm && !old(stale) ==> !stale
      ensures Valid()
      ensures rollback.None? ==> o.Raised? && active == old(active) && state == old(state)
      ensures rollback == Some(Garbage) ==> torn && o.Raised? && active == old(active) && state == old(state)
      ensures o.Done? ==> rollback.Some? && active == rollback && !stale
      ensures o.Done? ==> state == Some(State(RolledBack, ActiveRef(), None))
      ensures o.Done? ==> NamesActive() && IsDevicePolicy(active.value.document, profile)
      ensures active == old(active) || active == rollback
    {
      if rollback.Some? && rollback.value.Policy? {
        ValidatesExactly(rollback.value.document, profile);
      }
      if rollback.None? || rollback.value.Garbage? || !Validates(rollback.value.document, profile) {
        return Raised;
      }
      var document := rollback.value.document;
      o := Activate(document, RolledBack, Some(document), None);
    }
  }

  /** Any staging and confirming between an apply and the rollback leaves the undo exact: the
      previous policy is active again, byte for byte, and the state file names it. */
  method ApplyThenRollBack(m: Manager, name: string, rounds: nat) returns (applied: Outcome, undone: Outcome)
    requires m.Valid() && m.active.Some?
    modifies m
    ensures m.Valid()
    ensures applied.Done? && undone.Done? ==> m.active == old(m.active) && !m.stale
    ensures undone.Done? ==> m.active == old(m.active) || m.active == old(m.rollback)
    ensures m.calm ==> old(m.calm)
    ensures m.calm && old(m.Applicable(name)) ==> applied.Done? && undone.Done?
  {
    applied := m.Apply(name);
    undone := Raised;
    label Applied:
    for i := 0 to rounds
      invariant m.Valid() && m.rollback == old@Applied(m.rollback) && m.torn == old@Applied(m.torn)
      invariant m.active == old@Applied(m.active)
      invariant m.calm ==> old@Applied(m.calm)
    {
      var confirms: bool, d: Document := *, *;
      if confirms {
        var ignored := m.Confirm();
      } else {
        var ignored := m.Stage(d);
      }
    }
    undone := m.Rollback();
  }

  datatype Call =
    | StageCall(d: Document)
    | ApplyCall(name: string)
    | ConfirmCall
    | RollbackCall
    | TamperCall(files: map<string, Content>)

  /** How many of the first n calls were applies that completed. */
  function Applied(calls: seq<Call>, outcomes: seq<Outcome>, n: nat): nat
    requires n <= |calls| && n <= |outcomes|
  {
    if n == 0 then 0
    else Applied(calls, outcomes, n - 1) + if calls[n - 1].ApplyCall? && outcomes[n - 1].Done? then 1 else 0
  }

  lemma {:induction false} AppliedSoFar(calls: seq<Call>, outcomes: seq<Outcome>, o: Outcome, n: nat)
    requires n <= |calls| && n <= |outcomes|
    ensures Applied(calls, outcomes + [o], n) == Applied(calls, outcomes, n)
  {
    if n > 0 {
      AppliedSoFar(calls, outcomes, o, n - 1);
    }
  }

  /** Some apply failed, and none has completed since. */
  predicate ApplyFailed(calls: seq<Call>, outcomes: seq<Outcome>)
    requires |outcomes| <= |calls|
  {
    exists k :: 0 <= k < |outcomes| && calls[k].ApplyCall? && !outcomes[k].Done?
                && forall j :: k < j < |outcomes| && calls[j].ApplyCall? ==> !outcomes[j].Done?
  }

  /** When nothing fails, a rollback completes exactly if two applies completed before it. */
  predicate RollbacksFollowApplies(calls: seq<Call>, outcomes: seq<Outcome>)
    requires |outcomes| <= |calls|
  {
    forall k :: 0 <= k < |outcomes| && calls[k].RollbackCall? ==>
      (outcomes[k].Done? <==> Applied(calls, outcomes, k) >= 2)
  }

  /** One call of a run; rewriting the staging area from outside always succeeds. */
  method Step(m: Manager, call: Call) returns (o: Outcome)
    requires m.Valid()
    modifies m
    ensures m.Valid()
    ensures m.calm ==> old(m.calm) && (!old(m.stale) ==> !m.stale)
    ensures o.Done? && !call.TamperCall? ==> !m.stale && m.StateAgrees()
    ensures m.torn ==> (old(m.torn) && !(call.ApplyCall? && o.Done?)) || (call.ApplyCall? && !o.Done?)
    ensures call.ApplyCall? && o.Done? ==>
              m.active.Some? && m.rollback == if old(m.active).Some? then old(m.active) else old(m.rollback)
    ensures m.calm && !(call.ApplyCall? && o.Done?) ==>
              m.rollback == old(m.rollback) && (m.active.Some? <==> old(m.active).Some?)
    ensures m.calm && call.RollbackCall? ==> (o.Done? <==> old(m.rollback).Some?)
    ensures old(m.state).Some? ==> m.state.Some?
    ensures call.TamperCall? ==> o.Done? && m.staging == call.files && m.active == old(m.active)
  {
    match call
    case StageCall(d) => o := m.Stage(d);
    case ApplyCall(name) => o := m.Apply(name);
    case ConfirmCall => o := m.Confirm();
    case RollbackCall => o := m.Rollback();
    case TamperCall(files) =>
      m.staging := files;
      o := Done;
  }

  /** Every run from an empty root, with failures and power cuts anywhere and a staging area that
      anyone may rewrite: the active policy is always valid; the rollback copy is too, unless an
      apply failed and none has completed since; the state file agrees with the active file
      whenever the last call completed.  On a run without a failure the last two hold outright,
      and a rollback completes exactly when there is an earlier policy to go back to. */
  method Run(profile: Profile, calls: seq<Call>) returns (m: Manager, installed: Outcome, outcomes: seq<Outcome>)
    ensures m.Valid() && m.profile == profile && |outcomes| == |calls|
    ensures !m.RollbackIntact() ==> ApplyFailed(calls, outcomes)
    ensures calls != [] && !calls[|calls| - 1].TamperCall? && outcomes[|calls| - 1].Done? ==> m.StateAgrees()
    ensures m.calm ==> m.RollbackIntact() && m.StateAgrees()
    ensures m.active.Some? ==> m.active.value.Policy? && IsDevicePolicy(m.active.value.document, profile)
    ensures m.calm && m.active.Some? ==> m.NamesActive()
    ensures m.calm ==> RollbacksFollowApplies(calls, outcomes)
  {
    hide ApplyFailed, RollbacksFollowApplies, IsDevicePolicy;
    m := new Manager(profile);
    installed := m.Install();
    outcomes := [];
    NothingYet(calls);
    for i := 0 to |calls|
      invariant m.Valid() && fresh(m) && m.profile == profile && |outcomes| == i
      invariant m.torn ==> ApplyFailed(calls, outcomes)
      invariant i > 0 && !calls[i - 1].TamperCall? && outcomes[i - 1].Done? ==> m.StateAgrees()
      invariant m.calm ==> !m.stale && m.state.Some?
      invariant m.calm ==>
                  && (m.active.Some? <==> Applied(calls, outcomes, i) >= 1)
                  && (m.rollback.Some? <==> Applied(calls, outcomes, i) >= 2)
      invariant m.calm ==> RollbacksFollowApplies(calls, outcomes)
    {
      ghost var earlier, torn := outcomes, m.torn;
      var o := Step(m, calls[i]);
      outcomes := outcomes + [o];
      AppliedSoFar(calls, earlier, o, i);
      if m.torn {
        FailureStays(calls, earlier, o, torn);
      }
      if m.calm {
        RollbacksSoFar(calls, earlier, o);
      }
    }
    if m.active.Some? {
      ValidatesExactly(m.active.value.document, profile);
    }
  }

  lemma NothingYet(calls: seq<Call>)
    ensures RollbacksFollowApplies(calls, []) && Applied(calls, [], 0) == 0
  {
  }

  lemma FailureStays(calls: seq<Call>, outcomes: seq<Outcome>, o: Outcome, before: bool)
    requires |outcomes| < |calls| && (before ==> ApplyFailed(calls, outcomes))
    requires var call := calls[|outcomes|];
             (before && !(call.ApplyCall? && o.Done?)) || (call.ApplyCall? && !o.Done?)
    ensures ApplyFailed(calls, outcomes + [o])
  {
    var after := outcomes + [o];
    var n := |outcomes|;
    if calls[n].ApplyCall? && !o.Done? {
      assert calls[n].ApplyCall? && !after[n].Done?;
    } else {
      var k :| 0 <= k < n && calls[k].ApplyCall? && !outcomes[k].Done?
               && forall j :: k < j < n && calls[j].ApplyCall? ==> !outcomes[j].Done?;
      assert calls[k].ApplyCall? && !after[k].Done?;
    }
  }

  lemma RollbacksSoFar(calls: seq<Call>, outcomes: seq<Outcome>, o: Outcome)
    requires |outcomes| < |calls| && RollbacksFollowApplies(calls, outcomes)
    requires calls[|outcomes|].RollbackCall? ==> (o.Done? <==> Applied(calls, outcomes, |outcomes|) >= 2)
    ensures RollbacksFollowApplies(calls, outcomes + [o])
  {
    forall k | 0 <= k <= |outcomes| && calls[k].RollbackCall?
      ensures (outcomes + [o])[k].Done? <==> Applied(calls, outcomes + [o], k) >= 2
    {
      AppliedSoFar(calls, outcomes, o, k);
    }
  }
}
