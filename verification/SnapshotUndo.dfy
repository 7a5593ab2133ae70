/** Configuration managers that save their targets in one snapshot before overwriting them: wired
    802.1X, the local administrator, and network services. */
module SnapshotUndo {
  import opened Common
  import opened ShadowEdit

  type Path = string

  /** `Binary` is anything that is not UTF-8; the last two are what the managers write themselves. */
  datatype Content =
    | Text(text: string)
    | Binary(bytes: string)
    | Snapshot(files: map<Path, Content>)
    | Status(text: string)

  type Files = map<Path, Content>

  /** `targets` in writing order with their new text; the other paths hold the manager's own files. */
  datatype Plan = Plan(
    targets: seq<(Path, string)>, snapshot: Path, pending: Path, state: Path, extras: seq<Path>)

  function Paths(plan: Plan): (r: set<Path>)
    ensures forall i :: 0 <= i < |plan.targets| ==> plan.targets[i].0 in r
    ensures forall p <- r :: exists i :: 0 <= i < |plan.targets| && plan.targets[i].0 == p
  {
    set t | t in plan.targets :: t.0
  }

  function Own(plan: Plan): set<Path> {
    {plan.snapshot, plan.pending, plan.state} + set p | p in plan.extras
  }

  /** The profile gives every file a path of its own. */
  ghost predicate Separate(plan: Plan) {
    && (forall i, j :: 0 <= i < j < |plan.targets| ==> plan.targets[i].0 != plan.targets[j].0)
    && Paths(plan) !! Own(plan)
    && plan.snapshot !in {plan.pending, plan.state} && plan.snapshot !in plan.extras
    && plan.state != plan.pending && plan.state !in plan.extras && plan.pending !in plan.extras
  }

  /** A file as text mode reads it and writes it back. */
  function ReadBack(c: Content): Content {
    if c.Text? then Text(Translate(c.text)) else c
  }

  /** What the snapshot of these files holds. */
  function Previous(files: Files, plan: Plan): (r: Files)
    ensures forall p :: p in r <==> p in files && p in Paths(plan)
    ensures forall p <- r :: r[p] == ReadBack(files[p])
  {
    map p | p in files && p in Paths(plan) :: ReadBack(files[p])
  }

  /** Every target that exists can be read as text. */
  predicate Readable(files: Files, plan: Plan) {
    forall p <- Paths(plan) :: p in files ==> !files[p].Binary?
  }

  /** No target that exists holds a carriage return. */
  predicate PlainBreaks(files: Files, plan: Plan) {
    forall p <- Paths(plan) :: p in files && files[p].Text? ==> '\r' !in files[p].text
  }

  /** What a snapshot gives back is what was there exactly if no target held a carriage return. */
  lemma PreviousIsExact(files: Files, plan: Plan)
    ensures SameOn(Previous(files, plan), files, Paths(plan)) <==> PlainBreaks(files, plan)
    ensures forall p <- Paths(plan) :: p in files && files[p].Text? ==>
              (ReadBack(files[p]) == files[p] <==> '\r' !in files[p].text)
  {
    forall p <- Paths(plan) | p in files && files[p].Text?
      ensures ReadBack(files[p]) == files[p] <==> '\r' !in files[p].text
    {
      TranslateExact(files[p].text);
    }
  }

  /** A file that a snapshot does not give back: its line ends with a carriage return. */
  lemma CarriageReturnIsLost()
    ensures var plan := Plan([("a", "new")], "b", "c", "d", []);
            var files := map["a" := Text("x\r\n")];
            Separate(plan) && Readable(files, plan) && !SameOn(Previous(files, plan), files, Paths(plan))
  {
    var plan := Plan([("a", "new")], "b", "c", "d", []);
    var files := map["a" := Text("x\r\n")];
    assert plan.targets[0].0 == "a" && files["a"].text[1] == '\r';
    PreviousIsExact(files, plan);
  }

  /** Targets that agree with a snapshot's contents are as they were exactly under that condition. */
  lemma RestoredExactly(files: Files, before: Files, plan: Plan)
    requires SameOn(files, Previous(before, plan), Paths(plan))
    ensures SameOn(files, before, Paths(plan)) <==> PlainBreaks(before, plan)
  {
    hide PlainBreaks;
    PreviousIsExact(before, plan);
    var previous := Previous(before, plan);
    forall p <- Paths(plan)
      ensures p in files <==> p in previous
      ensures p in files ==> files[p] == previous[p]
    {
    }
  }

  predicate Saved(files: Files, plan: Plan, saved: Files) {
    plan.snapshot in files && files[plan.snapshot] == Snapshot(saved)
  }

  ghost predicate SameOn(a: Files, b: Files, paths: set<Path>) {
    forall p <- paths :: (p in a <==> p in b) && (p in a ==> a[p] == b[p])
  }

  ghost predicate SameOff(a: Files, b: Files, paths: set<Path>) {
    forall p :: p !in paths ==> (p in a <==> p in b) && (p in a ==> a[p] == b[p])
  }

  /** The files after an apply that went any distance: either the targets are untouched, or the
      snapshot holds them as they were read; and nothing else changed but the manager's own files. */
  ghost predicate Covered(before: Files, after: Files, plan: Plan) {
    && SameOff(before, after, Paths(plan) + Own(plan))
    && Undoable(before, after, plan)
  }

  ghost predicate Undoable(before: Files, after: Files, plan: Plan) {
    || (SameOn(before, after, Paths(plan)) && SameOn(before, after, {plan.snapshot}))
    || Saved(after, plan, Previous(before, plan))
  }

  /** Every target and every file of the manager's own is written. */
  ghost predicate Finished(files: Files, plan: Plan) {
    && (forall t <- plan.targets :: t.0 in files && files[t.0] == Text(t.1))
    && OwnWritten(files, plan)
  }

  ghost predicate OwnWritten(files: Files, plan: Plan) {
    && plan.state in files && files[plan.state].Status?
    && forall p <- plan.extras :: p in files && files[p].Status?
  }

  class Rootfs {
    var files: Files

    /** No step since the object was made has failed. */
    ghost var calm: bool

    constructor (files: Files)
      ensures this.files == files && calm
    {
      this.files, calm := files, true;
    }

    /** `_write`: an atomic replacement. */
    method Write(p: Path, c: Content) returns (o: Outcome)
      modifies this
      ensures calm <==> old(calm) && o.Done?
      ensures o.Done? ==> files == old(files)[p := c]
      ensures files == old(files) || files == old(files)[p := c]
    {
      o := *;
      var reached: bool := *;
      if o.Done? || (o.Crashed? && reached) {
        files := files[p := c];
      }
      calm := calm && o.Done?;
    }

    method Unlink(p: Path) returns (o: Outcome)
      modifies this
      ensures calm <==> old(calm) && o.Done?
      ensures o.Done? ==> files == old(files) - {p}
      ensures files == old(files) || files == old(files) - {p}
    {
      o := *;
      var reached: bool := *;
      if o.Done? || (o.Crashed? && reached) {
        files := files - {p};
      }
      calm := calm && o.Done?;
    }

    /** The loop over the targets. */
    method WriteTargets(plan: Plan) returns (o: Outcome)
      requires Separate(plan)
      modifies this
      ensures calm <==> old(calm) && o.Done?
      ensures SameOff(old(files), files, Paths(plan))
      ensures o.Done? ==> forall t <- plan.targets :: t.0 in files && files[t.0] == Text(t.1)
    {
      o := Done;
      for i := 0 to |plan.targets|
        invariant o.Done? && (calm <==> old(calm)) && SameOff(old(files), files, Paths(plan))
        invariant forall k :: 0 <= k < i ==>
                    plan.targets[k].0 in files && files[plan.targets[k].0] == Text(plan.targets[k].1)
      {
        o := Write(plan.targets[i].0, Text(plan.targets[i].1));
        if o.IsFailure() {
          return;
        }
      }
    }

    /** The manager's own files, after the targets. */
    method WriteOwn(plan: Plan) returns (o: Outcome)
      requires Separate(plan)
      modifies this
      ensures calm <==> old(calm) && o.Done?
      ensures SameOff(old(files), files, Own(plan) - {plan.snapshot})
      ensures o.Done? ==> plan.pending !in files && OwnWritten(files, plan) && files[plan.state] == Status("applied")
      ensures plan.pending in old(files) && plan.pending !in files ==> OwnWritten(files, plan)
    {
      o := WriteStatuses([plan.state] + plan.extras, "applied", plan);
      if o.IsFailure() {
        return;
      }
      assert ([plan.state] + plan.extras)[0] == plan.state;
      assert forall p :: p in [plan.state] + plan.extras <==> p == plan.state || p in plan.extras;
      o := Unlink(plan.pending);
    }

    /** Snapshot and pending marker: from the snapshot on, the targets can be put back.  Reading a
        target that is no text raises before anything is written. */
    method Begin(plan: Plan, marks: bool) returns (o: Outcome)
      requires Separate(plan)
      modifies this
      ensures calm ==> old(calm)
      ensures o.Done? && old(calm) ==> calm
      ensures calm && Readable(old(files), plan) ==> o.Done?
      ensures !Readable(old(files), plan) ==> o.Raised? && files == old(files)
      ensures Covered(old(files), files, plan) && SameOn(old(files), files, Paths(plan))
      ensures o.Done? ==> Saved(files, plan, Previous(old(files), plan))
      ensures o.Done? && marks ==> plan.pending in files && files[plan.pending] == Status("pending")
    {
      if !Readable(files, plan) {
        return Raised;
      }
      var previous := Previous(files, plan);
      o := Write(plan.snapshot, Snapshot(previous));
      if o.IsFailure() {
        return;
      }
      if marks {
        o := Write(plan.pending, Status("pending"));
      }
    }

    /** `Ieee8021xManager.apply`: supplicant, credentials and service, then state, renewal and
        diagnostics. */
    method ApplySupplicant(plan: Plan) returns (o: Outcome)
      requires Separate(plan)
      modifies this
      ensures calm ==> old(calm)
      ensures o.Done? && old(calm) ==> calm
      ensures calm && Readable(old(files), plan) ==> o.Done?
      ensures !Readable(old(files), plan) ==> o.Raised? && files == old(files)
      ensures o.Done? ==> Finished(files, plan) && files[plan.state] == Status("applied")
      ensures plan.pending !in files && !SameOn(old(files), files, Paths(plan)) ==> Finished(files, plan)
      ensures Covered(old(files), files, plan)
      ensures o.Done? ==> Saved(files, plan, Previous(old(files), plan)) && plan.pending !in files
      ensures o.Done? ==> forall t <- plan.targets :: t.0 in files && files[t.0] == Text(t.1)
    {
      o := Begin(plan, true);
      if o.IsFailure() {
        return;
      }
      o := WriteTargets(plan);
      if o.IsFailure() {
        return;
      }
      o := WriteOwn(plan);
    }

    /** `NetworkServicesManager.apply`: no pending marker; state and diagnostics follow. */
    method ApplyServices(plan: Plan) returns (o: Outcome)
      requires Separate(plan)
      modifies this
      ensures calm ==> old(calm)
      ensures o.Done? && old(calm) ==> calm
      ensures calm && Readable(old(files), plan) ==> o.Done?
      ensures !Readable(old(files), plan) ==> o.Raised? && files == old(files)
      ensures o.Done? ==> Finished(files, plan) && files[plan.state] == Status("applied")
      ensures Covered(old(files), files, plan)
      ensures o.Done? ==> Saved(files, plan, Previous(old(files), plan))
      ensures o.Done? ==> forall t <- plan.targets :: t.0 in files && files[t.0] == Text(t.1)
    {
      o := Begin(plan, false);
      if o.IsFailure() {
        return;
      }
      o := WriteTargets(plan);
      if o.IsFailure() {
        return;
      }
      o := WriteStatuses([plan.state] + plan.extras, "applied", plan);
      assert forall p :: p in [plan.state] + plan.extras <==> p == plan.state || p in plan.extras;
    }

    /** One status file after the other; the first gets the given text. */
    method WriteStatuses(paths: seq<Path>, first: string, plan: Plan) returns (o: Outcome)
      requires Separate(plan) && forall p <- paths :: p in Own(plan) - {plan.snapshot, plan.pending}
      requires paths != [] && paths[0] !in paths[1..]
      modifies this
      ensures calm <==> old(calm) && o.Done?
      ensures SameOff(old(files), files, Own(plan) - {plan.snapshot, plan.pending})
      ensures o.Done? ==> forall p <- paths :: p in files && files[p].Status?
      ensures o.Done? ==> files[paths[0]] == Status(first)
    {
      o := Done;
      for i := 0 to |paths|
        invariant o.Done? && (calm <==> old(calm))
        invariant SameOff(old(files), files, Own(plan) - {plan.snapshot, plan.pending})
        invariant forall k :: 0 <= k < i ==> paths[k] in files && files[paths[k]].Status?
        invariant i > 0 ==> paths[0] in files && files[paths[0]] == Status(first)
      {
        var text: string := *;
        if i == 0 {
          text := first;
        } else {
          assert paths[i] == paths[1..][i - 1];
        }
        o := Write(paths[i], Status(text));
        if o.IsFailure() {
          return;
        }
      }
    }

    /** The shadow file is edited in place, and only if it has a line of that user. */
    method EditShadow(shadow: Path, user: string, hash: string, force: bool) returns (o: Outcome)
      requires '\n' !in hash
      modifies this
      ensures calm ==> old(calm)
      ensures o.Done? && old(calm) ==> calm
      ensures calm && Editable(old(files), shadow, user, hash, force) ==> o.Done?
      ensures o.Done? && old(calm) ==> calm
      ensures shadow in old(files) && old(files)[shadow].Binary? ==> o.Raised? && files == old(files)
      ensures SameOff(old(files), files, {shadow})
      ensures shadow !in old(files) || !old(files)[shadow].Text? ==> files == old(files)
      ensures shadow in old(files) && old(files)[shadow].Text? ==>
                shadow in files && ShadowKept(old(files)[shadow].text, files[shadow], user, hash, force)
      ensures o.Done? && shadow in files && old(files)[shadow].Text? ==>
                ShadowEdited(old(files)[shadow].text, files[shadow], user, hash, force)
    {
      o := Done;
      if shadow in files && files[shadow].Binary? {
        return Raised;
      }
      if shadow in files && files[shadow].Text? {
        var rewrite := RewriteShadow(Translate(files[shadow].text), user, hash, force);
        if rewrite.IndexError? {
          return Raised;
        }
        if rewrite.Rewritten? {
          o := Write(shadow, Text(rewrite.text));
        }
      }
    }

    /** The targets, then the shadow file, then the manager's own files. */
    method OverwriteAdmin(plan: Plan, shadow: Path, user: string, hash: string, force: bool) returns (o: Outcome)
      requires Separate(plan) && shadow !in Paths(plan) + Own(plan) && '\n' !in hash
      modifies this
      ensures calm ==> old(calm)
      ensures o.Done? && old(calm) ==> calm
      ensures calm && Editable(old(files), shadow, user, hash, force) ==> o.Done?
      ensures SameOff(old(files), files, Paths(plan) + (Own(plan) - {plan.snapshot}) + {shadow})
      ensures shadow !in old(files) ==> shadow !in files
      ensures shadow in old(files) && old(files)[shadow].Text? ==>
                shadow in files && ShadowKept(old(files)[shadow].text, files[shadow], user, hash, force)
      ensures o.Done? && shadow in old(files) && old(files)[shadow].Text? ==>
                ShadowEdited(old(files)[shadow].text, files[shadow], user, hash, force)
      ensures o.Done? && old(calm) ==> calm
      ensures o.Done? && shadow in old(files) ==> !old(files)[shadow].Binary?
      ensures o.Done? ==> Finished(files, plan) && files[plan.state] == Status("applied")
      ensures plan.pending in old(files) && plan.pending !in files ==> Finished(files, plan)
      ensures o.Done? ==> plan.pending !in files
      ensures o.Done? ==> forall t <- plan.targets :: t.0 in files && files[t.0] == Text(t.1)
    {
      hide ShadowKept, ShadowEdited, Editable;
      UnchangedIsKept(files, shadow, user, hash, force);
      o := WriteTargets(plan);
      if o.IsFailure() {
        return;
      }
      EditableSame(old(files), files, shadow, user, hash, force);
      o := EditShadow(shadow, user, hash, force);
      if o.IsFailure() {
        return;
      }
      o := WriteOwn(plan);
    }

    /** `LocalAdminManager.apply`: like the supplicant's, with the shadow edit before the state. */
    method ApplyAdmin(plan: Plan, shadow: Path, user: string, hash: string, force: bool) returns (o: Outcome)
      requires Separate(plan) && shadow !in Paths(plan) + Own(plan) && '\n' !in hash
      modifies this
      ensures calm ==> old(calm)
      ensures o.Done? && old(calm) ==> calm
      ensures calm && Readable(old(files), plan) && Editable(old(files), shadow, user, hash, force) ==> o.Done?
      ensures !Readable(old(files), plan) ==> o.Raised? && files == old(files)
      ensures SameOff(old(files), files, Paths(plan) + Own(plan) + {shadow})
      ensures Undoable(old(files), files, plan)
      ensures shadow !in old(files) ==> shadow !in files
      ensures shadow in old(files) && old(files)[shadow].Text? ==>
                shadow in files && ShadowKept(old(files)[shadow].text, files[shadow], user, hash, force)
      ensures o.Done? && shadow in old(files) && old(files)[shadow].Text? ==>
                ShadowEdited(old(files)[shadow].text, files[shadow], user, hash, force)
      ensures o.Done? && shadow in old(files) ==> !old(files)[shadow].Binary?
      ensures o.Done? ==> Finished(files, plan) && files[plan.state] == Status("applied")
      ensures plan.pending !in files && !SameOn(old(files), files, Paths(plan)) ==> Finished(files, plan)
      ensures o.Done? ==> Saved(files, plan, Previous(old(files), plan)) && plan.pending !in files
      ensures o.Done? ==> forall t <- plan.targets :: t.0 in files && files[t.0] == Text(t.1)
    {
      hide ShadowKept, ShadowEdited, Separate, Previous, Editable;
      UnchangedIsKept(files, shadow, user, hash, force);
      o := Begin(plan, true);
      if o.IsFailure() {
        return;
      }
      SnapshotIsOwn(plan);
      EditableSame(old(files), files, shadow, user, hash, force);
      o := OverwriteAdmin(plan, shadow, user, hash, force);
    }

    method RestoreOne(p: Path, saved: Files) returns (o: Outcome)
      modifies this
      ensures calm <==> old(calm) && o.Done?
      ensures SameOff(old(files), files, {p})
      ensures o.Done? ==> SameOn(files, saved, {p})
    {
      if p in saved {
        o := Write(p, saved[p]);
      } else {
        o := Unlink(p);
      }
    }

    /** The rollback both of them share: put back what the snapshot holds, remove the rest. */
    method Rollback(plan: Plan) returns (o: Outcome)
      requires Separate(plan)
      modifies this
      ensures calm ==> old(calm)
      ensures o.Done? && old(calm) ==> calm
      ensures calm && plan.snapshot in old(files) && old(files)[plan.snapshot].Snapshot? ==> o.Done?
      ensures SameOff(old(files), files, Paths(plan) + {plan.state})
      ensures plan.snapshot !in old(files) || !old(files)[plan.snapshot].Snapshot? ==>
                o.Raised? && files == old(files)
      ensures o.Done? ==> SameOn(files, old(files)[plan.snapshot].files, Paths(plan))
      ensures o.Done? ==> plan.state in files && files[plan.state] == Status("rolled-back")
    {
      if plan.snapshot !in files || !files[plan.snapshot].Snapshot? {
        return Raised;
      }
      var saved := files[plan.snapshot].files;
      o := Done;
      for i := 0 to |plan.targets|
        invariant o.Done? && (calm <==> old(calm)) && SameOff(old(files), files, Paths(plan))
        invariant forall k :: 0 <= k < i ==> SameOn(files, saved, {plan.targets[k].0})
      {
        o := RestoreOne(plan.targets[i].0, saved);
        if o.IsFailure() {
          return;
        }
      }
      assert SameOn(files, saved, Paths(plan)) by {
        forall p <- Paths(plan)
          ensures (p in files <==> p in saved) && (p in files ==> files[p] == saved[p])
        {
          var k :| 0 <= k < |plan.targets| && plan.targets[k].0 == p;
          assert SameOn(files, saved, {plan.targets[k].0});
        }
      }
      o := Write(plan.state, Status("rolled-back"));
    }

    /** The network services' rollback: only what the snapshot holds is written back. */
    method RollbackServices(plan: Plan) returns (o: Outcome)
      requires Separate(plan)
      modifies this
      ensures calm ==> old(calm)
      ensures o.Done? && old(calm) ==> calm
      ensures calm && SavesOnly(old(files), plan) ==> o.Done?
      ensures SameOff(old(files), files, Paths(plan) + {plan.state})
      ensures plan.snapshot !in old(files) || !old(files)[plan.snapshot].Snapshot? ==>
                o.Raised? && files == old(files)
      ensures o.Done? ==>
                var saved := old(files)[plan.snapshot].files;
                saved.Keys <= Paths(plan) && SameOn(files, old(files) + saved, Paths(plan))
      ensures o.Done? ==> plan.state in files && files[plan.state] == Status("rolled-back")
    {
      if plan.snapshot !in files || !files[plan.snapshot].Snapshot? {
        return Raised;
      }
      :- PutBack(plan, files[plan.snapshot].files);
      o := Write(plan.state, Status("rolled-back"));
    }

    /** Writes the saved files back one by one; a name that is no target stops it. */
    method PutBack(plan: Plan, saved: Files) returns (o: Outcome)
      modifies this
      ensures calm ==> old(calm)
      ensures o.Done? && old(calm) ==> calm
      ensures calm && saved.Keys <= Paths(plan) ==> o.Done?
      ensures SameOff(old(files), files, Paths(plan))
      ensures o.Done? ==> saved.Keys <= Paths(plan) && SameOn(files, old(files) + saved, Paths(plan))
    {
      var rest := saved.Keys;
      o := Done;
      while rest != {}
        invariant o.Done? && (calm <==> old(calm)) && rest <= saved.Keys && saved.Keys - rest <= Paths(plan)
        invariant SameOff(old(files), files, Paths(plan))
        invariant SameOn(files, saved, saved.Keys - rest)
        invariant SameOn(files, old(files), Paths(plan) - (saved.Keys - rest))
        decreases |rest|
      {
        var p :| p in rest;
        if p !in Paths(plan) {
          return Raised;
        }
        o := Write(p, saved[p]);
        if o.IsFailure() {
          return;
        }
        rest := rest - {p};
      }
    }
  }

  predicate SavesOnly(files: Files, plan: Plan) {
    && plan.snapshot in files && files[plan.snapshot].Snapshot?
    && files[plan.snapshot].files.Keys <= Paths(plan)
  }

  lemma EditableSame(a: Files, b: Files, shadow: Path, user: string, hash: string, force: bool)
    requires SameOn(a, b, {shadow})
    ensures Editable(a, shadow, user, hash, force) <==> Editable(b, shadow, user, hash, force)
  {
  }

  /** The shadow file, if there, is text in which no line of the user lacks fields. */
  ghost predicate Editable(files: Files, shadow: Path, user: string, hash: string, force: bool) {
    shadow in files ==>
      && !files[shadow].Binary?
      && (files[shadow].Text? ==>
            forall line <- Lines(Translate(files[shadow].text)) :: EditLine(line, user, hash, force).Some?)
  }

  /** The shadow file is either as it was or the complete edit of it. */
  ghost predicate ShadowKept(before: string, after: Content, user: string, hash: string, force: bool) {
    after == Text(before) || ShadowEdited(before, after, user, hash, force)
  }

  ghost predicate ShadowEdited(before: string, after: Content, user: string, hash: string, force: bool) {
    && after.Text?
    && var lines := Lines(Translate(before));
       if !HasUser(lines, user) then after.text == before
       else
         && |Lines(after.text)| == |lines|
         && forall i :: 0 <= i < |lines| ==> EditLine(lines[i], user, hash, force) == Some(Lines(after.text)[i])
  }

  lemma SnapshotIsOwn(plan: Plan)
    requires Separate(plan)
    ensures plan.snapshot in Own(plan) && plan.snapshot !in Paths(plan)
  {
  }

  lemma UnchangedIsKept(files: Files, shadow: Path, user: string, hash: string, force: bool)
    ensures shadow in files && files[shadow].Text? ==>
              ShadowKept(files[shadow].text, files[shadow], user, hash, force)
  {
  }

  // ---------------------------------------------------------------- undo

  /** Any number of rollbacks, interrupted or not: the snapshot survives them all, and once one has
      completed every target is as the snapshot has it and stays so until an interruption. */
  method RollBackRepeatedly(m: Rootfs, plan: Plan, attempts: nat) returns (last: Outcome)
    requires Separate(plan) && plan.snapshot in m.files && m.files[plan.snapshot].Snapshot?
    modifies m
    ensures SameOff(old(m.files), m.files, Paths(plan) + {plan.state})
    ensures last.Done? ==> SameOn(m.files, old(m.files)[plan.snapshot].files, Paths(plan))
    ensures m.calm ==> old(m.calm)
    ensures m.calm && attempts > 0 ==> last.Done?
  {
    last := Raised;
    for i := 0 to attempts
      invariant SameOff(old(m.files), m.files, Paths(plan) + {plan.state})
      invariant last.Done? ==> SameOn(m.files, old(m.files)[plan.snapshot].files, Paths(plan))
      invariant (m.calm ==> old(m.calm)) && (m.calm && i > 0 ==> last.Done?)
    {
      last := m.Rollback(plan);
    }
  }

  /** 802.1X: whatever the targets held or lacked before, an apply that completed or was cut off
      anywhere after its snapshot, followed by rollbacks of which the last completed, leaves every
      target as it was read, removing those that were absent; and exactly as it was if and only if
      none held a carriage return.  A target that is no text stops the apply before any change. */
  method UndoSupplicant(m: Rootfs, plan: Plan, attempts: nat) returns (applied: Outcome, saved: bool, last: Outcome)
    requires Separate(plan)
    modifies m
    ensures applied.Done? ==> saved
    ensures saved && last.Done? ==>
              && SameOn(m.files, Previous(old(m.files), plan), Paths(plan))
              && (SameOn(m.files, old(m.files), Paths(plan)) <==> PlainBreaks(old(m.files), plan))
    ensures !saved ==> SameOn(m.files, old(m.files), Paths(plan))
    ensures SameOff(old(m.files), m.files, Paths(plan) + Own(plan))
    ensures m.calm && Readable(old(m.files), plan) ==> applied.Done? && (attempts > 0 ==> last.Done?)
    ensures !Readable(old(m.files), plan) ==> applied.Raised?
  {
    hide PlainBreaks, Readable;
    var before := m.files;
    applied := m.ApplySupplicant(plan);
    saved := Saved(m.files, plan, Previous(before, plan));
    last := Raised;
    if saved {
      last := RollBackRepeatedly(m, plan, attempts);
      if last.Done? {
        RestoredExactly(m.files, before, plan);
      }
    }
  }

  /** The local administrator: the same for its seven targets; the shadow file is not undone. */
  method UndoAdmin(m: Rootfs, plan: Plan, shadow: Path, user: string, hash: string, force: bool, attempts: nat)
    returns (applied: Outcome, saved: bool, last: Outcome)
    requires Separate(plan) && shadow !in Paths(plan) + Own(plan) && '\n' !in hash
    modifies m
    ensures applied.Done? ==> saved
    ensures saved && last.Done? ==>
              && SameOn(m.files, Previous(old(m.files), plan), Paths(plan))
              && (SameOn(m.files, old(m.files), Paths(plan)) <==> PlainBreaks(old(m.files), plan))
    ensures !saved ==> SameOn(m.files, old(m.files), Paths(plan))
    ensures SameOff(old(m.files), m.files, Paths(plan) + Own(plan) + {shadow})
    ensures shadow in old(m.files) && old(m.files)[shadow].Text? ==>
              shadow in m.files && ShadowKept(old(m.files)[shadow].text, m.files[shadow], user, hash, force)
    ensures applied.Done? && shadow in old(m.files) && old(m.files)[shadow].Text? ==>
              shadow in m.files && ShadowEdited(old(m.files)[shadow].text, m.files[shadow], user, hash, force)
    ensures m.calm && Readable(old(m.files), plan) && Editable(old(m.files), shadow, user, hash, force) ==>
              applied.Done? && (attempts > 0 ==> last.Done?)
    ensures !Readable(old(m.files), plan) ==> applied.Raised?
  {
    hide ShadowKept, ShadowEdited, Separate, Editable, PlainBreaks, Readable;
    var before := m.files;
    applied := m.ApplyAdmin(plan, shadow, user, hash, force);
    saved := Saved(m.files, plan, Previous(before, plan));
    last := Raised;
    if saved {
      last := RollBackRepeatedly(m, plan, attempts);
      if last.Done? {
        RestoredExactly(m.files, before, plan);
      }
    }
  }

  /** Network services: when a rollback undoes an apply.  Every target that existed is put back as it
      was read; the undo is exact if and only if none of those held a carriage return and no target
      the apply created is there. */
  lemma ServicesUndoExactly(before: Files, applied: Files, undone: Files, plan: Plan)
    requires SameOn(undone, applied + Previous(before, plan), Paths(plan))
    ensures forall p <- Paths(plan) :: p in before ==> p in undone && undone[p] == ReadBack(before[p])
    ensures SameOn(undone, before, Paths(plan)) <==>
              PlainBreaks(before, plan) && forall p <- Paths(plan) :: p in before || p !in applied
  {
    PreviousIsExact(before, plan);
    var mixed := applied + Previous(before, plan);
    forall p <- Paths(plan)
      ensures p in before ==> p in mixed && mixed[p] == ReadBack(before[p])
      ensures p !in before ==> (p in mixed <==> p in applied)
    {
    }
  }

  /** A completed apply of the network services followed by a completed rollback restores the targets
      exactly when all of them existed before and none held a carriage return. */
  method UndoServices(m: Rootfs, plan: Plan) returns (applied: Outcome, last: Outcome)
    requires Separate(plan)
    modifies m
    ensures applied.Done? && last.Done? ==>
              (SameOn(m.files, old(m.files), Paths(plan)) <==>
               Paths(plan) <= old(m.files).Keys && PlainBreaks(old(m.files), plan))
    ensures applied.Done? && last.Done? ==>
              forall p <- Paths(plan) :: p in old(m.files) ==> p in m.files && m.files[p] == ReadBack(old(m.files)[p])
    ensures m.calm && Readable(old(m.files), plan) ==> applied.Done? && last.Done?
    ensures !Readable(old(m.files), plan) ==> applied.Raised?
  {
    hide Separate, PlainBreaks, Readable;
    ghost var before := m.files;
    applied := m.ApplyServices(plan);
    ghost var middle := m.files;
    last := m.RollbackServices(plan);
    if applied.Done? && last.Done? {
      ServicesUndoExactly(before, middle, m.files, plan);
      forall p <- Paths(plan)
        ensures p in middle
      {
        var k :| 0 <= k < |plan.targets| && plan.targets[k].0 == p;
        assert plan.targets[k] in plan.targets;
      }
    }
  }
}
