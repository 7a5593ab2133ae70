/** Applying and rolling back the IP configuration, with a bounded number of snapshots. */
module IpAddressing {
  import opened Common
  import opened Sorting

  /** A file: text, or bytes that are not UTF-8. */
  datatype Stored = Text(text: string) | Binary(bytes: string)

  /** A text file as text mode reads it and writes it back. */
  function ReadBack(s: Stored): Stored {
    if s.Text? then Text(Translate(s.text)) else s
  }

  /** Snapshot names are fixed-width UTC timestamps, so their text order is the order of time. */
  type Snapshots = map<int, Stored>

  datatype Status = Applied | RolledBack(snapshot: int)

  datatype State = State(status: Status, rollbackAvailable: bool)

  function Newer(taken: set<int>, t: int): set<int> {
    set u | u in taken && u > t
  }

  /** Fewer than `keep` snapshots are newer. */
  predicate AmongNewest(taken: set<int>, t: int, keep: nat) {
    |Newer(taken, t)| < keep
  }

  function Descending(): (int, int) -> bool {
    (a: int, b: int) => a >= b
  }

  /** The list holds these timestamps once each, the newest first. */
  ghost predicate IsFalling(order: seq<int>, taken: set<int>) {
    && Distinct(order) && Ascending(order, Descending()) && |order| == |taken|
    && forall t :: t in order <==> t in taken
  }

  /** In a falling list of distinct timestamps, entry k has exactly k newer ones. */
  lemma RankIsIndex(order: seq<int>, taken: set<int>, k: nat)
    requires IsFalling(order, taken) && k < |order|
    ensures |Newer(taken, order[k])| == k
  {
    forall j | 0 <= j < |order| && j != k
      ensures order[j] > order[k] <==> j < k
    {
      if j < k {
        assert Descending()(order[j], order[k]);
      } else {
        assert Descending()(order[k], order[j]);
      }
    }
    assert Newer(taken, order[k]) == set t | t in order[..k];
    DistinctSize(order[..k]);
  }

  lemma RankDecides(order: seq<int>, taken: set<int>, keep: nat)
    requires IsFalling(order, taken)
    ensures forall k :: 0 <= k < |order| ==> (AmongNewest(taken, order[k], keep) <==> k < keep)
  {
    forall k | 0 <= k < |order|
      ensures AmongNewest(taken, order[k], keep) <==> k < keep
    {
      RankIsIndex(order, taken, k);
    }
  }

  /** Out of any set of timestamps at most `keep` are among the newest. */
  lemma AtMostKeep(order: seq<int>, taken: set<int>, keep: nat)
    requires IsFalling(order, taken)
    ensures |set t | t in taken && AmongNewest(taken, t, keep)| <= keep
  {
    var n := if keep < |order| then keep else |order|;
    var front := set t | t in order[..n];
    DistinctSize(order[..n]);
    forall t <- taken
      ensures AmongNewest(taken, t, keep) <==> t in front
    {
      var k :| 0 <= k < |order| && order[k] == t;
      RankIsIndex(order, taken, k);
      if t in front {
        var j :| 0 <= j < n && order[j] == t;
        RankIsIndex(order, taken, j);
      }
    }
    assert (set t | t in taken && AmongNewest(taken, t, keep)) == front;
  }

  /** The first `i` entries of the list from `keep` on: what the pruning loop has removed. */
  function Removed(order: seq<int>, keep: nat, i: nat): set<int>
    requires i <= |order|
  {
    if i <= keep then {} else Removed(order, keep, i - 1) + {order[i - 1]}
  }

  lemma {:induction false} RemovedAre(order: seq<int>, keep: nat, i: nat)
    requires i <= |order| && Distinct(order)
    ensures forall k :: 0 <= k < |order| ==> (order[k] in Removed(order, keep, i) <==> keep <= k < i)
  {
    if i > keep {
      RemovedAre(order, keep, i - 1);
    }
  }

  lemma NothingRemoved(order: seq<int>, before: Snapshots, keep: nat, i: nat)
    requires i <= |order| && i <= keep
    ensures before - Removed(order, keep, i) == before
  {
  }

  lemma RemovedStep(order: seq<int>, before: Snapshots, keep: nat, i: nat)
    requires keep <= i < |order|
    ensures before - Removed(order, keep, i) - {order[i]} == before - Removed(order, keep, i + 1)
  {
  }

  /** Pruning to the `keep` newest: none of those is lost, and once complete nothing else is left. */
  ghost predicate PrunedTo(before: Snapshots, after: Snapshots, keep: nat, complete: bool) {
    && after.Keys <= before.Keys && (forall t <- after :: after[t] == before[t])
    && (forall t <- before :: AmongNewest(before.Keys, t, keep) ==> t in after)
    && (complete ==> (forall t <- after :: AmongNewest(before.Keys, t, keep)) && |after.Keys| <= keep)
  }

  lemma RemovedPrunes(order: seq<int>, before: Snapshots, keep: nat, i: nat)
    requires IsFalling(order, before.Keys) && i <= |order|
    ensures PrunedTo(before, before - Removed(order, keep, i), keep, false)
    ensures i == |order| ==> PrunedTo(before, before - Removed(order, keep, i), keep, true)
  {
    var after := before - Removed(order, keep, i);
    var taken := before.Keys;
    RankDecides(order, taken, keep);
    RemovedAre(order, keep, i);
    forall t <- before
      ensures AmongNewest(taken, t, keep) ==> t in after
      ensures i == |order| && t in after ==> AmongNewest(taken, t, keep)
    {
      assert t in order;
    }
    if i == |order| {
      AtMostKeep(order, taken, keep);
      assert after.Keys == set t | t in taken && AmongNewest(taken, t, keep);
    }
  }

  class Manager {
    var active: Option<Stored>
    var snapshots: Snapshots
    var state: Option<State>
    var pending: bool

    /** No step since the manager was made has failed. */
    ghost var calm: bool

    constructor (active: Option<Stored>, snapshots: Snapshots)
      ensures this.active == active && this.snapshots == snapshots && state.None? && !pending && calm
    {
      this.active, this.snapshots := active, snapshots;
      state, pending, calm := None, false, true;
    }

    // -------------------------------------------------------------- atomic file steps

    method WriteSnapshot(timestamp: int, text: string) returns (o: Outcome)
      modifies this`snapshots, this`calm
      ensures calm <==> old(calm) && o.Done?
      ensures o.Done? ==> snapshots == old(snapshots)[timestamp := Text(text)]
      ensures o.Raised? ==> snapshots == old(snapshots)
      ensures snapshots == old(snapshots) || snapshots == old(snapshots)[timestamp := Text(text)]
    {
      o := *;
      var reached: bool := *;
      if o.Done? || (o.Crashed? && reached) {
        snapshots := snapshots[timestamp := Text(text)];
      }
      calm := calm && o.Done?;
    }

    method WriteActive(text: string) returns (o: Outcome)
      modifies this`active, this`calm
      ensures calm <==> old(calm) && o.Done?
      ensures o.Done? ==> active == Some(Text(text))
      ensures active == old(active) || active == Some(Text(text))
    {
      o := *;
      var reached: bool := *;
      if o.Done? || (o.Crashed? && reached) {
        active := Some(Text(text));
      }
      calm := calm && o.Done?;
    }

    method WriteState(s: State) returns (o: Outcome)
      modifies this`state, this`calm
      ensures calm <==> old(calm) && o.Done?
      ensures o.Done? ==> state == Some(s)
    {
      o := *;
      var reached: bool := *;
      if o.Done? || (o.Crashed? && reached) {
        state := Some(s);
      }
      calm := calm && o.Done?;
    }

    method SetPending(value: bool) returns (o: Outcome)
      modifies this`pending, this`calm
      ensures calm <==> old(calm) && o.Done?
      ensures o.Done? ==> pending == value
    {
      o := *;
      var reached: bool := *;
      if o.Done? || (o.Crashed? && reached) {
        pending := value;
      }
      calm := calm && o.Done?;
    }

    method RemoveSnapshot(timestamp: int) returns (o: Outcome)
      modifies this`snapshots, this`calm
      ensures calm <==> old(calm) && o.Done?
      ensures o.Done? ==> snapshots == old(snapshots) - {timestamp}
      ensures snapshots == old(snapshots) || snapshots == old(snapshots) - {timestamp}
    {
      o := *;
      var reached: bool := *;
      if o.Done? || (o.Crashed? && reached) {
        snapshots := snapshots - {timestamp};
      }
      calm := calm && o.Done?;
    }

    method NewestFirst() returns (order: seq<int>)
      ensures IsFalling(order, snapshots.Keys)
    {
      var listed := Listing(snapshots.Keys);
      order := Sorted(listed, Descending());
    }

    /** The last loop of `apply`. */
    method Prune(keep: nat) returns (o: Outcome)
      modifies this`snapshots, this`calm
      ensures calm <==> old(calm) && o.Done?
      ensures PrunedTo(old(snapshots), snapshots, keep, o.Done?)
    {
      hide PrunedTo, IsFalling, Removed;
      var order := NewestFirst();
      ghost var before := snapshots;
      o := Done;
      var i := if keep < |order| then keep else |order|;
      NothingRemoved(order, before, keep, i);
      while i < |order|
        invariant i <= |order| && o.Done? && (calm <==> old(calm))
        invariant snapshots == before - Removed(order, keep, i)
        invariant i == |order| || keep <= i
      {
        o := PruneOne(order, before, keep, i);
        if o.IsFailure() {
          return;
        }
        i := i + 1;
      }
      RemovedPrunes(order, before, keep, i);
    }

    method PruneOne(order: seq<int>, ghost before: Snapshots, keep: nat, i: nat) returns (o: Outcome)
      requires IsFalling(order, before.Keys) && keep <= i < |order| && snapshots == before - Removed(order, keep, i)
      modifies this`snapshots, this`calm
      ensures calm <==> old(calm) && o.Done?
      ensures o.Done? ==> snapshots == before - Removed(order, keep, i + 1)
      ensures PrunedTo(before, snapshots, keep, false)
    {
      hide PrunedTo, IsFalling, Removed;
      RemovedStep(order, before, keep, i);
      RemovedPrunes(order, before, keep, i);
      RemovedPrunes(order, before, keep, i + 1);
      o := RemoveSnapshot(order[i]);
    }

    /** Pending marker, active file, state file, marker gone: no snapshot is touched. */
    method Switch(text: string) returns (o: Outcome)
      modifies this`pending, this`active, this`state, this`calm
      ensures calm <==> old(calm) && o.Done?
      ensures active == old(active) || active == Some(Text(text))
      ensures o.Done? ==> active == Some(Text(text)) && !pending && state == Some(State(Applied, snapshots != map[]))
      ensures active != old(active) && !pending ==> state == Some(State(Applied, snapshots != map[]))
    {
      o := SetPending(true);
      if o.IsFailure() {
        return;
      }
      o := WriteActive(text);
      if o.IsFailure() {
        return;
      }
      o := WriteState(State(Applied, snapshots != map[]));
      if o.IsFailure() {
        return;
      }
      o := SetPending(false);
    }

    /** The snapshots there are once an apply has saved the active text as it reads it. */
    ghost function Taken(now: int): Snapshots
      reads this`snapshots, this`active
    {
      if active.Some? then snapshots[now := ReadBack(active.value)] else snapshots
    }

    predicate Readable()
      reads this`active
    {
      active.Some? ==> active.value.Text?
    }

    /** `apply`.  `saved` says that its snapshot was written: until then nothing has changed, and from
        then on the snapshots are the earlier ones and this one, pruned to the newest, completely so
        when the apply completes.  The clock may have gone back.  An active file that is no text is
        never replaced. */
    method Apply(text: string, now: int, keep: nat) returns (o: Outcome, ghost saved: bool)
      requires keep >= 1
      modifies this
      ensures calm ==> old(calm)
      ensures o.Done? && old(calm) ==> calm
      ensures calm && old(Readable()) ==> o.Done?
      ensures !old(Readable()) ==> o.Raised? && !saved
      ensures !saved ==> active == old(active) && snapshots == old(snapshots)
      ensures saved ==> PrunedTo(old(Taken(now)), snapshots, keep, o.Done?)
      ensures active == old(active) || active == Some(Text(text))
      ensures o.Done? ==> saved && active == Some(Text(text)) && !pending
      ensures active != old(active) && !pending ==> state == Some(State(Applied, old(Taken(now)) != map[]))
      ensures o.Done? ==> state == Some(State(Applied, old(Taken(now)) != map[]))
    {
      ghost var taken := Taken(now);
      o, saved := Done, true;
      if active.Some? {
        if active.value.Binary? {
          return Raised, false;
        }
        o := WriteSnapshot(now, Translate(active.value.text));
        if o.IsFailure() {
          saved := snapshots == taken;
          return;
        }
      }
      assert taken == snapshots;
      o := Switch(text);
      if o.IsFailure() {
        return;
      }
      hide PrunedTo;
      o := Prune(keep);
    }

    /** `rollback` restores the newest snapshot and keeps it, so it can be repeated.  A snapshot that
        is no text is not restored, and one with carriage returns is as it is read. */
    method Rollback() returns (o: Outcome)
      modifies this`active, this`state, this`calm
      ensures calm ==> old(calm)
      ensures o.Done? && old(calm) ==> calm
      ensures calm && CanRestore(snapshots) ==> o.Done?
      ensures !CanRestore(snapshots) ==> o.Raised? && active == old(active) && state == old(state)
      ensures active == old(active) || (CanRestore(snapshots) && active == Some(Restored(snapshots)))
      ensures o.Done? ==> CanRestore(snapshots) && active == Some(Restored(snapshots))
      ensures o.Done? ==> state == Some(State(RolledBack(Newest(snapshots)), false))
    {
      var candidates := NewestFirst();
      if candidates == [] {
        return Raised;
      }
      FirstIsNewest(candidates, snapshots);
      var snapshot := snapshots[candidates[0]];
      if snapshot.Binary? {
        return Raised;
      }
      o := WriteActive(Translate(snapshot.text));
      if o.IsFailure() {
        return;
      }
      o := WriteState(State(RolledBack(candidates[0]), false));
    }
  }

  /** There is a newest snapshot, and it is text. */
  ghost predicate CanRestore(snapshots: Snapshots) {
    HasLatest(snapshots) && snapshots[Newest(snapshots)].Text?
  }

  ghost function Restored(snapshots: Snapshots): Stored
    requires HasLatest(snapshots)
  {
    ReadBack(snapshots[Newest(snapshots)])
  }

  ghost predicate IsLatest(snapshots: Snapshots, n: int) {
    n in snapshots && forall t <- snapshots :: t <= n
  }

  ghost predicate HasLatest(snapshots: Snapshots) {
    exists n :: IsLatest(snapshots, n)
  }

  ghost function Newest(snapshots: Snapshots): (n: int)
    ensures HasLatest(snapshots) ==> IsLatest(snapshots, n)
  {
    if HasLatest(snapshots) then
      var n :| IsLatest(snapshots, n);
      n
    else 0
  }

  lemma FirstIsNewest(order: seq<int>, snapshots: Snapshots)
    requires order != [] && IsFalling(order, snapshots.Keys)
    ensures order[0] in snapshots && HasLatest(snapshots) && Newest(snapshots) == order[0]
  {
    assert order[0] in order;
    forall t <- snapshots
      ensures t <= order[0]
    {
      var k :| 0 <= k < |order| && order[k] == t;
      assert k > 0 ==> Descending()(order[0], order[k]);
    }
    assert IsLatest(snapshots, order[0]);
  }

  /** Pruning keeps the newest snapshot. */
  lemma NewestSurvives(before: Snapshots, after: Snapshots, keep: nat, complete: bool)
    requires keep >= 1 && HasLatest(before) && PrunedTo(before, after, keep, complete)
    ensures HasLatest(after) && Newest(after) == Newest(before) && after[Newest(after)] == before[Newest(before)]
  {
    var n := Newest(before);
    assert Newer(before.Keys, n) == {};
    assert AmongNewest(before.Keys, n, keep);
    assert IsLatest(after, n);
  }

  lemma TakenHasLatest(snapshots: Snapshots, now: int, text: Stored) returns (n: int)
    ensures var taken := snapshots[now := text];
            && HasLatest(taken) && n == Newest(taken)
            && (OnTime(snapshots, now) ==> n == now)
  {
    var taken := snapshots[now := text];
    n := Latest(taken.Keys, now);
    assert IsLatest(taken, n);
    assert Newest(taken) == n && n in taken && now in taken;
    if OnTime(snapshots, now) {
      assert n == now || n in snapshots;
    }
  }

  lemma {:induction false} Latest(taken: set<int>, from: int) returns (n: int)
    requires from in taken
    ensures n in taken && forall t <- taken :: t <= n
    decreases Newer(taken, from)
  {
    if later :| later in taken && later > from {
      assert later in Newer(taken, from) && later !in Newer(taken, later);
      n := Latest(taken, later);
    } else {
      n := from;
    }
  }

  /** Reading a text twice is like reading it once, and gives it exactly if it has no carriage return. */
  lemma ReadBackExact(s: Stored)
    ensures ReadBack(ReadBack(s)) == ReadBack(s)
    ensures s.Text? ==> (ReadBack(s) == s <==> '\r' !in s.text)
  {
    if s.Text? {
      TranslateExact(s.text);
      TranslateExact(Translate(s.text));
    }
  }

  /** No snapshot is named later than the clock says. */
  ghost predicate OnTime(snapshots: Snapshots, now: int) {
    forall t <- snapshots :: t <= now
  }

  /** An apply that completed, or was interrupted anywhere after its snapshot, followed by any number
      of rollbacks of which one completed, restores the newest of the snapshots it left.  Unless an
      earlier snapshot carries a later time, that is the text that was active before it as it was
      read, which is the exact text if and only if that held no carriage return. */
  method ApplyThenRollBack(m: Manager, text: string, now: int, keep: nat, times: nat)
    returns (applied: Outcome, ghost saved: bool, completed: nat)
    requires keep >= 1 && m.active.Some?
    modifies m
    ensures applied.Done? ==> saved
    ensures !old(m.Readable()) ==> applied.Raised? && !saved
    ensures var taken := old(m.Taken(now));
            && HasLatest(taken)
            && (saved && completed > 0 ==> m.active == Some(Restored(taken)))
            && (saved ==> m.active in {old(m.active), Some(Text(text)), Some(Restored(taken))})
            && (m.calm && old(m.Readable()) && CanRestore(taken) ==> applied.Done? && completed == times)
    ensures m.calm ==> old(m.calm)
    ensures saved && completed > 0 && old(OnTime(m.snapshots, now)) ==>
              && m.active == Some(ReadBack(old(m.active).value))
              && (m.active == old(m.active) <==> '\r' !in old(m.active).value.text)
    ensures m.calm && old(m.Readable() && OnTime(m.snapshots, now)) ==> applied.Done? && completed == times
    ensures !saved && times == 0 ==> m.active == old(m.active)
  {
    hide PrunedTo, HasLatest, OnTime;
    ghost var taken := m.Taken(now);
    ghost var n := TakenHasLatest(m.snapshots, now, ReadBack(m.active.value));
    ReadBackExact(m.active.value);
    applied, saved := m.Apply(text, now, keep);
    completed := 0;
    if saved {
      NewestSurvives(taken, m.snapshots, keep, applied.Done?);
    }
    label Applied:
    for i := 0 to times
      invariant m.snapshots == old@Applied(m.snapshots)
      invariant saved && completed > 0 ==> m.active == Some(Restored(taken))
      invariant saved ==> m.active in {old(m.active), Some(Text(text)), Some(Restored(taken))}
      invariant i == 0 ==> m.active == old@Applied(m.active)
      invariant m.calm ==> old@Applied(m.calm) && (saved && CanRestore(taken) ==> completed == i)
    {
      var o := m.Rollback();
      if o.Done? {
        completed := completed + 1;
      }
    }
  }
}
