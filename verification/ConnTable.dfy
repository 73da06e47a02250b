/** The server's table of connections (src/xcd.cpp): the accept thread adds managers, the cleaner thread deletes
    finished ones, and each manager's worker finishes when it likes. The table is guarded by one mutex. */
module ConnTable {
  import opened Connection

  const MAX_CONNECTED_CLIENTS := 10

  /** What `std::list::remove` leaves of a list: everything but the members of `drop`, in order. */
  function Without<T(==)>(list: seq<T>, drop: set<T>): seq<T> {
    if list == [] then []
    else
      var n := |list| - 1;
      Without(list[..n], drop) + if list[n] in drop then [] else [list[n]]
  }

  lemma {:induction false} WithoutMembers<T>(list: seq<T>, drop: set<T>)
    ensures |Without(list, drop)| <= |list|
    ensures forall x :: x in Without(list, drop) <==> x in list && x !in drop
  {
    if list != [] {
      var n := |list| - 1;
      WithoutMembers(list[..n], drop);
      assert list == list[..n] + [list[n]];
    }
  }

  /** Member by member, in order. */
  lemma {:induction false} WithoutAppend<T>(list: seq<T>, more: seq<T>, drop: set<T>)
    ensures Without(list + more, drop) == Without(list, drop) + Without(more, drop)
  {
    if more == [] {
      assert list + more == list;
    } else {
      var n := |more| - 1;
      assert (list + more)[..|list| + n] == list + more[..n] && (list + more)[|list| + n] == more[n];
      WithoutAppend(list, more[..n], drop);
    }
  }

  lemma WithoutOne<T>(x: T, drop: set<T>)
    ensures Without([x], drop) == if x in drop then [] else [x]
  {
    assert [x][..0] == [];
  }

  /** Marking the members of `drop` and then removing the mark is removing the members of `drop`. */
  lemma {:induction false} MarkThenRemove<T>(list: seq<T>, marked: seq<T>, mark: T, drop: set<T>)
    requires |marked| == |list| && mark !in list
    requires forall j :: 0 <= j < |list| ==> marked[j] == if list[j] in drop then mark else list[j]
    ensures Without(marked, {mark}) == Without(list, drop)
  {
    if list != [] {
      var n := |list| - 1;
      MarkThenRemove(list[..n], marked[..n], mark, drop);
    }
  }

  /** Nobody is lost, and nobody is both kept and deleted. */
  lemma {:induction false} KeptOrDeleted<T>(list: seq<T>, drop: set<T>, keep: set<T>)
    requires forall x :: x in list ==> (x in drop <==> x !in keep)
    ensures multiset(Without(list, drop)) + multiset(Without(list, keep)) == multiset(list)
  {
    if list != [] {
      var n := |list| - 1;
      assert list == list[..n] + [list[n]];
      KeptOrDeleted(list[..n], drop, keep);
    }
  }

  // ---------- all threads together ----------

  /** A place in the list while the cleaner is at work; managers are numbered as they are created. */
  datatype Slot = Null | Manager(id: nat)

  datatype AcceptPhase = WaitForConnection | StartConnManager | Adding

  /** The cleaner's steps for slot `i`: look whether it is done, delete it, clear the slot; then sweep. */
  datatype CleanPhase = Sleeping | Look(i: nat) | Delete(i: nat) | Clear(i: nat)

  /** `before` and `doneBefore` remember the table and the finished workers when the pass under way began,
      `observed` the managers it has seen finished. */
  datatype Table = Table(
    list: seq<Slot>, accept: AcceptPhase, clean: CleanPhase, created: nat, done: set<nat>, deleted: seq<nat>,
    before: seq<Slot>, doneBefore: set<nat>, observed: set<nat>)
  {
    /** Whether the mutex is free. */
    predicate Free() { clean.Sleeping? && !accept.Adding? }
  }

  const INITIAL := Table([], WaitForConnection, Sleeping, 0, {}, [], [], {}, {})

  datatype Action = Connect | LockForAdding | Add | WorkerDone(id: nat) | LockForCleaning | Clean

  predicate Enabled(t: Table, a: Action) {
    match a
    case Connect => t.accept.WaitForConnection?
    case LockForAdding => t.accept.StartConnManager? && t.Free()
    case Add => t.accept.Adding?
    case WorkerDone(id) => id < t.created && id !in t.done
    case LockForCleaning => t.Free()
    case Clean => !t.clean.Sleeping?
  }

  function CleanStep(t: Table): Table {
    match t.clean
    case Sleeping => t
    case Look(i) =>
      if i >= |t.list| then t.(list := Without(t.list, {Null}), clean := Sleeping)
      else if t.list[i].Manager? && t.list[i].id in t.done
      then t.(clean := Delete(i), observed := t.observed + {t.list[i].id})
      else t.(clean := Look(i + 1))
    case Delete(i) =>
      if i < |t.list| && t.list[i].Manager? then t.(deleted := t.deleted + [t.list[i].id], clean := Clear(i)) else t
    case Clear(i) =>
      if i < |t.list| then t.(list := t.list[i := Null], clean := Look(i + 1)) else t
  }

  function Next(t: Table, a: Action): Table {
    if !Enabled(t, a) then t
    else
      match a
      case Connect => t.(accept := StartConnManager)
      case LockForAdding => t.(accept := Adding)
      case Add =>
        if |t.list| >= MAX_CONNECTED_CLIENTS then t.(accept := WaitForConnection)
        else t.(list := t.list + [Manager(t.created)], created := t.created + 1, accept := WaitForConnection)
      case WorkerDone(id) => t.(done := t.done + {id})
      case LockForCleaning => t.(clean := Look(0), before := t.list, doneBefore := t.done, observed := {})
      case Clean => CleanStep(t)
  }

  function Exec(actions: seq<Action>): Table {
    if actions == [] then INITIAL
    else Next(Exec(actions[..|actions| - 1]), actions[|actions| - 1])
  }

  // ---------- what holds in every reachable state ----------

  /** No manager is in the list twice, and all have been created. */
  ghost predicate Distinct(list: seq<Slot>, created: nat) {
    && (forall j, k :: 0 <= j < k < |list| && list[j].Manager? ==> list[j] != list[k])
    && (forall j :: 0 <= j < |list| && list[j].Manager? ==> list[j].id < created)
  }

  ghost predicate AllManagers(list: seq<Slot>) {
    forall j :: 0 <= j < |list| ==> list[j].Manager?
  }

  /** Deletions happen once, to managers whose workers are done. */
  ghost predicate DeletedOnce(t: Table) {
    && (forall id :: id in t.done ==> id < t.created)
    && (forall k :: 0 <= k < |t.deleted| ==> t.deleted[k] in t.done)
    && (forall j, k :: 0 <= j < k < |t.deleted| ==> t.deleted[j] != t.deleted[k])
  }

  /** Every manager created is in the list or deleted, and both only while its slot is about to be cleared. */
  ghost predicate Covered(t: Table) {
    && (forall id :: 0 <= id < t.created ==> Manager(id) in t.list || id in t.deleted)
    && (forall j :: 0 <= j < |t.list| && t.list[j].Manager? && t.clean != Clear(j) ==> t.list[j].id !in t.deleted)
  }

  /** What the pass has made of the first `i` slots: null where the manager was among those `seen` finished. */
  ghost predicate PassInv(t: Table, i: nat, seen: set<nat>) {
    && |t.list| == |t.before| && i <= |t.list|
    && AllManagers(t.before) && Distinct(t.before, t.created)
    && (forall id :: id in seen ==> Manager(id) in t.before[..i])
    && (forall j :: 0 <= j < i ==> t.list[j] == if t.before[j].id in seen then Null else t.before[j])
    && (forall j :: 0 <= j < i && t.before[j].id in t.doneBefore ==> t.before[j].id in seen)
    && (forall j :: i <= j < |t.list| ==> t.list[j] == t.before[j])
  }

  ghost predicate CleanInv(t: Table) {
    && t.observed <= t.done && t.doneBefore <= t.done
    && match t.clean
       case Sleeping => AllManagers(t.list)
       case Look(i) => PassInv(t, i, t.observed)
       case Delete(i) => AtSlot(t, i) && t.list[i].id !in t.deleted
       case Clear(i) => AtSlot(t, i) && t.list[i].id in t.deleted
  }

  /** The manager in slot `i` has just been seen finished. */
  ghost predicate AtSlot(t: Table, i: nat) {
    && i < |t.list| && t.list[i].Manager? && t.list[i].id in t.observed
    && PassInv(t, i, t.observed - {t.list[i].id})
  }

  ghost predicate Inv(t: Table) {
    && |t.list| <= MAX_CONNECTED_CLIENTS && (t.accept.Adding? ==> t.clean.Sleeping?)
    && Distinct(t.list, t.created) && DeletedOnce(t) && Covered(t) && CleanInv(t)
  }

  lemma AddInv(t: Table)
    requires Inv(t) && Enabled(t, Add)
    ensures Inv(Next(t, Add))
  {
    var u := Next(t, Add);
    if |t.list| < MAX_CONNECTED_CLIENTS {
      var m := Manager(t.created);
      assert u.list == t.list + [m];
      forall id | 0 <= id < u.created ensures Manager(id) in u.list || id in u.deleted {
        if id < t.created && Manager(id) in t.list {
          assert Manager(id) in t.list + [m];
        }
      }
    }
  }

  lemma WorkerDoneInv(t: Table, id: nat)
    requires Inv(t) && Enabled(t, WorkerDone(id))
    ensures Inv(Next(t, WorkerDone(id)))
  {
  }

  lemma LockInv(t: Table, a: Action)
    requires Inv(t) && Enabled(t, a) && (a.Connect? || a.LockForAdding? || a.LockForCleaning?)
    ensures Inv(Next(t, a))
  {
  }

  lemma LookInv(t: Table)
    requires Inv(t) && t.clean.Look? && t.clean.i < |t.list|
    ensures Inv(CleanStep(t))
  {
    var i, u := t.clean.i, CleanStep(t);
    NotSeenYet(t, i);
    if u.clean.Delete? {
      assert u.observed - {t.list[i].id} == t.observed;
    } else {
      PassedOver(t, u, i);
    }
    hide PassInv, Distinct;
  }

  lemma NotSeenYet(t: Table, i: nat)
    requires PassInv(t, i, t.observed) && i < |t.list|
    ensures t.list[i].Manager? && t.list[i].id !in t.observed
  {
    forall j | 0 <= j < i ensures t.before[..i][j] != t.before[i] {
    }
  }

  lemma PassedOver(t: Table, u: Table, i: nat)
    requires PassInv(t, i, t.observed) && i < |t.list| && u == t.(clean := Look(i + 1))
    requires t.doneBefore <= t.done && t.list[i].Manager? && t.list[i].id !in t.done && t.list[i].id !in t.observed
    ensures PassInv(u, i + 1, u.observed)
  {
    assert t.before[..i + 1] == t.before[..i] + [t.before[i]];
  }

  lemma DeleteInv(t: Table)
    requires Inv(t) && t.clean.Delete?
    ensures Inv(CleanStep(t))
  {
  }

  lemma ClearInv(t: Table)
    requires Inv(t) && t.clean.Clear?
    ensures Inv(CleanStep(t))
  {
    var u, i := CleanStep(t), t.clean.i;
    var m := t.list[i];
    assert t.before[..i + 1] == t.before[..i] + [m];
    forall id | 0 <= id < u.created ensures Manager(id) in u.list || id in u.deleted {
      if Manager(id) in t.list && id != m.id {
        var j :| 0 <= j < |t.list| && t.list[j] == Manager(id);
        assert u.list[j] == Manager(id);
      }
    }
    forall j | 0 <= j < i ensures t.before[j].id != m.id {
      assert t.before[j] != t.before[i];
    }
    assert PassInv(u, i + 1, u.observed);
  }

  lemma {:induction false} StillDistinct(list: seq<Slot>, drop: set<Slot>, created: nat)
    requires Distinct(list, created) && Null in drop
    ensures AllManagers(Without(list, drop)) && Distinct(Without(list, drop), created)
  {
    if list != [] {
      var n := |list| - 1;
      StillDistinct(list[..n], drop, created);
      if list[n] !in drop {
        var kept := Without(list[..n], drop);
        WithoutMembers(list[..n], drop);
        forall j | 0 <= j < |kept| ensures kept[j] != list[n] {
          assert kept[j] in list[..n];
        }
        assert list[n].Manager?;
        OneMore(kept, list[n], created);
      }
    }
  }

  lemma OneMore(kept: seq<Slot>, m: Slot, created: nat)
    requires AllManagers(kept) && Distinct(kept, created) && m.Manager? && m.id < created
    requires forall j :: 0 <= j < |kept| ==> kept[j] != m
    ensures AllManagers(kept + [m]) && Distinct(kept + [m], created)
  {
  }

  lemma SweepInv(t: Table)
    requires Inv(t) && t.clean.Look? && t.clean.i >= |t.list|
    ensures Inv(CleanStep(t))
  {
    hide PassInv;
    StillDistinct(t.list, {Null}, t.created);
    WithoutMembers(t.list, {Null});
    var u := CleanStep(t);
    forall j | 0 <= j < |u.list| ensures u.list[j].id !in u.deleted {
      assert u.list[j] in t.list;
    }
  }

  lemma CleanStepInv(t: Table)
    requires Inv(t)
    ensures Inv(CleanStep(t))
  {
    hide Inv;
    match t.clean
    case Look(i) =>
      if i < |t.list| {
        LookInv(t);
      } else {
        SweepInv(t);
      }
    case Delete(_) => DeleteInv(t);
    case Clear(_) => ClearInv(t);
    case Sleeping =>
  }

  lemma NextInv(t: Table, a: Action)
    requires Inv(t)
    ensures Inv(Next(t, a))
  {
    hide Inv, CleanStep;
    if Enabled(t, a) {
      match a
      case Add => AddInv(t);
      case WorkerDone(id) => WorkerDoneInv(t, id);
      case Clean => CleanStepInv(t);
      case _ => LockInv(t, a);
    }
  }

  lemma {:induction false} RunInv(actions: seq<Action>)
    ensures Inv(Exec(actions))
  {
    hide Inv, Next;
    if actions == [] {
      InitialInv();
    } else {
      RunInv(actions[..|actions| - 1]);
      NextInv(Exec(actions[..|actions| - 1]), actions[|actions| - 1]);
    }
  }

  lemma InitialInv()
    ensures Inv(INITIAL)
  {
  }

  // ---------- main results ----------

  /** However accept thread, cleaner and workers take their turns: the table holds at most ten managers, none twice, and
      only managers while the mutex is free; a manager is deleted at most once and never while its worker runs; and
      while the mutex is free every manager ever created is in the table or deleted, not both. */
  lemma TableSafety(actions: seq<Action>)
    ensures var t := Exec(actions);
      && |t.list| <= 10
      && (forall j, k :: 0 <= j < k < |t.list| && t.list[j].Manager? ==> t.list[j] != t.list[k])
      && (forall j, k :: 0 <= j < k < |t.deleted| ==> t.deleted[j] != t.deleted[k])
      && (forall id :: id in t.deleted ==> id in t.done)
      && (t.Free() ==>
            && AllManagers(t.list)
            && forall id :: 0 <= id < t.created ==> (Manager(id) in t.list <==> id !in t.deleted))
  {
    hide Exec;
    RunInv(actions);
  }

  function Managers(ids: set<nat>): set<Slot> { set id | id in ids :: Manager(id) }

  /** A pass removes exactly the managers it has seen finished, all of which it has deleted, and keeps the others in
      order. It misses none that was finished when it began and takes none that is not finished when it ends. */
  lemma PassResult(actions: seq<Action>)
    ensures var t := Exec(actions);
      t.clean.Look? && t.clean.i >= |t.list| ==>
        && Next(t, Clean).list == Without(t.before, Managers(t.observed))
        && (forall id :: Manager(id) in t.before && id in t.doneBefore ==> id in t.observed)
        && t.observed <= t.done
        && (forall id :: id in t.observed ==> id in t.deleted)
  {
    hide Exec;
    RunInv(actions);
    var t := Exec(actions);
    if t.clean.Look? && t.clean.i >= |t.list| {
      MarkThenRemove(t.before, t.list, Null, Managers(t.observed));
      forall id | id in t.observed ensures id in t.deleted {
        ObservedAreGone(t, id);
      }
    }
  }

  lemma ObservedAreGone(t: Table, id: nat)
    requires Inv(t) && t.clean.Look? && t.clean.i >= |t.list| && id in t.observed
    ensures id in t.deleted
  {
  }

  // ---------- what the table does ----------

  function RunFrom(t: Table, actions: seq<Action>): Table
    decreases |actions|
  {
    if actions == [] then t else RunFrom(Next(t, actions[0]), actions[1..])
  }

  lemma {:induction false} ExecThen(actions: seq<Action>, more: seq<Action>)
    ensures Exec(actions + more) == RunFrom(Exec(actions), more)
    decreases |more|
  {
    hide Next;
    if more == [] {
      assert actions + more == actions;
    } else {
      var first := actions + [more[0]];
      assert first[..|first| - 1] == actions && actions + more == first + more[1..];
      ExecThen(first, more[1..]);
    }
  }

  lemma {:induction false} RunFromAppend(t: Table, a: seq<Action>, b: seq<Action>)
    ensures RunFrom(t, a + b) == RunFrom(RunFrom(t, a), b)
    decreases |a|
  {
    if a == [] {
      assert a + b == b;
    } else {
      assert (a + b)[1..] == a[1..] + b;
      RunFromAppend(Next(t, a[0]), a[1..], b);
    }
  }

  /** The connections that have been given a manager. */
  function Admissions(actions: seq<Action>): nat {
    if actions == [] then 0
    else
      var before := Exec(actions[..|actions| - 1]);
      var admitted := actions[|actions| - 1].Add? && before.accept.Adding? && |before.list| < 10;
      Admissions(actions[..|actions| - 1]) + if admitted then 1 else 0
  }

  lemma {:induction false} CreatedIsAdmissions(actions: seq<Action>)
    ensures Exec(actions).created == Admissions(actions)
  {
    if actions != [] {
      CreatedIsAdmissions(actions[..|actions| - 1]);
    }
  }

  /** A connection, as soon as the mutex is free, is given the next manager, at the end of the list; or, when there are
      ten, it is not. */
  lemma Admission(actions: seq<Action>)
    requires Exec(actions).Free()
    ensures var t, u := Exec(actions), Exec(actions + [Connect, LockForAdding, Add]);
      && u.list == (if |t.list| < 10 then t.list + [Manager(Admissions(actions))] else t.list)
      && u.created == (if |t.list| < 10 then t.created + 1 else t.created)
      && u.done == t.done && u.deleted == t.deleted && u.Free() && u.accept.WaitForConnection?
  {
    hide Exec;
    CreatedIsAdmissions(actions);
    ExecThen(actions, [Connect, LockForAdding, Add]);
    var t := Exec(actions);
    var t1 := Next(t, Connect);
    var t2 := Next(t1, LockForAdding);
    assert RunFrom(t, [Connect, LockForAdding, Add]) == RunFrom(t1, [LockForAdding, Add]);
    assert RunFrom(t1, [LockForAdding, Add]) == RunFrom(t2, [Add]) == Next(t2, Add);
  }

  function WorkersFinish(ids: seq<nat>): (actions: seq<Action>) {
    seq(|ids|, j requires 0 <= j < |ids| => WorkerDone(ids[j]))
  }

  lemma {:induction false} FinishRun(t: Table, ids: seq<nat>)
    requires forall j :: 0 <= j < |ids| ==> ids[j] < t.created
    ensures RunFrom(t, WorkersFinish(ids)) == t.(done := t.done + set id | id in ids)
    decreases |ids|
  {
    if ids != [] {
      var u := Next(t, WorkerDone(ids[0]));
      assert WorkersFinish(ids)[1..] == WorkersFinish(ids[1..]);
      FinishRun(u, ids[1..]);
      assert u.done + (set id | id in ids[1..]) == t.done + set id | id in ids;
    }
  }

  /** The slots of finished managers become null. */
  function Marked(list: seq<Slot>, done: set<nat>): (r: seq<Slot>)
    ensures |r| == |list|
  {
    seq(|list|, j requires 0 <= j < |list| => if list[j].Manager? && list[j].id in done then Null else list[j])
  }

  function Finished(list: seq<Slot>, done: set<nat>): seq<nat> {
    if list == [] then []
    else (if list[0].Manager? && list[0].id in done then [list[0].id] else []) + Finished(list[1..], done)
  }

  function Cleans(n: nat): (actions: seq<Action>) { seq(n, _ => Clean) }

  lemma OneClean(t: Table, n: nat)
    ensures RunFrom(t, Cleans(n + 1)) == RunFrom(Next(t, Clean), Cleans(n))
  {
    assert Cleans(n + 1)[1..] == Cleans(n);
  }

  /** What one slot comes to: three steps for a finished manager, one for another. */
  lemma OneSlot(t: Table, i: nat) returns (n: nat)
    requires t.clean == Look(i) && i < |t.list| && t.list[i].Manager?
    ensures var u := RunFrom(t, Cleans(n));
      && u.clean == Look(i + 1) && u.accept == t.accept && u.created == t.created && u.done == t.done
      && u.list == (if t.list[i].id in t.done then t.list[i := Null] else t.list)
      && u.deleted == t.deleted + (if t.list[i].id in t.done then [t.list[i].id] else [])
  {
    if t.list[i].id in t.done {
      n := 3;
      var t1 := Next(t, Clean);
      OneClean(t, 2);
      OneClean(t1, 1);
      OneClean(Next(t1, Clean), 0);
    } else {
      n := 1;
      OneClean(t, 0);
    }
  }

  lemma MarkedStep(list: seq<Slot>, i: nat, done: set<nat>, next: seq<Slot>)
    requires i < |list| && list[i].Manager?
    requires next == if list[i].id in done then list[i := Null] else list
    ensures next[..i + 1] + Marked(next[i + 1..], done) == list[..i] + Marked(list[i..], done)
    ensures Finished(list[i..], done) ==
            (if list[i].id in done then [list[i].id] else []) + Finished(next[i + 1..], done)
  {
    assert list[i..][1..] == next[i + 1..];
  }

  /** The rest of a pass from slot `i` on, undisturbed. */
  lemma {:induction false} RestOfPass(t: Table, i: nat) returns (n: nat)
    requires t.clean == Look(i) && i <= |t.list| && AllManagers(t.list[i..])
    ensures var u := RunFrom(t, Cleans(n));
      && u.list == Without(t.list[..i] + Marked(t.list[i..], t.done), {Null})
      && u.deleted == t.deleted + Finished(t.list[i..], t.done)
      && u.clean.Sleeping? && u.accept == t.accept && u.created == t.created && u.done == t.done
    decreases |t.list| - i
  {
    hide Without;
    if i == |t.list| {
      n := 1;
      OneClean(t, 0);
      assert t.list[..i] + Marked(t.list[i..], t.done) == t.list;
    } else {
      assert t.list[i..][0] == t.list[i];
      var k := OneSlot(t, i);
      hide Next, Finished, Marked;
      var u := RunFrom(t, Cleans(k));
      MarkedStep(t.list, i, t.done, u.list);
      assert u.list[i + 1..] == t.list[i..][1..];
      var m := RestOfPass(u, i + 1);
      n := k + m;
      RunFromAppend(t, Cleans(k), Cleans(m));
      assert Cleans(k) + Cleans(m) == Cleans(n);
    }
  }

  /** Any workers may finish, and the cleaner then takes out and deletes exactly the finished managers, in order. */
  lemma CleaningPass(actions: seq<Action>, ids: seq<nat>) returns (more: seq<Action>)
    requires Exec(actions).Free() && forall j :: 0 <= j < |ids| ==> ids[j] < Exec(actions).created
    ensures var t, u := Exec(actions), Exec(actions + more);
      var done := t.done + set id | id in ids;
      && u.list == Without(t.list, Managers(done)) && u.deleted == t.deleted + Finished(t.list, done)
      && u.created == t.created && u.done == done && u.Free()
  {
    hide Exec, Without;
    RunInv(actions);
    var t := Exec(actions);
    var t1 := RunFrom(t, WorkersFinish(ids));
    FinishRun(t, ids);
    var t2 := Next(t1, LockForCleaning);
    assert t2.list[0..] == t.list;
    var n := RestOfPass(t2, 0);
    more := WorkersFinish(ids) + ([LockForCleaning] + Cleans(n));
    ExecThen(actions, more);
    RunFromAppend(t, WorkersFinish(ids), [LockForCleaning] + Cleans(n));
    assert ([LockForCleaning] + Cleans(n))[1..] == Cleans(n);
    assert t2.list[..0] + Marked(t.list, t1.done) == Marked(t.list, t1.done);
    MarkThenRemove(t.list, Marked(t.list, t1.done), Null, Managers(t1.done));
  }

  // ---------- one thread at a time ----------

  function Done(managers: seq<ConnectionManager?>): set<ConnectionManager?>
    reads managers
  {
    set cm | cm in managers && cm != null && cm.done
  }

  function Unseen<T(==)>(list: seq<T>, seen: set<T>): set<T> { set x | x in list && x !in seen }

  lemma {:induction false} WithoutAgrees<T>(list: seq<T>, drop: set<T>, drop': set<T>)
    requires forall x :: x in list ==> (x in drop <==> x in drop')
    ensures Without(list, drop) == Without(list, drop')
  {
    if list != [] {
      WithoutAgrees(list[..|list| - 1], drop, drop');
    }
  }

  ghost predicate NoneTwice<T>(list: seq<T>) { forall j, k :: 0 <= j < k < |list| ==> list[j] != list[k] }

  /** What a pass over `list` has made of the first `i` places: the members `seen` finished are marked and `deleted`,
      all those finished at `first` among them. */
  ghost predicate Swept<T>(list: seq<T>, now: seq<T>, mark: T, i: nat, first: set<T>, seen: set<T>,
      deleted: seq<T>)
  {
    && |now| == |list| && i <= |list|
    && (forall j :: 0 <= j < i ==> now[j] == if list[j] in seen then mark else list[j])
    && (forall j :: i <= j < |list| ==> now[j] == list[j])
    && (forall x :: x in seen ==> x in list[..i])
    && (forall x :: x in list[..i] && x in first ==> x in seen)
    && deleted == Without(list[..i], Unseen(list[..i], seen))
  }

  lemma SweptNone<T>(list: seq<T>, mark: T, first: set<T>)
    ensures Swept(list, list, mark, 0, first, {}, [])
  {
  }

  lemma SweptNext<T>(list: seq<T>, now: seq<T>, mark: T, i: nat, first: set<T>, seen: set<T>, deleted: seq<T>,
      finished: bool)
    requires Swept(list, now, mark, i, first, seen, deleted) && i < |list| && NoneTwice(list)
    requires list[i] in first ==> finished
    ensures var x := list[i];
      if finished then Swept(list, now[i := mark], mark, i + 1, first, seen + {x}, deleted + [x])
      else Swept(list, now, mark, i + 1, first, seen, deleted)
  {
    hide Without, Unseen;
    var x := list[i];
    assert list[..i + 1] == list[..i] + [x];
    assert x !in list[..i];
    UnseenStep(list[..i], x, seen, if finished then seen + {x} else seen);
  }

  lemma UnseenStep<T>(list: seq<T>, x: T, seen: set<T>, seen': set<T>)
    requires x !in list && x !in seen && (seen' == seen || seen' == seen + {x})
    ensures Without(list + [x], Unseen(list + [x], seen')) ==
            Without(list, Unseen(list, seen)) + if x in seen' then [x] else []
  {
    assert (list + [x])[..|list|] == list;
    WithoutAgrees(list, Unseen(list + [x], seen'), Unseen(list, seen));
  }

  lemma SweptAll<T>(list: seq<T>, now: seq<T>, mark: T, first: set<T>, seen: set<T>, deleted: seq<T>)
    requires Swept(list, now, mark, |list|, first, seen, deleted) && NoneTwice(list) && mark !in list
    ensures Without(now, {mark}) == Without(list, seen) && deleted == Without(list, Unseen(list, seen))
    ensures NoneTwice(Without(list, seen)) && mark !in Without(list, seen)
    ensures forall x :: x in list && x in first ==> x in seen
    ensures forall x :: x in seen ==> x in list
  {
    assert list[..|list|] == list;
    MarkThenRemove(list, now, mark, seen);
    WithoutMembers(list, seen);
    StillNoneTwice(list, seen);
  }

  lemma {:induction false} StillNoneTwice<T>(list: seq<T>, drop: set<T>)
    requires NoneTwice(list)
    ensures NoneTwice(Without(list, drop))
  {
    if list != [] {
      var n := |list| - 1;
      var kept := Without(list[..n], drop);
      StillNoneTwice(list[..n], drop);
      WithoutMembers(list[..n], drop);
      forall j | 0 <= j < |kept| ensures kept[j] != list[n] {
        assert kept[j] in kept && list[n] !in list[..n];
      }
    }
  }

  /** `managers` are the managers in the slots of the table; `all` are those created so far, by number. */
  ghost predicate Represents(managers: seq<ConnectionManager?>, all: seq<ConnectionManager>, list: seq<Slot>) {
    && |managers| == |list|
    && forall j :: 0 <= j < |list| ==>
         list[j].Manager? && list[j].id < |all| && managers[j] == all[list[j].id]
  }

  lemma {:induction false} StillRepresents(managers: seq<ConnectionManager?>, all: seq<ConnectionManager>,
      list: seq<Slot>, seen: set<ConnectionManager?>, done: set<nat>)
    requires Represents(managers, all, list)
    requires forall j :: 0 <= j < |list| ==> (list[j].id in done <==> managers[j] in seen)
    ensures Represents(Without(managers, seen), all, Without(list, Managers(done)))
  {
    if list != [] {
      var n := |list| - 1;
      StillRepresents(managers[..n], all, list[..n], seen, done);
      assert list[n] in Managers(done) <==> list[n].id in done;
    }
  }

  /** The numbers of the managers seen finished. */
  function NumbersSeen(managers: seq<ConnectionManager?>, list: seq<Slot>, seen: set<ConnectionManager?>):
      (ids: seq<nat>)
    requires |managers| == |list| && forall j :: 0 <= j < |list| ==> list[j].Manager?
    ensures forall id :: id in ids <==> exists j :: 0 <= j < |list| && managers[j] in seen && list[j].id == id
  {
    if list == [] then []
    else
      var n := |list| - 1;
      NumbersSeen(managers[..n], list[..n], seen) + if managers[n] in seen then [list[n].id] else []
  }

  class ConnManagerList {
    /** Null only while the cleaner is at work. */
    var managers: seq<ConnectionManager?>

    /** What accept thread, cleaner and workers have done so far, as a run of the table. */
    ghost var run: seq<Action>
    ghost var all: seq<ConnectionManager>

    /** The list is in the state that its run leads to. */
    ghost predicate Valid()
      reads this, all
    {
      && null !in managers && NoneTwice(managers) && NoneTwice(all)
      && Exec(run).Free() && Exec(run).created == |all| && Represents(managers, all, Exec(run).list)
      && forall id :: id in Exec(run).done ==> id < |all| && all[id].done
    }

    constructor ()
      ensures Valid() && managers == [] && run == [] && all == []
    {
      managers, run, all := [], [], [];
    }

    /** What the accept thread does with a new connection; the socket of a refused one is closed. */
    method Start(cm: ConnectionManager) returns (accepted: bool)
      requires Valid() && cm !in all
      modifies this
      ensures Valid() && accepted == (|old(managers)| < 10)
      ensures managers == if accepted then old(managers) + [cm] else old(managers)
      ensures run == old(run) + [Connect, LockForAdding, Add] && all == if accepted then old(all) + [cm] else old(all)
    {
      hide Exec, Admissions, Table.Free;
      Admission(run);
      CreatedIsAdmissions(run);
      accepted := |managers| < MAX_CONNECTED_CLIENTS;
      if accepted {
        managers, all := managers + [cm], all + [cm];
      }
      run := run + [Connect, LockForAdding, Add];
    }

    /** Meanwhile, the workers of any managers in the list may finish. */
    method WorkersRun()
      modifies managers`done
      ensures forall cm :: cm in managers && cm != null && old(cm.done) ==> cm.done
    {
      for i := 0 to |managers|
        invariant forall cm :: cm in managers && cm != null && old(cm.done) ==> cm.done
      {
        var finishes: bool := *;
        if managers[i] != null && finishes {
          managers[i].done := true;
        }
      }
    }

    /** One pass of the cleaner, during which any worker may finish. It takes out and deletes those it has `seen`
        finished: all that were finished before, and none that is not finished after. */
    method CleanUp() returns (deleted: seq<ConnectionManager?>, ghost seen: set<ConnectionManager?>)
      requires Valid()
      modifies this, managers`done
      ensures Valid() && old(run) <= run && all == old(all)
      ensures forall cm :: cm in old(managers) && old(cm.done) ==> cm in seen
      ensures forall cm :: cm in seen ==> cm in old(managers) && cm.done
      ensures managers == Without(old(managers), seen)
      ensures deleted == Without(old(managers), Unseen(old(managers), seen))
    {
      ghost var before, first := managers, Done(managers);
      deleted, seen := [], {};
      var i := 0;
      hide Swept, NoneTwice, Exec, Represents, Table.Free;
      SweptNone(before, null, first);
      while i < |managers|
        invariant i <= |managers| == |before|
        invariant forall j :: i <= j < |before| ==> managers[j] == before[j]
        invariant forall j :: 0 <= j < i ==> managers[j] == null || managers[j] == before[j]
        invariant run == old(run) && all == old(all) && forall cm :: cm in all && old(cm.done) ==> cm.done
        invariant Swept(before, managers, null, i, first, seen, deleted)
        invariant forall cm :: cm in seen || (cm in first && cm in before) ==> cm in before && cm != null && cm.done
      {
        WorkersRun();
        var cm := managers[i];
        SweptNext(before, managers, null, i, first, seen, deleted, cm.done);
        if cm.done {
          deleted := deleted + [cm];
          managers := managers[i := null];
          seen := seen + {cm};
        }
        i := i + 1;
      }
      SweptAll(before, managers, null, first, seen, deleted);
      managers := Without(managers, {null});
      FollowRun(before, seen);
    }

    /** The run goes on with the workers of the managers seen finished, and a pass. */
    ghost method FollowRun(before: seq<ConnectionManager?>, seen: set<ConnectionManager?>)
      requires NoneTwice(all) && Exec(run).Free() && Exec(run).created == |all|
      requires Represents(before, all, Exec(run).list) && NoneTwice(before)
      requires forall id :: id in Exec(run).done ==> id < |all| && all[id].done
      requires forall cm :: cm in before && cm in seen ==> cm.done
      requires forall id :: id in Exec(run).done && id < |all| && all[id] in before ==> all[id] in seen
      requires managers == Without(before, seen) && null !in managers && NoneTwice(managers)
      modifies this`run
      ensures Valid() && old(run) <= run
    {
      hide Exec;
      var list := Exec(run).list;
      var ids := NumbersSeen(before, list, seen);
      var done := Exec(run).done + set id | id in ids;
      forall j | 0 <= j < |list| ensures list[j].id in done <==> before[j] in seen {
        assert before[j] == all[list[j].id];
      }
      StillRepresents(before, all, list, seen, done);
      forall j | 0 <= j < |ids| ensures ids[j] < |all| {
        assert ids[j] in ids;
      }
      hide Represents;
      var more := CleaningPass(run, ids);
      run := run + more;
    }
  }
}
