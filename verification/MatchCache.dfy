/**
 * The protocol by which threads share the tables of matches: the critical sections of `findMatch`, the wait on the
 * shared event and the weak pointers of the cache, as steps of a state machine. Every run is a list of actions.
 */
module MatchCache {

  type Thread = nat

  type Position = int

  /** Where a thread stands in its call, and the table it holds a strong pointer to. */
  datatype Phase =
    | Idle
    | Building(table: nat)
    | Blocked(table: nat)
    | Woken(table: nat)
    | Returned(table: nat)

  /** A table for one chunk position, of which `done` cells have been filled. */
  datatype Entry = Entry(pos: Position, busy: bool, waiting: bool, done: nat)

  /** `matches` holds weak pointers: one can be locked just when some thread still holds the table. */
  datatype State = State(phases: map<Thread, Phase>, tables: seq<Entry>, matches: map<Position, nat>)

  datatype Action =
    | Call(t: Thread, pos: Position)
    | Work(t: Thread)
    | Finish(t: Thread)
    | Abort(t: Thread)
    | Wake(t: Thread)
    | Resume(t: Thread)
    | Release(t: Thread)

  const INITIAL: State := State(map[], [], map[])

  function PhaseOf(s: State, t: Thread): Phase {
    if t in s.phases then s.phases[t] else Idle
  }

  predicate Holds(s: State, t: Thread, x: nat) {
    !PhaseOf(s, t).Idle? && PhaseOf(s, t).table == x
  }

  predicate Waits(s: State, t: Thread, x: nat) {
    PhaseOf(s, t) == Blocked(x) || PhaseOf(s, t) == Woken(x)
  }

  ghost predicate Held(s: State, x: nat) {
    exists t :: Holds(s, t, x)
  }

  /** The number of cells each table needs is fixed by the pattern chunk at its position. */
  ghost predicate Enabled(cells: Position -> nat, s: State, a: Action) {
    var phase := PhaseOf(s, a.t);
    && (a.Call? <==> phase.Idle?)
    && (!phase.Idle? ==> phase.table < |s.tables|)
    && match a {
      case Call(_, pos) => pos in s.matches ==> s.matches[pos] < |s.tables|
      case Work(_) => phase.Building? && s.tables[phase.table].done < cells(s.tables[phase.table].pos)
      case Finish(_) => phase.Building? && s.tables[phase.table].done == cells(s.tables[phase.table].pos)
      case Abort(_) => phase.Building?
      case Wake(_) => phase.Blocked?
      case Resume(_) => phase.Woken?
      case Release(_) => phase.Returned?
    }
  }

  /** The guard of the wait loop: block while the table is busy, and leave word that someone waits. */
  function Recheck(s: State, t: Thread, x: nat): State
    requires x < |s.tables|
  {
    if s.tables[x].busy then
      s.(tables := s.tables[x := s.tables[x].(waiting := true)], phases := s.phases[t := Blocked(x)])
    else
      s.(phases := s.phases[t := Returned(x)])
  }

  function Create(s: State, t: Thread, pos: Position): State {
    State(s.phases[t := Building(|s.tables|)], s.tables + [Entry(pos, true, false, 0)], s.matches[pos := |s.tables|])
  }

  /** The event is signalled to all waiting threads, whichever table they wait for. */
  function Broadcast(phases: map<Thread, Phase>): map<Thread, Phase> {
    map t | t in phases :: if phases[t].Blocked? then Woken(phases[t].table) else phases[t]
  }

  function Complete(s: State, t: Thread, x: nat): State
    requires x < |s.tables|
  {
    var phases := if s.tables[x].waiting then Broadcast(s.phases) else s.phases;
    s.(tables := s.tables[x := s.tables[x].(busy := false, waiting := false)], phases := phases[t := Returned(x)])
  }

  ghost function Step(cells: Position -> nat, s: State, a: Action): State
    requires Enabled(cells, s, a)
  {
    var phase := PhaseOf(s, a.t);
    match a {
      case Call(t, pos) =>
        if pos in s.matches && Held(s, s.matches[pos]) then Recheck(s, t, s.matches[pos]) else Create(s, t, pos)
      case Work(_) =>
        s.(tables := s.tables[phase.table := s.tables[phase.table].(done := s.tables[phase.table].done + 1)])
      case Finish(t) => Complete(s, t, phase.table)
      case Abort(t) => s.(phases := s.phases[t := Idle])
      case Wake(t) => s.(phases := s.phases[t := Woken(phase.table)])
      case Resume(t) => Recheck(s, t, phase.table)
      case Release(t) => s.(phases := s.phases[t := Idle])
    }
  }

  ghost predicate Allowed(cells: Position -> nat, s: State, run: seq<Action>)
    decreases |run|
  {
    run != [] ==> Enabled(cells, s, run[0]) && Allowed(cells, Step(cells, s, run[0]), run[1..])
  }

  ghost function After(cells: Position -> nat, s: State, run: seq<Action>): State
    requires Allowed(cells, s, run)
    decreases |run|
  {
    if run == [] then s else After(cells, Step(cells, s, run[0]), run[1..])
  }

  // ---------- what every step keeps

  /** The table in a thread's hands is the one the cache points to, and its flags fit what the thread is doing. */
  predicate ThreadOk(s: State, t: Thread) {
    var phase := PhaseOf(s, t);
    phase.Idle? || (
      && phase.table < |s.tables|
      && var entry := s.tables[phase.table];
      && entry.pos in s.matches && s.matches[entry.pos] == phase.table
      && (phase.Building? ==> entry.busy)
      && (phase.Blocked? ==> entry.busy && entry.waiting)
      && (phase.Returned? ==> !entry.busy)
    )
  }

  ghost predicate CacheOk(s: State) {
    forall pos :: pos in s.matches ==> s.matches[pos] < |s.tables| && s.tables[s.matches[pos]].pos == pos
  }

  ghost predicate OneBuilder(s: State) {
    forall t, u :: PhaseOf(s, t).Building? && PhaseOf(s, t) == PhaseOf(s, u) ==> t == u
  }

  predicate EntryOk(cells: Position -> nat, e: Entry) {
    e.done <= cells(e.pos) && (e.busy || e.done == cells(e.pos))
  }

  ghost predicate Inv(cells: Position -> nat, s: State) {
    && (forall t :: ThreadOk(s, t))
    && (forall x :: 0 <= x < |s.tables| ==> EntryOk(cells, s.tables[x]))
    && CacheOk(s) && OneBuilder(s)
  }

  lemma RecheckKeeps(cells: Position -> nat, s: State, t: Thread, x: nat)
    requires Inv(cells, s) && x < |s.tables| && s.tables[x].pos in s.matches && s.matches[s.tables[x].pos] == x
    requires PhaseOf(s, t).Idle? || PhaseOf(s, t) == Woken(x)
    ensures Inv(cells, Recheck(s, t, x))
  {
    var s' := Recheck(s, t, x);
    forall u ensures ThreadOk(s', u) {
      assert ThreadOk(s, u);
    }
    assert forall u :: u != t ==> PhaseOf(s', u) == PhaseOf(s, u);
  }

  lemma CreateKeeps(cells: Position -> nat, s: State, t: Thread, pos: Position)
    requires Inv(cells, s) && PhaseOf(s, t).Idle?
    requires pos in s.matches ==> !Held(s, s.matches[pos])
    ensures Inv(cells, Create(s, t, pos))
  {
    var s' := Create(s, t, pos);
    forall u ensures ThreadOk(s', u) && (PhaseOf(s', u) == Building(|s.tables|) ==> u == t) {
      assert ThreadOk(s, u);
      assert !PhaseOf(s, u).Idle? ==> Holds(s, u, PhaseOf(s, u).table);
    }
    assert forall u :: u != t ==> PhaseOf(s', u) == PhaseOf(s, u);
  }

  lemma CompleteKeeps(cells: Position -> nat, s: State, t: Thread, x: nat)
    requires Inv(cells, s) && PhaseOf(s, t) == Building(x) && x < |s.tables|
    requires s.tables[x].done == cells(s.tables[x].pos)
    ensures Inv(cells, Complete(s, t, x))
  {
    var s' := Complete(s, t, x);
    forall u ensures ThreadOk(s', u) && (PhaseOf(s', u).Building? ==> PhaseOf(s, u) == PhaseOf(s', u)) {
      assert ThreadOk(s, u);
      assert PhaseOf(s, u) == Building(x) ==> u == t;
    }
  }

  /** A step that only moves one thread, without giving it anything to build. */
  lemma MoveKeeps(cells: Position -> nat, s: State, t: Thread, phase: Phase)
    requires Inv(cells, s) && ThreadOk(s.(phases := s.phases[t := phase]), t) && !phase.Building?
    ensures Inv(cells, s.(phases := s.phases[t := phase]))
  {
    var s' := s.(phases := s.phases[t := phase]);
    assert forall u :: u != t ==> PhaseOf(s', u) == PhaseOf(s, u);
    forall u ensures ThreadOk(s', u) {
      assert ThreadOk(s, u);
    }
  }

  lemma WorkKeeps(cells: Position -> nat, s: State, t: Thread)
    requires Inv(cells, s) && Enabled(cells, s, Work(t))
    ensures Inv(cells, Step(cells, s, Work(t)))
  {
    var s' := Step(cells, s, Work(t));
    assert ThreadOk(s, t);
    forall u ensures ThreadOk(s', u) {
      assert ThreadOk(s, u);
    }
    assert forall u :: PhaseOf(s', u) == PhaseOf(s, u);
  }

  lemma StepKeeps(cells: Position -> nat, s: State, a: Action)
    requires Inv(cells, s) && Enabled(cells, s, a)
    ensures Inv(cells, Step(cells, s, a))
  {
    hide Recheck, Create, Complete, Inv;
    var phase := PhaseOf(s, a.t);
    assert ThreadOk(s, a.t) && CacheOk(s) by { InvFor(cells, s, a.t); }
    match a {
      case Call(t, pos) =>
        if pos in s.matches && Held(s, s.matches[pos]) {
          RecheckKeeps(cells, s, t, s.matches[pos]);
        } else {
          CreateKeeps(cells, s, t, pos);
        }
      case Work(t) => WorkKeeps(cells, s, t);
      case Finish(t) => CompleteKeeps(cells, s, t, phase.table);
      case Resume(t) => RecheckKeeps(cells, s, t, phase.table);
      case Wake(t) => MoveKeeps(cells, s, t, Woken(phase.table));
      case Abort(t) => MoveKeeps(cells, s, t, Idle);
      case Release(t) => MoveKeeps(cells, s, t, Idle);
    }
  }

  lemma InvFor(cells: Position -> nat, s: State, t: Thread)
    requires Inv(cells, s)
    ensures ThreadOk(s, t) && CacheOk(s)
    ensures !PhaseOf(s, t).Idle? ==> EntryOk(cells, s.tables[PhaseOf(s, t).table])
  {
  }

  lemma {:induction false} RunKeeps(cells: Position -> nat, s: State, run: seq<Action>)
    requires Inv(cells, s) && Allowed(cells, s, run)
    ensures Inv(cells, After(cells, s, run))
    decreases |run|
  {
    if run != [] {
      StepKeeps(cells, s, run[0]);
      RunKeeps(cells, Step(cells, s, run[0]), run[1..]);
    }
  }

  /**
   * After any run from the empty cache: one position has at most one table in use and one builder, a returned table is
   * complete and no longer busy, and a blocked thread has its table marked, so that finishing it will signal.
   */
  lemma SafeInEveryRun(cells: Position -> nat, run: seq<Action>, t: Thread, u: Thread, x: nat, y: nat)
    requires Allowed(cells, INITIAL, run)
    ensures var s := After(cells, INITIAL, run);
      && (Holds(s, t, x) && Holds(s, u, y) ==>
            x < |s.tables| && y < |s.tables| && (s.tables[x].pos == s.tables[y].pos ==> x == y))
      && (PhaseOf(s, t) == Building(x) && PhaseOf(s, u) == Building(x) ==> t == u)
      && (PhaseOf(s, t) == Returned(x) ==>
            x < |s.tables| && !s.tables[x].busy && s.tables[x].done == cells(s.tables[x].pos))
      && (PhaseOf(s, t) == Blocked(x) ==> x < |s.tables| && s.tables[x].busy && s.tables[x].waiting)
  {
    RunKeeps(cells, INITIAL, run);
    var s := After(cells, INITIAL, run);
    InvFor(cells, s, t);
    InvFor(cells, s, u);
  }

  /** A call is served by the table of the position it asked for. */
  lemma CallIsForItsPosition(cells: Position -> nat, s: State, t: Thread, pos: Position)
    requires Inv(cells, s) && Enabled(cells, s, Call(t, pos))
    ensures var s' := Step(cells, s, Call(t, pos));
      var phase := PhaseOf(s', t);
      !phase.Idle? && phase.table < |s'.tables| && s'.tables[phase.table].pos == pos
  {
  }

  /** A call builds when the position has no table in use, waits when that table is busy, and else returns it. */
  lemma CallOutcomes(cells: Position -> nat, s: State, t: Thread, pos: Position)
    requires Inv(cells, s) && Enabled(cells, s, Call(t, pos))
    ensures var s' := Step(cells, s, Call(t, pos));
      if pos !in s.matches || !Held(s, s.matches[pos]) then
        && PhaseOf(s', t) == Building(|s.tables|) && |s'.tables| == |s.tables| + 1
        && s'.tables[|s.tables|] == Entry(pos, true, false, 0)
      else if s.tables[s.matches[pos]].busy then
        PhaseOf(s', t) == Blocked(s.matches[pos]) && |s'.tables| == |s.tables| && s'.tables[s.matches[pos]].waiting
      else PhaseOf(s', t) == Returned(s.matches[pos]) && s'.tables == s.tables
  {
  }

  /** The end of a build frees its table and wakes every blocked thread if someone waits for it, and nobody else. */
  lemma FinishOutcomes(cells: Position -> nat, s: State, t: Thread, u: Thread, x: nat)
    requires Inv(cells, s) && Enabled(cells, s, Finish(t)) && PhaseOf(s, t) == Building(x) && u != t
    ensures var s' := Step(cells, s, Finish(t));
      && PhaseOf(s', t) == Returned(x) && |s'.tables| == |s.tables|
      && x < |s.tables| && s'.tables[x] == Entry(s.tables[x].pos, false, false, s.tables[x].done)
      && (forall y :: 0 <= y < |s.tables| && y != x ==> s'.tables[y] == s.tables[y])
      && (if s.tables[x].waiting && PhaseOf(s, u).Blocked? then PhaseOf(s', u) == Woken(PhaseOf(s, u).table)
          else PhaseOf(s', u) == PhaseOf(s, u))
  {
  }

  /** A thread that releases its table, or gives up building it, lets go of it: whoever else holds a table still does,
      and nothing else changes. */
  lemma LetsGo(cells: Position -> nat, s: State, a: Action, x: nat)
    requires Enabled(cells, s, a) && (a.Release? || a.Abort?)
    ensures var s' := Step(cells, s, a);
      && s'.tables == s.tables && s'.matches == s.matches && PhaseOf(s', a.t).Idle?
      && (Held(s', x) <==> exists u: Thread :: u != a.t && Holds(s, u, x))
  {
    var s' := Step(cells, s, a);
    assert forall u: Thread :: Holds(s', u, x) <==> u != a.t && Holds(s, u, x);
  }

  /** Once a call has returned a table, no step of any thread changes its cells. */
  lemma ReturnedIsFrozen(cells: Position -> nat, s: State, a: Action, t: Thread, x: nat)
    requires Inv(cells, s) && Enabled(cells, s, a) && PhaseOf(s, t) == Returned(x)
    ensures x < |s.tables| && x < |Step(cells, s, a).tables|
    ensures Step(cells, s, a).tables[x].pos == s.tables[x].pos
    ensures Step(cells, s, a).tables[x].done == s.tables[x].done
  {
    InvFor(cells, s, t);
    InvFor(cells, s, a.t);
  }

  // ---------- who can still return

  /** A busy table that nobody is building. */
  ghost predicate Orphan(s: State, x: nat) {
    x < |s.tables| && s.tables[x].busy && forall t :: PhaseOf(s, t) != Building(x)
  }

  lemma StuckAfterStep(cells: Position -> nat, s: State, a: Action, t: Thread, x: nat)
    requires Enabled(cells, s, a) && Orphan(s, x) && Waits(s, t, x)
    ensures Orphan(Step(cells, s, a), x) && Waits(Step(cells, s, a), t, x)
  {
    var s' := Step(cells, s, a);
    assert forall u :: u != a.t && PhaseOf(s', u).Building? ==> PhaseOf(s', u) == PhaseOf(s, u);
  }

  lemma {:induction false} StuckForEver(cells: Position -> nat, s: State, run: seq<Action>, t: Thread, x: nat)
    requires Allowed(cells, s, run) && Orphan(s, x) && Waits(s, t, x)
    ensures Waits(After(cells, s, run), t, x)
    decreases |run|
  {
    if run != [] {
      StuckAfterStep(cells, s, run[0], t, x);
      StuckForEver(cells, Step(cells, s, run[0]), run[1..], t, x);
    }
  }

  ghost predicate Returns(cells: Position -> nat, s: State, run: seq<Action>, t: Thread, x: nat) {
    Allowed(cells, s, run) && PhaseOf(After(cells, s, run), t) == Returned(x)
  }

  lemma Prepend(cells: Position -> nat, s: State, a: Action, run: seq<Action>, t: Thread, x: nat)
    requires Enabled(cells, s, a) && Returns(cells, Step(cells, s, a), run, t, x)
    ensures Returns(cells, s, [a] + run, t, x)
  {
    hide Step, Enabled;
    assert ([a] + run)[1..] == run;
  }

  lemma ResumeReturns(cells: Position -> nat, s: State, t: Thread, x: nat) returns (run: seq<Action>)
    requires PhaseOf(s, t) == Woken(x) && x < |s.tables| && !s.tables[x].busy
    ensures Returns(cells, s, run, t, x)
  {
    var s' := Step(cells, s, Resume(t));
    assert Returns(cells, s', [], t, x);
    Prepend(cells, s, Resume(t), [], t, x);
    run := [Resume(t)] + [];
  }

  /** A builder that goes on working lets every thread that waits for its table return. */
  lemma {:induction false} BuilderFreesWaiter(cells: Position -> nat, s: State, u: Thread, t: Thread, x: nat)
    returns (run: seq<Action>)
    requires Inv(cells, s) && PhaseOf(s, u) == Building(x) && Waits(s, t, x)
    ensures Returns(cells, s, run, t, x)
    decreases if x < |s.tables| then cells(s.tables[x].pos) - s.tables[x].done else 0
  {
    InvFor(cells, s, u);
    InvFor(cells, s, t);
    var a := if s.tables[x].done < cells(s.tables[x].pos) then Work(u) else Finish(u);
    var s' := Step(cells, s, a);
    StepKeeps(cells, s, a);
    var rest;
    if a.Work? {
      rest := BuilderFreesWaiter(cells, s', u, t, x);
    } else {
      rest := ResumeReturns(cells, s', t, x);
    }
    Prepend(cells, s, a, rest, t, x);
    run := [a] + rest;
  }

  /** A waiting thread can still return if and only if its table has not been orphaned. */
  lemma CanReturnIffNotOrphan(cells: Position -> nat, s: State, t: Thread, x: nat)
    requires Inv(cells, s) && Waits(s, t, x)
    ensures (exists run :: Returns(cells, s, run, t, x)) <==> !Orphan(s, x)
  {
    InvFor(cells, s, t);
    if Orphan(s, x) {
      forall run | Returns(cells, s, run, t, x) ensures false {
        StuckForEver(cells, s, run, t, x);
      }
    } else if s.tables[x].busy {
      var u :| PhaseOf(s, u) == Building(x);
      var run := BuilderFreesWaiter(cells, s, u, t, x);
    } else {
      var run := ResumeReturns(cells, s, t, x);
    }
  }

  ghost predicate AbortFree(run: seq<Action>) {
    forall i :: 0 <= i < |run| ==> !run[i].Abort?
  }

  ghost predicate NoOrphans(s: State) {
    forall x: nat :: !Orphan(s, x)
  }

  lemma StepMakesNoOrphan(cells: Position -> nat, s: State, a: Action)
    requires Enabled(cells, s, a) && !a.Abort? && NoOrphans(s)
    ensures NoOrphans(Step(cells, s, a))
  {
    var s' := Step(cells, s, a);
    forall x: nat ensures !Orphan(s', x) {
      if x < |s.tables| <= |s'.tables| && s'.tables[x].busy {
        assert !Orphan(s, x);
        var u :| PhaseOf(s, u) == Building(x);
        assert PhaseOf(s', u) == Building(x);
      } else if x == |s.tables| < |s'.tables| {
        assert PhaseOf(s', a.t) == Building(x);
      }
    }
  }

  lemma {:induction false} RunMakesNoOrphan(cells: Position -> nat, s: State, run: seq<Action>)
    requires Allowed(cells, s, run) && AbortFree(run) && NoOrphans(s)
    ensures NoOrphans(After(cells, s, run))
    decreases |run|
  {
    if run != [] {
      StepMakesNoOrphan(cells, s, run[0]);
      RunMakesNoOrphan(cells, Step(cells, s, run[0]), run[1..]);
    }
  }

  /** As long as no build fails, nobody waits in vain. */
  lemma NobodyIsStranded(cells: Position -> nat, run: seq<Action>, t: Thread, x: nat)
    requires Allowed(cells, INITIAL, run) && AbortFree(run)
    ensures var s := After(cells, INITIAL, run);
      Waits(s, t, x) ==> exists more :: Returns(cells, s, more, t, x)
  {
    var s := After(cells, INITIAL, run);
    RunKeeps(cells, INITIAL, run);
    RunMakesNoOrphan(cells, INITIAL, run);
    if Waits(s, t, x) {
      CanReturnIffNotOrphan(cells, s, t, x);
    }
  }

  /** One failed build is enough to strand a thread that waits for it. */
  lemma AbortStrands(cells: Position -> nat)
    ensures var run := [Call(0, 7), Call(1, 7), Abort(0)];
      Allowed(cells, INITIAL, run) && Waits(After(cells, INITIAL, run), 1, 0) && Orphan(After(cells, INITIAL, run), 0)
  {
    var s1 := Step(cells, INITIAL, Call(0, 7));
    assert Holds(s1, 0, 0);
    var s2 := Step(cells, s1, Call(1, 7));
    var s3 := Step(cells, s2, Abort(0));
    assert Allowed(cells, s3, []);
    assert [Call(1, 7), Abort(0)][1..] == [Abort(0)];
    assert Allowed(cells, s2, [Abort(0)]) && After(cells, s2, [Abort(0)]) == s3;
    assert Allowed(cells, s1, [Call(1, 7), Abort(0)]) && After(cells, s1, [Call(1, 7), Abort(0)]) == s3;
    assert [Call(0, 7), Call(1, 7), Abort(0)][1..] == [Call(1, 7), Abort(0)];
    assert forall t :: PhaseOf(s3, t) != Building(0);
  }
}
