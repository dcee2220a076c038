/** runTasks: any number of worker threads that share one list of tasks, one lock and one
    `terminate` flag. A worker's program counter names the statement it executes next; any
    interleaving of single statements is allowed, and an interrupt can arrive at any moment. */
module TaskPool {

  type Task = nat

  import opened Wrappers

  /** How a build ends: with an exit code, or with an exception. */
  datatype Outcome = Code(code: int) | Exception

  /** What a worker does next. `taken` is the task it took, if the list had one. */
  datatype Pc =
    | AtCheck                                // looks whether the pool is to stop
    | AtAcquire                              // waits for the lock
    | AtCount                                // asks how many tasks are listed
    | AtTake(left: nat)                      // reads the first task, if it counted any
    | AtDelete(task: Task)                   // drops the task it read from the list
    | AtRelease(taken: Option<Task>)         // gives the lock back
    | AtTest(taken: Option<Task>)            // leaves if it came away without a task
    | AtBuild(task: Task)                    // runs the build to its end
    | AtExcept                               // passes an exception on, stopping the pool
    | AtReport(code: int)                    // stops the pool if the build failed
    | Ended                                  // can be joined

  datatype State = State(
    tasks: seq<Task>,
    lock: Option<nat>,
    terminate: bool,
    workers: seq<Pc>,
    taken: seq<Task>,                        // deleted from the list, in this order
    built: seq<(Task, Outcome)>,             // builds that have ended
    interrupted: bool)

  datatype Event = Work(worker: nat, outcome: Outcome) | Interrupt

  function Init(tasks: seq<Task>, threads: nat): State {
    State(tasks, None, false, seq(threads, _ => AtCheck), [], [], false)
  }

  predicate Enabled(s: State, e: Event) {
    match e
    case Interrupt => true
    case Work(w, _) => w < |s.workers| && s.workers[w] != Ended && (s.workers[w] == AtAcquire ==> s.lock == None)
  }

  /** Where a worker stands after its next statement. A worker that found the list empty where the script
      indexes tasks[0] just goes on; LockExcludes shows none ever does. */
  function NextPc(s: State, pc: Pc, outcome: Outcome): Pc {
    match pc
    case AtCheck => if s.terminate then Ended else AtAcquire
    case AtAcquire => AtCount
    case AtCount => AtTake(|s.tasks|)
    case AtTake(left) => if left > 0 && s.tasks != [] then AtDelete(s.tasks[0]) else AtRelease(None)
    case AtDelete(task) => if s.tasks == [] then pc else AtRelease(Some(task))
    case AtRelease(taken) => AtTest(taken)
    case AtTest(taken) => if taken == None then Ended else AtBuild(taken.value)
    case AtBuild(_) => if outcome.Code? then AtReport(outcome.code) else AtExcept
    case AtExcept => Ended
    case AtReport(_) => AtCheck
    case Ended => Ended
  }

  /** What that statement does to everything but the worker's own counter. */
  function Shared(s: State, w: nat, outcome: Outcome): State
    requires w < |s.workers|
  {
    match s.workers[w]
    case AtAcquire => s.(lock := Some(w))
    case AtDelete(_) => if s.tasks == [] then s else s.(tasks := s.tasks[1..], taken := s.taken + [s.tasks[0]])
    case AtRelease(_) => s.(lock := None)
    case AtBuild(task) => s.(built := s.built + [(task, outcome)])
    case AtExcept => s.(terminate := true)
    case AtReport(code) => s.(terminate := s.terminate || code != 0)
    case _ => s
  }

  /** One statement of one worker, or the arrival of an interrupt. */
  function Next(s: State, e: Event): State
    requires Enabled(s, e)
  {
    match e
    case Interrupt => s.(terminate := true, interrupted := true)
    case Work(w, outcome) => Shared(s, w, outcome).(workers := s.workers[w := NextPc(s, s.workers[w], outcome)])
  }

  // ----- The invariant -----

  predicate HoldsLock(pc: Pc) {
    pc.AtCount? || pc.AtTake? || pc.AtDelete? || pc.AtRelease?
  }

  /** The task that a worker has deleted from the list and not yet finished building. */
  function Held(pc: Pc): multiset<Task> {
    match pc
    case AtRelease(Some(t)) => multiset{t}
    case AtTest(Some(t)) => multiset{t}
    case AtBuild(t) => multiset{t}
    case _ => multiset{}
  }

  function InFlight(workers: seq<Pc>): multiset<Task> {
    if workers == [] then multiset{} else Held(workers[0]) + InFlight(workers[1..])
  }

  function Finished(built: seq<(Task, Outcome)>): multiset<Task> {
    if built == [] then multiset{} else multiset{built[0].0} + Finished(built[1..])
  }

  predicate GoingToTerminate(pc: Pc) {
    pc == AtExcept || (pc.AtReport? && pc.code != 0)
  }

  predicate Failed(o: Outcome) {
    o != Code(0)
  }

  /** Only the worker that holds the lock is between acquire and release, and what it has read from
      the list is still true. */
  ghost predicate LockSafe(s: State) {
    && (s.lock.Some? ==> s.lock.value < |s.workers|)
    && forall w {:trigger s.workers[w]} :: 0 <= w < |s.workers| ==> SafeAt(s, w)
  }

  ghost predicate SafeAt(s: State, w: nat)
    requires w < |s.workers|
  {
    && (HoldsLock(s.workers[w]) <==> s.lock == Some(w))
    && (s.workers[w].AtTake? ==> s.workers[w].left == |s.tasks|)
    && (s.workers[w].AtDelete? ==> s.tasks != [] && s.workers[w].task == s.tasks[0])
  }

  /** No task is lost or duplicated: the list shrinks only from its front, and every task taken is
      with one worker or has been built. */
  ghost predicate Conserved(s: State, initial: seq<Task>) {
    && s.taken + s.tasks == initial
    && multiset(s.taken) == InFlight(s.workers) + Finished(s.built)
  }

  /** A worker leaves the loop, or is about to, only if the list is empty or the build is over. */
  ghost predicate LeavesForAReason(s: State) {
    forall w :: 0 <= w < |s.workers|
      && (s.workers[w] == Ended || s.workers[w] == AtTest(None) || s.workers[w] == AtRelease(None))
      ==> s.terminate || s.tasks == []
  }

  ghost predicate AnyFailed(built: seq<(Task, Outcome)>) {
    exists i :: 0 <= i < |built| && Failed(built[i].1)
  }

  ghost predicate AnyGoingToTerminate(workers: seq<Pc>) {
    exists w :: 0 <= w < |workers| && GoingToTerminate(workers[w])
  }

  /** `terminate` is set, or about to be set, exactly if something went wrong. */
  ghost predicate FailureIsKnown(s: State) {
    && (AnyFailed(s.built) ==> s.terminate || AnyGoingToTerminate(s.workers))
    && (AnyGoingToTerminate(s.workers) ==> AnyFailed(s.built))
    && (s.terminate ==> s.interrupted || AnyFailed(s.built))
    && (s.interrupted ==> s.terminate)
  }

  ghost predicate Inv(s: State, initial: seq<Task>) {
    LockSafe(s) && Conserved(s, initial) && LeavesForAReason(s) && FailureIsKnown(s)
  }

  lemma {:induction false} InFlightUpdates(workers: seq<Pc>, w: nat, pc: Pc)
    requires w < |workers|
    ensures InFlight(workers[w := pc]) + Held(workers[w]) == InFlight(workers) + Held(pc)
  {
    if w == 0 {
      assert workers[w := pc][1..] == workers[1..];
    } else {
      assert workers[w := pc][1..] == workers[1..][w - 1 := pc];
      InFlightUpdates(workers[1..], w - 1, pc);
      AddToBoth(Held(workers[0]), InFlight(workers[1..][w - 1 := pc]), Held(workers[w]), InFlight(workers[1..]), Held(pc));
    }
  }

  lemma AddToBoth(a: multiset<Task>, x: multiset<Task>, h: multiset<Task>, y: multiset<Task>, p: multiset<Task>)
    requires x + h == y + p
    ensures (a + x) + h == (a + y) + p
  {
    assert (a + x) + h == a + (x + h);
  }

  lemma {:induction false} FinishedAppends(built: seq<(Task, Outcome)>, b: (Task, Outcome))
    ensures Finished(built + [b]) == Finished(built) + multiset{b.0}
  {
    if built == [] {
      assert built + [b] == [b];
    } else {
      assert (built + [b])[1..] == built[1..] + [b];
      FinishedAppends(built[1..], b);
    }
  }

  lemma {:induction false} NothingInFlight(workers: seq<Pc>)
    requires forall w :: 0 <= w < |workers| ==> Held(workers[w]) == multiset{}
    ensures InFlight(workers) == multiset{}
  {
    if workers != [] {
      assert forall w :: 0 <= w < |workers[1..]| ==> workers[1..][w] == workers[w + 1];
      NothingInFlight(workers[1..]);
    }
  }

  lemma {:induction false} InitHolds(tasks: seq<Task>, threads: nat)
    ensures Inv(Init(tasks, threads), tasks)
  {
    var s := Init(tasks, threads);
    NothingInFlight(s.workers);
    assert s.taken + s.tasks == tasks;
    forall w: nat | w < |s.workers| ensures SafeAt(s, w) {
      assert s.workers[w] == AtCheck;
    }
  }

  lemma {:induction false} LockStaysSafe(s: State, e: Event)
    requires Enabled(s, e) && LockSafe(s)
    ensures LockSafe(Next(s, e))
  {
    WorkersStay(s, e);
    hide Next;
    forall v | 0 <= v < |Next(s, e).workers| ensures SafeAt(Next(s, e), v) {
      if e.Work? && v != e.worker {
        OthersStaySafe(s, e, v);
      } else {
        WorkerStaysSafe(s, e, v);
      }
    }
  }

  lemma WorkersStay(s: State, e: Event)
    requires Enabled(s, e)
    ensures |Next(s, e).workers| == |s.workers|
    ensures e.Interrupt? ==> Next(s, e).workers == s.workers
    ensures LockSafe(s) && Next(s, e).lock.Some? ==> Next(s, e).lock.value < |s.workers|
  {
  }

  lemma WorkerStaysSafe(s: State, e: Event, v: nat)
    requires Enabled(s, e) && LockSafe(s) && v < |s.workers| == |Next(s, e).workers|
    requires e.Work? ==> v == e.worker
    ensures SafeAt(Next(s, e), v)
  {
    assert SafeAt(s, v);
  }

  lemma OthersStaySafe(s: State, e: Event, v: nat)
    requires Enabled(s, e) && LockSafe(s) && v < |s.workers| == |Next(s, e).workers|
    requires e.Work? && v != e.worker
    ensures SafeAt(Next(s, e), v)
  {
    assert SafeAt(s, v) && SafeAt(s, e.worker);
  }

  lemma {:induction false} StaysConserved(s: State, e: Event, initial: seq<Task>)
    requires Enabled(s, e) && LockSafe(s) && Conserved(s, initial)
    ensures Conserved(Next(s, e), initial)
  {
    if e.Work? {
      var pc := s.workers[e.worker];
      if pc.AtDelete? {
        TakingConserves(s, e, initial);
      } else if pc.AtBuild? {
        BuildingConserves(s, e, initial);
      } else {
        OtherStepsConserve(s, e, initial);
      }
    }
  }

  lemma TakingConserves(s: State, e: Event, initial: seq<Task>)
    requires Enabled(s, e) && LockSafe(s) && Conserved(s, initial) && e.Work? && s.workers[e.worker].AtDelete?
    ensures Conserved(Next(s, e), initial)
  {
    var t, pc := Next(s, e), s.workers[e.worker];
    FrontIsTaken(s, e);
    InFlightUpdates(s.workers, e.worker, t.workers[e.worker]);
    TakeBalances(multiset(s.taken), InFlight(s.workers), InFlight(t.workers), Finished(s.built), pc.task);
    hide InFlight, Finished;
  }

  lemma BuildingConserves(s: State, e: Event, initial: seq<Task>)
    requires Enabled(s, e) && Conserved(s, initial) && e.Work? && s.workers[e.worker].AtBuild?
    ensures Conserved(Next(s, e), initial)
  {
    var t, pc := Next(s, e), s.workers[e.worker];
    assert t.taken == s.taken && t.tasks == s.tasks && t.built == s.built + [(pc.task, e.outcome)];
    InFlightUpdates(s.workers, e.worker, NextPc(s, pc, e.outcome));
    assert Held(NextPc(s, pc, e.outcome)) == multiset{};
    FinishedAppends(s.built, (pc.task, e.outcome));
    BuildBalances(multiset(s.taken), InFlight(s.workers), InFlight(t.workers), Finished(s.built), pc.task);
    hide InFlight, Finished, NextPc, Shared;
  }

  lemma OtherPcsHoldTheSame(s: State, pc: Pc, outcome: Outcome)
    requires !pc.AtDelete? && !pc.AtBuild?
    ensures Held(NextPc(s, pc, outcome)) == Held(pc)
  {
  }

  lemma OtherStepsConserve(s: State, e: Event, initial: seq<Task>)
    requires Enabled(s, e) && Conserved(s, initial) && e.Work?
    requires !s.workers[e.worker].AtDelete? && !s.workers[e.worker].AtBuild?
    ensures Conserved(Next(s, e), initial)
  {
    var t, pc := Next(s, e), s.workers[e.worker];
    assert t.taken == s.taken && t.tasks == s.tasks && t.built == s.built;
    OtherPcsHoldTheSame(s, pc, e.outcome);
    InFlightUpdates(s.workers, e.worker, NextPc(s, pc, e.outcome));
    hide InFlight, Finished, Held, NextPc, Shared;
    StayBalances(InFlight(s.workers), InFlight(t.workers), Held(pc));
  }

  lemma FrontIsTaken(s: State, e: Event)
    requires Enabled(s, e) && LockSafe(s) && e.Work? && s.workers[e.worker].AtDelete?
    ensures var t := Next(s, e);
            t.taken + t.tasks == s.taken + s.tasks && multiset(t.taken) == multiset(s.taken) + multiset{s.workers[e.worker].task}
  {
    assert s.tasks == [s.tasks[0]] + s.tasks[1..];
  }

  lemma TakeBalances(m: multiset<Task>, f: multiset<Task>, f': multiset<Task>, b: multiset<Task>, x: Task)
    requires m == f + b && f' + multiset{} == f + multiset{x}
    ensures m + multiset{x} == f' + b
  {
    forall t ensures (m + multiset{x})[t] == (f' + b)[t] {
      assert (f' + multiset{})[t] == (f + multiset{x})[t];
    }
  }

  lemma BuildBalances(m: multiset<Task>, f: multiset<Task>, f': multiset<Task>, b: multiset<Task>, x: Task)
    requires m == f + b && f' + multiset{x} == f + multiset{}
    ensures m == f' + (b + multiset{x})
  {
    forall t ensures m[t] == (f' + (b + multiset{x}))[t] {
      assert (f' + multiset{x})[t] == (f + multiset{})[t];
    }
  }

  lemma StayBalances(f: multiset<Task>, f': multiset<Task>, h: multiset<Task>)
    requires f' + h == f + h
    ensures f' == f
  {
    forall t ensures f'[t] == f[t] {
      assert (f' + h)[t] == (f + h)[t];
    }
  }

  lemma {:induction false} StillLeavesForAReason(s: State, e: Event)
    requires Enabled(s, e) && LockSafe(s) && LeavesForAReason(s)
    ensures LeavesForAReason(Next(s, e))
  {
  }

  lemma AnyFailedAppends(built: seq<(Task, Outcome)>, b: (Task, Outcome))
    ensures AnyFailed(built + [b]) <==> AnyFailed(built) || Failed(b.1)
  {
    var longer := built + [b];
    if Failed(b.1) {
      assert longer[|built|] == b;
    } else if i :| 0 <= i < |built| && Failed(built[i].1) {
      assert longer[i] == built[i];
    }
  }

  lemma AnyGoingUpdates(workers: seq<Pc>, w: nat, pc: Pc)
    requires w < |workers|
    ensures AnyGoingToTerminate(workers[w := pc]) ==> AnyGoingToTerminate(workers) || GoingToTerminate(pc)
    ensures AnyGoingToTerminate(workers) ==> AnyGoingToTerminate(workers[w := pc]) || GoingToTerminate(workers[w])
    ensures GoingToTerminate(pc) ==> AnyGoingToTerminate(workers[w := pc])
    ensures GoingToTerminate(workers[w]) ==> AnyGoingToTerminate(workers)
  {
    var after := workers[w := pc];
    if v :| 0 <= v < |workers| && GoingToTerminate(workers[v]) {
      assert v != w ==> GoingToTerminate(after[v]);
    }
    if v :| 0 <= v < |workers| && GoingToTerminate(after[v]) {
      assert v != w ==> GoingToTerminate(workers[v]);
    }
    assert GoingToTerminate(pc) ==> GoingToTerminate(after[w]);
  }

  lemma {:induction false} FailureStaysKnown(s: State, e: Event)
    requires Enabled(s, e) && FailureIsKnown(s)
    ensures FailureIsKnown(Next(s, e))
  {
    if e.Work? {
      var t, pc := Next(s, e), s.workers[e.worker];
      AnyGoingUpdates(s.workers, e.worker, t.workers[e.worker]);
      if pc.AtBuild? {
        AnyFailedAppends(s.built, (pc.task, e.outcome));
      }
      hide AnyFailed, AnyGoingToTerminate;
    }
  }

  // ----- Whole runs -----

  /** The states that a sequence of events leads through, in any interleaving. */
  ghost predicate Possible(s: State, events: seq<Event>)
    decreases |events|
  {
    events == [] || (Enabled(s, events[0]) && Possible(Next(s, events[0]), events[1..]))
  }

  ghost function After(s: State, events: seq<Event>): State
    requires Possible(s, events)
    decreases |events|
  {
    if events == [] then s else After(Next(s, events[0]), events[1..])
  }

  lemma {:induction false} InvStays(s: State, e: Event, initial: seq<Task>)
    requires Enabled(s, e) && Inv(s, initial)
    ensures Inv(Next(s, e), initial)
  {
    LockStaysSafe(s, e);
    StaysConserved(s, e, initial);
    StillLeavesForAReason(s, e);
    FailureStaysKnown(s, e);
  }

  lemma {:induction false} InvAlways(s: State, events: seq<Event>, initial: seq<Task>)
    requires Inv(s, initial) && Possible(s, events)
    ensures Inv(After(s, events), initial)
    decreases |events|
  {
    if events != [] {
      InvStays(s, events[0], initial);
      InvAlways(Next(s, events[0]), events[1..], initial);
    }
  }

  ghost predicate AllJoined(s: State) {
    forall w :: 0 <= w < |s.workers| ==> s.workers[w] == Ended
  }

  /** Nothing is ever lost or built twice: at every moment of every run the tasks built, in flight
      and still listed are the initial ones, and tasks leave the list in its order. */
  lemma {:induction false} NoTaskIsLostOrRepeated(tasks: seq<Task>, threads: nat, events: seq<Event>)
    requires Possible(Init(tasks, threads), events)
    ensures var s := After(Init(tasks, threads), events);
            && s.taken + s.tasks == tasks
            && Finished(s.built) + InFlight(s.workers) + multiset(s.tasks) == multiset(tasks)
  {
    InitHolds(tasks, threads);
    InvAlways(Init(tasks, threads), events, tasks);
    var s := After(Init(tasks, threads), events);
    assert multiset(s.taken + s.tasks) == multiset(s.taken) + multiset(s.tasks);
  }

  /** The lock does its work: two workers are never between acquire and release together, and
      tasks[0] is read and deleted only when it is there and unchanged. */
  lemma {:induction false} LockExcludes(tasks: seq<Task>, threads: nat, events: seq<Event>)
    requires Possible(Init(tasks, threads), events)
    ensures var s := After(Init(tasks, threads), events);
            && (forall v, w :: 0 <= v < w < |s.workers| ==> !(HoldsLock(s.workers[v]) && HoldsLock(s.workers[w])))
            && (forall w :: 0 <= w < |s.workers| && s.workers[w].AtTake? && s.workers[w].left > 0 ==> s.tasks != [])
            && (forall w :: 0 <= w < |s.workers| && s.workers[w].AtDelete? ==> s.tasks != [] && s.tasks[0] == s.workers[w].task)
  {
    InitHolds(tasks, threads);
    InvAlways(Init(tasks, threads), events, tasks);
  }

  lemma {:induction false} JoinedState(s: State, initial: seq<Task>)
    requires Inv(s, initial) && AllJoined(s) && s.workers != []
    ensures !s.terminate <==>
              && !s.interrupted
              && Finished(s.built) == multiset(initial)
              && forall i :: 0 <= i < |s.built| ==> s.built[i].1 == Code(0)
  {
    NothingInFlight(s.workers);
    if !s.terminate {
      assert s.workers[0] == Ended;
      assert s.taken + s.tasks == s.taken;
      forall i | 0 <= i < |s.built| ensures s.built[i].1 == Code(0) {
        assert Failed(s.built[i].1) ==> AnyFailed(s.built);
      }
    }
  }

  /** The exit status tells the truth: once every thread has been joined, `terminate` is still false
      exactly if no interrupt came and every task was built, once, with exit code 0. */
  lemma {:induction false} CleanExitMeansAllBuilt(tasks: seq<Task>, threads: nat, events: seq<Event>)
    requires threads >= 1 && Possible(Init(tasks, threads), events)
    requires AllJoined(After(Init(tasks, threads), events))
    ensures var s := After(Init(tasks, threads), events);
            !s.terminate <==>
              && !s.interrupted
              && Finished(s.built) == multiset(tasks)
              && forall i :: 0 <= i < |s.built| ==> s.built[i].1 == Code(0)
  {
    InitHolds(tasks, threads);
    InvAlways(Init(tasks, threads), events, tasks);
    ThreadsStay(Init(tasks, threads), events);
    JoinedState(After(Init(tasks, threads), events), tasks);
  }

  lemma {:induction false} ThreadsStay(s: State, events: seq<Event>)
    requires Possible(s, events)
    ensures |After(s, events).workers| == |s.workers|
    decreases |events|
  {
    if events != [] {
      ThreadsStay(Next(s, events[0]), events[1..]);
    }
  }

  lemma {:induction false} RunGrows(s: State, events: seq<Event>, e: Event)
    requires Possible(s, events) && Enabled(After(s, events), e)
    ensures Possible(s, events + [e]) && After(s, events + [e]) == Next(After(s, events), e)
    decreases |events|
  {
    hide Next, Enabled;
    if events == [] {
      assert events + [e] == [e];
      assert [e][1..] == [];
    } else {
      assert (events + [e])[1..] == events[1..] + [e];
      RunGrows(Next(s, events[0]), events[1..], e);
    }
  }

  // ----- What `terminate` stops -----

  /** Past the check and not yet with a task of its own. */
  predicate MayTake(pc: Pc) {
    pc == AtAcquire || pc.AtCount? || pc.AtTake? || pc.AtDelete?
  }

  /** With a task of its own that is not built yet. */
  predicate MayBuild(pc: Pc) {
    pc.AtBuild? || (pc.AtRelease? && pc.taken.Some?) || (pc.AtTest? && pc.taken.Some?)
  }

  /** How many tasks worker w takes along a run, and how many builds it ends. */
  ghost function TakenBy(s: State, events: seq<Event>, w: nat): nat
    requires Possible(s, events)
    decreases |events|
  {
    if events == [] then 0
    else
      var next := Next(s, events[0]);
      (if events[0].Work? && events[0].worker == w && next.taken != s.taken then 1 else 0) + TakenBy(next, events[1..], w)
  }

  ghost function BuiltBy(s: State, events: seq<Event>, w: nat): nat
    requires Possible(s, events)
    decreases |events|
  {
    if events == [] then 0
    else
      var next := Next(s, events[0]);
      (if events[0].Work? && events[0].worker == w && next.built != s.built then 1 else 0) + BuiltBy(next, events[1..], w)
  }

  function AsOne(b: bool): nat {
    if b then 1 else 0
  }

  lemma StopStep(s: State, e: Event, w: nat)
    requires Enabled(s, e) && s.terminate && w < |s.workers|
    ensures Next(s, e).terminate && |Next(s, e).workers| == |s.workers|
    ensures var (own, before, after) := (e.Work? && e.worker == w, s.workers[w], Next(s, e).workers[w]);
            && AsOne(own && Next(s, e).taken != s.taken) + AsOne(MayTake(after)) <= AsOne(MayTake(before))
            && AsOne(own && Next(s, e).built != s.built) + AsOne(MayTake(after) || MayBuild(after))
               <= AsOne(MayTake(before) || MayBuild(before))
  {
  }

  /** Once `terminate` is set, a worker takes at most one more task and ends at most one more build, and none if it
      stands at the check. */
  lemma {:induction false} TerminateStops(s: State, events: seq<Event>, w: nat)
    requires Possible(s, events) && s.terminate && w < |s.workers|
    ensures TakenBy(s, events, w) <= AsOne(MayTake(s.workers[w]))
    ensures BuiltBy(s, events, w) <= AsOne(MayTake(s.workers[w]) || MayBuild(s.workers[w]))
    ensures s.workers[w] == AtCheck || s.workers[w] == Ended ==> TakenBy(s, events, w) == BuiltBy(s, events, w) == 0
    decreases |events|
  {
    if events != [] {
      StopStep(s, events[0], w);
      hide Next, MayTake, MayBuild;
      TerminateStops(Next(s, events[0]), events[1..], w);
    }
  }

  ghost predicate AllAtCheck(s: State) {
    forall w :: 0 <= w < |s.workers| ==> s.workers[w] == AtCheck || s.workers[w] == Ended
  }

  lemma StoppedStep(s: State, e: Event)
    requires Enabled(s, e) && s.terminate && AllAtCheck(s)
    ensures var t := Next(s, e); t.terminate && AllAtCheck(t) && t.tasks == s.tasks && t.taken == s.taken && t.built == s.built
  {
  }

  /** With `terminate` set and every worker at the check or ended, nothing more is taken or built. */
  lemma {:induction false} NothingAfterStop(s: State, events: seq<Event>)
    requires Possible(s, events) && s.terminate && AllAtCheck(s)
    ensures var t := After(s, events); t.tasks == s.tasks && t.taken == s.taken && t.built == s.built
    decreases |events|
  {
    if events != [] {
      StoppedStep(s, events[0]);
      hide Next;
      NothingAfterStop(Next(s, events[0]), events[1..]);
    }
  }

  // ----- One thread -----

  function HeldInOrder(pc: Pc): seq<Task> {
    match pc
    case AtRelease(Some(t)) => [t]
    case AtTest(Some(t)) => [t]
    case AtBuild(t) => [t]
    case _ => []
  }

  function TasksOf(built: seq<(Task, Outcome)>): seq<Task> {
    seq(|built|, i requires 0 <= i < |built| => built[i].0)
  }

  predicate OnlyLastFails(built: seq<(Task, Outcome)>) {
    forall i :: 0 <= i < |built| - 1 ==> built[i].1 == Code(0)
  }

  /** A single worker builds what it takes in order, and after a failed build only goes to its end. */
  ghost predicate OneThread(s: State) {
    && |s.workers| == 1 && s.taken == TasksOf(s.built) + HeldInOrder(s.workers[0]) && OnlyLastFails(s.built)
    && (s.built != [] && s.built[|s.built| - 1].1 != Code(0) ==>
          var pc := s.workers[0];
          pc == AtExcept || (pc.AtReport? && pc.code != 0) || (s.terminate && (pc == AtCheck || pc == Ended)))
  }

  lemma OrderStep(s: State, e: Event)
    requires Enabled(s, e) && LockSafe(s) && e.Work? && |s.workers| == 1
    requires s.taken == TasksOf(s.built) + HeldInOrder(s.workers[0])
    ensures var t := Next(s, e); t.taken == TasksOf(t.built) + HeldInOrder(t.workers[0])
  {
    var t := Next(s, e);
    assert SafeAt(s, 0);
    match s.workers[0] {
      case AtBuild(task) =>
        assert TasksOf(t.built) == TasksOf(s.built) + [task];
      case AtDelete(task) =>
        assert t.taken == TasksOf(s.built) + [task];
      case _ =>
    }
  }

  lemma OneThreadStep(s: State, e: Event)
    requires Enabled(s, e) && LockSafe(s) && OneThread(s)
    ensures OneThread(Next(s, e))
  {
    if e.Work? {
      OrderStep(s, e);
    }
    hide TasksOf, HeldInOrder, LockSafe;
  }

  lemma {:induction false} OneThreadAlways(s: State, events: seq<Event>, initial: seq<Task>)
    requires Inv(s, initial) && OneThread(s) && Possible(s, events)
    ensures OneThread(After(s, events))
    decreases |events|
  {
    if events != [] {
      OneThreadStep(s, events[0]);
      InvStays(s, events[0], initial);
      hide Next, Inv, OneThread;
      OneThreadAlways(Next(s, events[0]), events[1..], initial);
    }
  }

  /** What one thread leaves behind: a stretch of the list from its front, built in order, no build but the last one
      failed, and without an interrupt all of the list unless the last one did. */
  ghost predicate BuiltUpToFailure(initial: seq<Task>, built: seq<(Task, Outcome)>, interrupted: bool) {
    && |built| <= |initial| && (forall i :: 0 <= i < |built| ==> built[i].0 == initial[i])
    && (forall i :: 0 <= i < |built| - 1 ==> built[i].1 == Code(0))
    && (!interrupted ==> |built| == |initial| || (built != [] && built[|built| - 1].1 != Code(0)))
  }

  lemma OneThreadJoined(s: State, initial: seq<Task>)
    requires Inv(s, initial) && OneThread(s) && AllJoined(s)
    ensures BuiltUpToFailure(initial, s.built, s.interrupted)
  {
    assert s.workers[0] == Ended && s.taken == TasksOf(s.built);
    assert forall i :: 0 <= i < |s.built| ==> s.built[i].0 == s.taken[i] == initial[i];
    if !s.interrupted && s.terminate {
      var i :| 0 <= i < |s.built| && Failed(s.built[i].1);
      assert i == |s.built| - 1;
    }
  }

  /** One thread stops at the first failed build: with [7, 8] and a failing 7, task 8 is never built. */
  lemma {:induction false} OneThreadStopsAtFailure(tasks: seq<Task>, events: seq<Event>)
    requires Possible(Init(tasks, 1), events)
    ensures var s := After(Init(tasks, 1), events);
            OnlyLastFails(s.built) && (AllJoined(s) ==> BuiltUpToFailure(tasks, s.built, s.interrupted))
  {
    var s := Init(tasks, 1);
    InitHolds(tasks, 1);
    assert OneThread(s);
    InvAlways(s, events, tasks);
    OneThreadAlways(s, events, tasks);
    hide Inv, Init;
    if AllJoined(After(s, events)) {
      OneThreadJoined(After(s, events), tasks);
    }
  }

  // ----- Every run ends -----

  /** How many statements a worker can still execute without taking another task. */
  function Steps(pc: Pc): nat {
    match pc
    case AtCheck => 6
    case AtAcquire => 5
    case AtCount => 4
    case AtTake(_) => 3
    case AtDelete(_) => 2
    case AtRelease(taken) => if taken == None then 2 else 11
    case AtTest(taken) => if taken == None then 1 else 10
    case AtBuild(_) => 9
    case AtExcept => 1
    case AtReport(_) => 7
    case Ended => 0
  }

  function AllSteps(workers: seq<Pc>): nat {
    if workers == [] then 0 else Steps(workers[0]) + AllSteps(workers[1..])
  }

  /** An upper bound on the statements still to be executed by all the workers. */
  function Budget(s: State): nat {
    AllSteps(s.workers) + 10 * |s.tasks|
  }

  function Worked(events: seq<Event>): nat {
    if events == [] then 0 else (if events[0].Work? then 1 else 0) + Worked(events[1..])
  }

  lemma {:induction false} AllStepsUpdates(workers: seq<Pc>, w: nat, pc: Pc)
    requires w < |workers|
    ensures AllSteps(workers[w := pc]) + Steps(workers[w]) == AllSteps(workers) + Steps(pc)
  {
    if w == 0 {
      assert workers[w := pc][1..] == workers[1..];
    } else {
      assert workers[w := pc][1..] == workers[1..][w - 1 := pc];
      AllStepsUpdates(workers[1..], w - 1, pc);
    }
  }

  lemma {:induction false} BudgetShrinks(s: State, e: Event)
    requires Enabled(s, e) && LockSafe(s)
    ensures Budget(Next(s, e)) + (if e.Work? then 1 else 0) <= Budget(s)
  {
    if e.Work? {
      AllStepsUpdates(s.workers, e.worker, Next(s, e).workers[e.worker]);
    }
  }

  lemma {:induction false} BudgetBounds(s: State, events: seq<Event>, initial: seq<Task>)
    requires Inv(s, initial) && Possible(s, events)
    ensures Worked(events) + Budget(After(s, events)) <= Budget(s)
    decreases |events|
  {
    if events != [] {
      BudgetShrinks(s, events[0]);
      InvStays(s, events[0], initial);
      BudgetBounds(Next(s, events[0]), events[1..], initial);
    }
  }

  lemma {:induction false} InitBudget(tasks: seq<Task>, threads: nat)
    ensures Budget(Init(tasks, threads)) == 6 * threads + 10 * |tasks|
  {
    var workers := Init(tasks, threads).workers;
    if threads > 0 {
      assert workers[1..] == Init(tasks, threads - 1).workers;
      InitBudget(tasks, threads - 1);
    }
  }

  /** Whatever the schedule, the workers execute at most 10 statements a task and 6 a thread. */
  lemma {:induction false} RunsAreBounded(tasks: seq<Task>, threads: nat, events: seq<Event>)
    requires Possible(Init(tasks, threads), events)
    ensures Worked(events) <= 10 * |tasks| + 6 * threads
  {
    InitHolds(tasks, threads);
    InitBudget(tasks, threads);
    BudgetBounds(Init(tasks, threads), events, tasks);
  }

  /** No deadlock: until every thread has ended, some thread can go on. So every run that is
      never left unscheduled ends with all threads joined. */
  lemma {:induction false} SomeWorkerCanStep(s: State, initial: seq<Task>, outcome: Outcome)
    requires Inv(s, initial) && !AllJoined(s)
    ensures exists w: nat :: Enabled(s, Work(w, outcome))
  {
    var w :| 0 <= w < |s.workers| && s.workers[w] != Ended;
    if s.lock == None {
      assert Enabled(s, Work(w, outcome));
    } else {
      assert Enabled(s, Work(s.lock.value, outcome));
    }
  }

  // ----- The shared objects -----

  /** The globals of the script and the state of its threads. */
  class Pool {
    var tasks: seq<Task>
    var lock: Option<nat>
    var terminate: bool
    var workers: seq<Pc>
    var built: seq<(Task, Outcome)>
    ghost var taken: seq<Task>
    ghost var interrupted: bool

    ghost function Abs(): State
      reads this
    {
      State(tasks, lock, terminate, workers, taken, built, interrupted)
    }

    constructor (tasks: seq<Task>, threads: nat)
      ensures Abs() == Init(tasks, threads)
    {
      this.tasks, lock, terminate, workers, built := tasks, None, false, seq(threads, _ => AtCheck), [];
      taken, interrupted := [], false;
    }

    /** sigint_handler. */
    method HandleSigint()
      modifies this
      ensures Abs() == Next(old(Abs()), Interrupt)
    {
      terminate := true;
      interrupted := true;
    }

    predicate Ready(w: nat)
      reads this
    {
      w < |workers| && workers[w] != Ended && (workers[w] == AtAcquire ==> lock == None)
    }

    /** Worker w executes its next statement; `outcome` is how its build ends if that is the statement. */
    method Execute(w: nat, outcome: Outcome)
      requires Ready(w)
      modifies this
      ensures Abs() == Next(old(Abs()), Work(w, outcome))
    {
      var pc := workers[w];
      match pc {
        case AtCheck =>
          pc := if terminate then Ended else AtAcquire;
        case AtAcquire =>
          lock := Some(w);
          pc := AtCount;
        case AtCount =>
          pc := AtTake(|tasks|);
        case AtTake(left) =>
          pc := if left > 0 && tasks != [] then AtDelete(tasks[0]) else AtRelease(None);
        case AtDelete(task) =>
          if tasks != [] {
            taken := taken + [tasks[0]];
            tasks := tasks[1..];
            pc := AtRelease(Some(task));
          }
        case AtRelease(task) =>
          lock := None;
          pc := AtTest(task);
        case AtTest(task) =>
          pc := if task == None then Ended else AtBuild(task.value);
        case AtBuild(task) =>
          built := built + [(task, outcome)];
          pc := if outcome.Code? then AtReport(outcome.code) else AtExcept;
        case AtExcept =>
          terminate := true;
          pc := Ended;
        case AtReport(code) =>
          if code != 0 {
            terminate := true;
          }
          pc := AtCheck;
        case Ended =>
      }
      workers := workers[w := pc];
    }

    /** The main thread after starting the workers: waits until all have ended, under an arbitrary
        schedule with arbitrary build outcomes and interrupts, and returns the exit status. `events` is the run
        that the schedule made, so what holds of whole runs holds of it. */
    method RunAndJoin(ghost initial: seq<Task>, ghost threads: nat) returns (ok: bool, ghost events: seq<Event>)
      requires Abs() == Init(initial, threads) && threads >= 1
      modifies this
      ensures Possible(Init(initial, threads), events) && Abs() == After(Init(initial, threads), events)
      ensures AllJoined(Abs())
      ensures ok <==> !interrupted && Finished(built) == multiset(initial)
                      && forall i :: 0 <= i < |built| ==> built[i].1 == Code(0)
      ensures threads == 1 ==> BuiltUpToFailure(initial, built, interrupted)
    {
      ghost var start := Abs();
      events := [];
      RunStarts(initial, threads);
      hide IsRun, Inv, Next, Budget, Init, Possible, After, Finished, BuiltUpToFailure;
      while exists w :: 0 <= w < |workers| && workers[w] != Ended
        invariant IsRun(start, events, Abs(), initial)
        decreases Budget(Abs())
      {
        var signal: bool := *;
        if signal {
          RunContinues(start, events, Abs(), Interrupt, initial);
          events := events + [Interrupt];
          HandleSigint();
        }
        var outcome: Outcome := *;
        SomeWorkerIsReady(start, events, initial, outcome);
        var w :| 0 <= w < |workers| && Ready(w);
        RunContinues(start, events, Abs(), Work(w, outcome), initial);
        events := events + [Work(w, outcome)];
        Execute(w, outcome);
      }
      RunIsOver(events, Abs(), initial, threads);
      ok := !terminate;
    }

    lemma SomeWorkerIsReady(start: State, events: seq<Event>, initial: seq<Task>, outcome: Outcome)
      requires IsRun(start, events, Abs(), initial) && exists w :: 0 <= w < |workers| && workers[w] != Ended
      ensures exists w :: 0 <= w < |workers| && Ready(w)
    {
      SomeWorkerCanStep(Abs(), initial, outcome);
      var w: nat :| Enabled(Abs(), Work(w, outcome));
      assert Ready(w);
    }
  }

  /** `events` lead from the start to s, and the invariant holds there. */
  ghost predicate IsRun(start: State, events: seq<Event>, s: State, initial: seq<Task>) {
    Possible(start, events) && s == After(start, events) && Inv(s, initial)
  }

  lemma RunStarts(initial: seq<Task>, threads: nat)
    ensures IsRun(Init(initial, threads), [], Init(initial, threads), initial)
  {
    InitHolds(initial, threads);
    hide Inv, Init;
  }

  lemma RunContinues(start: State, events: seq<Event>, s: State, e: Event, initial: seq<Task>)
    requires IsRun(start, events, s, initial) && Enabled(s, e)
    ensures IsRun(start, events + [e], Next(s, e), initial)
    ensures Budget(Next(s, e)) + (if e.Work? then 1 else 0) <= Budget(s)
    ensures e.Interrupt? ==> Next(s, e).workers == s.workers
  {
    WorkersStay(s, e);
    InvStays(s, e, initial);
    BudgetShrinks(s, e);
    RunGrows(start, events, e);
    hide Next, Inv, Budget, LockSafe, Possible, After;
  }

  lemma RunIsOver(events: seq<Event>, s: State, initial: seq<Task>, threads: nat)
    requires IsRun(Init(initial, threads), events, s, initial) && AllJoined(s) && threads >= 1
    ensures Possible(Init(initial, threads), events) && s == After(Init(initial, threads), events)
    ensures !s.terminate <==>
              && !s.interrupted
              && Finished(s.built) == multiset(initial)
              && forall i :: 0 <= i < |s.built| ==> s.built[i].1 == Code(0)
    ensures threads == 1 ==> BuiltUpToFailure(initial, s.built, s.interrupted)
  {
    CleanExitMeansAllBuilt(initial, threads, events);
    if threads == 1 {
      OneThreadStopsAtFailure(initial, events);
    }
  }
}
