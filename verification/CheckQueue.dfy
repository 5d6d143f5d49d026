/**
 The parallel check queue (`CCheckQueue`): one master and any number of workers that share a stack of checks under a
 mutex. Every stretch of `Loop` between taking and releasing the mutex (or blocking on a condition variable) is one
 atomic step; checks are executed outside it. Any waiting thread may wake at any time, notified or not.
 */
module CheckQueue {
  import opened Wrappers
  import Arithmetic

  /** A verification and the boolean its call returns. */
  datatype Check = Check(id: nat, passes: bool)

  /** The state guarded by the mutex. */
  datatype Shared = Shared(queue: seq<Check>, nIdle: nat, nTotal: nat, fAllOk: bool, nTodo: nat)

  /**
   Where a thread is: not in `Loop`, blocked on its condition variable, holding a batch it has still to execute, or
   done with a batch of `nNow` checks and about to take the mutex again.
   */
  datatype Phase =
    | Outside
    | Waiting(notified: bool)
    | Working(batch: seq<Check>, fOk: bool)
    | Finished(nNow: nat, fOk: bool)

  // ---------------------------------------------------------------------------------------------------------------
  // The critical sections
  // ---------------------------------------------------------------------------------------------------------------

  function Min(a: nat, b: nat): nat { if a < b then a else b }

  function BatchSize(sh: Shared, nBatchSize: nat): nat {
    Arithmetic.Max(1, Min(nBatchSize, |sh.queue| / (sh.nTotal + sh.nIdle + 1)))
  }

  /** A batch never asks for more checks than are queued. */
  lemma BatchFits(sh: Shared, nBatchSize: nat)
    requires sh.queue != []
    ensures 1 <= BatchSize(sh, nBatchSize) <= |sh.queue|
  {
    Arithmetic.DivAtMost(|sh.queue|, sh.nTotal + sh.nIdle + 1);
  }

  function Reversed(s: seq<Check>): seq<Check> {
    if s == [] then [] else [s[|s| - 1]] + Reversed(s[..|s| - 1])
  }

  /** Cleaning up after a batch. */
  function CleanUp(sh: Shared, nNow: nat, fOk: bool): Shared
    requires nNow <= sh.nTodo
  {
    sh.(fAllOk := sh.fAllOk && fOk, nTodo := sh.nTodo - nNow)
  }

  /** The rest of the critical section: block, take a batch, or (the master, with nothing left to do) return. */
  function Section(sh: Shared, master: bool, nBatchSize: nat): (r: (Shared, Phase, Option<bool>))
    requires sh.nTotal > 0
  {
    if sh.queue == [] then
      if master && sh.nTodo == 0 then
        (sh.(nTotal := sh.nTotal - 1, fAllOk := true), Outside, Some(sh.fAllOk))
      else
        (sh.(nIdle := sh.nIdle + 1), Waiting(false), None)
    else
      BatchFits(sh, nBatchSize);
      var left := |sh.queue| - BatchSize(sh, nBatchSize);
      (sh.(queue := sh.queue[..left]), Working(Reversed(sh.queue[left..]), sh.fAllOk), None)
  }

  predicate AllPass(checks: seq<Check>) {
    forall c :: c in checks ==> c.passes
  }

  // ---------------------------------------------------------------------------------------------------------------
  // The protocol
  // ---------------------------------------------------------------------------------------------------------------

  /** Thread 0 is the master. `added` lists the checks added since `Wait` last returned. */
  datatype State = State(sh: Shared, threads: seq<Phase>, added: seq<Check>)

  datatype Action =
    | Add(checks: seq<Check>)
    | Enter(t: nat)
    | Wake(t: nat)
    | Execute(t: nat)
    | Resume(t: nat)

  /** No thread has entered yet; the master adds only while it is not waiting. */
  predicate Enabled(st: State, a: Action) {
    match a
    case Add(_) => |st.threads| > 0 && st.threads[0].Outside?
    case Enter(t) => t < |st.threads| && st.threads[t].Outside?
    case Wake(t) => t < |st.threads| && st.threads[t].Waiting? && st.sh.nIdle > 0 && st.sh.nTotal > 0
    case Execute(t) => t < |st.threads| && st.threads[t].Working?
    case Resume(t) =>
      t < |st.threads| && st.threads[t].Finished? && st.threads[t].nNow <= st.sh.nTodo && st.sh.nTotal > 0
  }

  /** A worker that finishes the last check notifies the master, if the master is blocked. */
  function Notify(threads: seq<Phase>, t: nat, nTodo: nat): seq<Phase> {
    if t != 0 && nTodo == 0 && |threads| > 0 && threads[0].Waiting? then threads[0 := Waiting(true)] else threads
  }

  /** The state after a step, and the verdict when the step is the return of `Wait`. */
  function Step(st: State, a: Action, nBatchSize: nat): (State, Option<bool>)
    requires Enabled(st, a)
  {
    match a
    case Add(checks) =>
      var sh := st.sh.(queue := st.sh.queue + checks, nTodo := st.sh.nTodo + |checks|);
      (State(sh, st.threads, st.added + checks), None)
    case Enter(t) =>
      Proceed(st, t, st.sh.(nTotal := st.sh.nTotal + 1), st.threads, nBatchSize)
    case Wake(t) =>
      Proceed(st, t, st.sh.(nIdle := st.sh.nIdle - 1), st.threads, nBatchSize)
    case Execute(t) =>
      var p := st.threads[t];
      (st.(threads := st.threads[t := Finished(|p.batch|, p.fOk && AllPass(p.batch))]), None)
    case Resume(t) =>
      var sh := CleanUp(st.sh, st.threads[t].nNow, st.threads[t].fOk);
      Proceed(st, t, sh, Notify(st.threads, t, sh.nTodo), nBatchSize)
  }

  function Proceed(st: State, t: nat, sh: Shared, threads: seq<Phase>, nBatchSize: nat): (State, Option<bool>)
    requires t < |threads| && sh.nTotal > 0
  {
    var (sh', phase, ret) := Section(sh, t == 0, nBatchSize);
    (State(sh', threads[t := phase], if ret.Some? then [] else st.added), ret)
  }

  /** Before any thread has started. */
  function Init(nThreads: nat): State {
    State(Shared([], 0, 0, true, 0), seq(nThreads, _ => Outside), [])
  }

  // ---------------------------------------------------------------------------------------------------------------
  // The invariant
  // ---------------------------------------------------------------------------------------------------------------

  function Held(p: Phase): nat {
    match p
    case Working(batch, _) => |batch|
    case Finished(nNow, _) => nNow
    case _ => 0
  }

  function InFlight(threads: seq<Phase>): nat {
    if threads == [] then 0 else Held(threads[0]) + InFlight(threads[1..])
  }

  function CountWaiting(threads: seq<Phase>): nat {
    if threads == [] then 0 else (if threads[0].Waiting? then 1 else 0) + CountWaiting(threads[1..])
  }

  function CountInside(threads: seq<Phase>): nat {
    if threads == [] then 0 else (if threads[0].Outside? then 0 else 1) + CountInside(threads[1..])
  }

  /** The counters count what they are meant to count. */
  predicate Counted(sh: Shared, threads: seq<Phase>) {
    && sh.nTodo == |sh.queue| + InFlight(threads)
    && sh.nIdle == CountWaiting(threads)
    && sh.nTotal == CountInside(threads)
  }

  /** What a thread may hold, given the checks added and the verdict so far. */
  predicate PhaseOk(p: Phase, added: seq<Check>, fAllOk: bool) {
    match p
    case Working(batch, fOk) =>
      batch != [] && (forall c :: c in batch ==> c in added) && (!fOk ==> !fAllOk)
    case Finished(nNow, fOk) => nNow > 0 && (!fOk ==> !AllPass(added))
    case _ => true
  }

  /** The thread will report a failure when it resumes. */
  predicate Failing(p: Phase) {
    match p
    case Working(batch, fOk) => !fOk || !AllPass(batch)
    case Finished(_, fOk) => !fOk
    case _ => false
  }

  /** No failure is forgotten: it is in the verdict, still queued, or in some thread's hands. */
  predicate Tracked(sh: Shared, threads: seq<Phase>, added: seq<Check>) {
    && (!sh.fAllOk ==> !AllPass(added))
    && (!AllPass(added) ==> !sh.fAllOk || !AllPass(sh.queue) || exists i :: 0 <= i < |threads| && Failing(threads[i]))
  }

  /** A blocked master has no queue to work on; it is notified exactly when nothing is left to do. */
  predicate MasterOk(sh: Shared, threads: seq<Phase>) {
    |threads| > 0 && (threads[0].Waiting? ==> sh.queue == [] && (threads[0].notified <==> sh.nTodo == 0))
  }

  predicate Inv(st: State) {
    && Counted(st.sh, st.threads)
    && (forall i :: 0 <= i < |st.threads| ==> PhaseOk(st.threads[i], st.added, st.sh.fAllOk))
    && (forall c :: c in st.sh.queue ==> c in st.added)
    && Tracked(st.sh, st.threads, st.added)
    && MasterOk(st.sh, st.threads)
  }

  // ---------------------------------------------------------------------------------------------------------------
  // Counting lemmas
  // ---------------------------------------------------------------------------------------------------------------

  function One(b: bool): nat { if b then 1 else 0 }

  /** Changing one thread changes each count by that thread's share. */
  lemma {:induction false} CountsAt(threads: seq<Phase>, t: nat, p: Phase)
    requires t < |threads|
    ensures InFlight(threads[t := p]) == InFlight(threads) - Held(threads[t]) + Held(p)
    ensures CountWaiting(threads[t := p]) == CountWaiting(threads) - One(threads[t].Waiting?) + One(p.Waiting?)
    ensures CountInside(threads[t := p]) == CountInside(threads) - One(!threads[t].Outside?) + One(!p.Outside?)
    ensures InFlight(threads) >= Held(threads[t])
    ensures CountWaiting(threads) >= One(threads[t].Waiting?)
    ensures CountInside(threads) >= One(!threads[t].Outside?)
    decreases |threads|
  {
    if t == 0 {
      assert threads[0 := p][1..] == threads[1..];
    } else {
      assert threads[t := p][1..] == threads[1..][t - 1 := p];
      CountsAt(threads[1..], t - 1, p);
    }
  }

  lemma {:induction false} SomeoneHolds(threads: seq<Phase>)
    requires InFlight(threads) > 0
    ensures exists i :: 0 <= i < |threads| && Held(threads[i]) > 0
    decreases |threads|
  {
    if Held(threads[0]) == 0 {
      SomeoneHolds(threads[1..]);
      var i :| 0 <= i < |threads| - 1 && Held(threads[1..][i]) > 0;
      assert Held(threads[i + 1]) > 0;
    }
  }

  lemma {:induction false} NobodyHolds(threads: seq<Phase>, t: nat)
    requires InFlight(threads) == 0 && t < |threads|
    ensures Held(threads[t]) == 0
  {
    CountsAt(threads, t, threads[t]);
  }

  lemma {:induction false} ReversedContents(s: seq<Check>)
    ensures |Reversed(s)| == |s| && forall c :: c in Reversed(s) <==> c in s
    decreases |s|
  {
    if s != [] {
      var last := |s| - 1;
      ReversedContents(s[..last]);
      assert s == s[..last] + [s[last]];
    }
  }

  // ---------------------------------------------------------------------------------------------------------------
  // Every step keeps the invariant
  // ---------------------------------------------------------------------------------------------------------------

  lemma {:induction false} InitCounts(n: nat)
    ensures var ts := seq(n, _ => Outside); InFlight(ts) == CountWaiting(ts) == CountInside(ts) == 0
  {
    if n > 0 {
      InitCounts(n - 1);
      assert seq(n, _ => Outside)[1..] == seq(n - 1, _ => Outside);
    }
  }

  lemma InitInv(nThreads: nat)
    requires nThreads > 0
    ensures Inv(Init(nThreads))
  {
    InitCounts(nThreads);
  }

  /**
   The critical section after clean-up, entered by a thread that holds nothing. The counters are those of the other
   threads, with the thread itself counted as inside but not as idle.
   */
  predicate Entry(sh: Shared, threads: seq<Phase>, added: seq<Check>, t: nat) {
    && t < |threads|
    && Held(threads[t]) == 0 && !Failing(threads[t]) && threads[t].Outside?
    && Counted(sh.(nTotal := sh.nTotal - One(sh.nTotal > 0)), threads) && sh.nTotal > 0
    && (forall i :: 0 <= i < |threads| ==> PhaseOk(threads[i], added, sh.fAllOk))
    && (forall c :: c in sh.queue ==> c in added)
    && Tracked(sh, threads, added)
    && (t != 0 ==> MasterOk(sh, threads))
  }

  lemma AddKeeps(st: State, checks: seq<Check>)
    requires Inv(st) && Enabled(st, Add(checks))
    ensures Inv(Step(st, Add(checks), 0).0)
  {
    var st' := Step(st, Add(checks), 0).0;
    assert AllPass(st'.added) <==> AllPass(st.added) && AllPass(checks);
    assert AllPass(st'.sh.queue) <==> AllPass(st.sh.queue) && AllPass(checks);
  }

  lemma ExecuteKeeps(st: State, t: nat)
    requires Inv(st) && Enabled(st, Execute(t))
    ensures Inv(Step(st, Execute(t), 0).0)
  {
    var st' := Step(st, Execute(t), 0).0;
    CountsAt(st.threads, t, st'.threads[t]);
    assert PhaseOk(st.threads[t], st.added, st.sh.fAllOk);
    assert Failing(st'.threads[t]) <==> Failing(st.threads[t]);
    if i :| 0 <= i < |st.threads| && Failing(st.threads[i]) {
      assert Failing(st'.threads[i]);
    }
  }

  /** The master returns exactly when no check is queued or in flight, and then the verdict is right. */
  lemma ReturnIsRight(sh: Shared, threads: seq<Phase>, added: seq<Check>)
    requires Entry(sh, threads, added, 0) && sh.queue == [] && sh.nTodo == 0
    ensures sh.fAllOk <==> AllPass(added)
    ensures forall i :: 0 <= i < |threads| ==> threads[i].Outside? || threads[i].Waiting?
  {
    forall i | 0 <= i < |threads|
      ensures threads[i].Outside? || threads[i].Waiting?
    {
      NobodyHolds(threads, i);
      assert PhaseOk(threads[i], added, sh.fAllOk);
    }
  }

  lemma BlockKeeps(sh: Shared, threads: seq<Phase>, added: seq<Check>, t: nat)
    requires Entry(sh, threads, added, t) && sh.queue == [] && (t == 0 ==> sh.nTodo > 0)
    ensures Inv(State(sh.(nIdle := sh.nIdle + 1), threads[t := Waiting(false)], added))
  {
    CountsAt(threads, t, Waiting(false));
    SectionTracked(sh, sh.(nIdle := sh.nIdle + 1), threads, added, t, Waiting(false));
  }

  lemma TakeKeeps(sh: Shared, threads: seq<Phase>, added: seq<Check>, t: nat, left: nat)
    requires Entry(sh, threads, added, t) && left < |sh.queue|
    ensures var phase := Working(Reversed(sh.queue[left..]), sh.fAllOk);
            Inv(State(sh.(queue := sh.queue[..left]), threads[t := phase], added))
  {
    var batch := sh.queue[left..];
    var phase := Working(Reversed(batch), sh.fAllOk);
    CountsAt(threads, t, phase);
    assert sh.queue == sh.queue[..left] + batch;
    ReversedContents(batch);
    SectionTracked(sh, sh.(queue := sh.queue[..left]), threads, added, t, phase);
    assert phase.batch != [];
    forall c | c in phase.batch ensures c in added {
      assert c in sh.queue;
    }
  }

  lemma ReturnKeeps(sh: Shared, threads: seq<Phase>, added: seq<Check>)
    requires Entry(sh, threads, added, 0) && sh.queue == [] && sh.nTodo == 0
    ensures Inv(State(sh.(nTotal := sh.nTotal - 1, fAllOk := true), threads[0 := Outside], []))
  {
    CountsAt(threads, 0, Outside);
    ReturnIsRight(sh, threads, added);
  }

  /** Whatever the section does, the invariant holds after it, and a verdict it returns is right. */
  lemma SectionKeeps(sh: Shared, threads: seq<Phase>, added: seq<Check>, t: nat, nBatchSize: nat)
    requires Entry(sh, threads, added, t)
    ensures var (sh', phase, ret) := Section(sh, t == 0, nBatchSize);
            && Inv(State(sh', threads[t := phase], if ret.Some? then [] else added))
            && (ret.Some? ==> t == 0 && (ret.value <==> AllPass(added)))
  {
    if sh.queue == [] {
      if t == 0 && sh.nTodo == 0 {
        ReturnIsRight(sh, threads, added);
        ReturnKeeps(sh, threads, added);
      } else {
        BlockKeeps(sh, threads, added, t);
      }
    } else {
      BatchFits(sh, nBatchSize);
      TakeKeeps(sh, threads, added, t, |sh.queue| - BatchSize(sh, nBatchSize));
    }
  }

  lemma SectionTracked(sh: Shared, sh': Shared, threads: seq<Phase>, added: seq<Check>, t: nat, phase: Phase)
    requires Entry(sh, threads, added, t)
    requires sh'.fAllOk == sh.fAllOk
    requires AllPass(sh'.queue) && !Failing(phase) ==> AllPass(sh.queue)
    ensures Tracked(sh', threads[t := phase], added)
  {
    var threads' := threads[t := phase];
    if i :| 0 <= i < |threads| && Failing(threads[i]) {
      assert Failing(threads'[i]);
    }
    if Failing(phase) {
      assert Failing(threads'[t]);
    }
  }

  /** A thread leaves its phase behind and enters the section with the counters put right. */
  lemma EnterKeeps(st: State, t: nat, nBatchSize: nat)
    requires Inv(st) && Enabled(st, Enter(t))
    ensures var (st', ret) := Step(st, Enter(t), nBatchSize);
            Inv(st') && (ret.Some? ==> t == 0 && (ret.value <==> AllPass(st.added)))
  {
    SectionKeeps(st.sh.(nTotal := st.sh.nTotal + 1), st.threads, st.added, t, nBatchSize);
  }

  lemma OutsideTracked(sh: Shared, sh': Shared, threads: seq<Phase>, threads': seq<Phase>, added: seq<Check>, t: nat)
    requires t < |threads| == |threads'| && Tracked(sh, threads, added) && sh'.queue == sh.queue
    requires forall i :: 0 <= i < |threads| && i != t ==> (Failing(threads'[i]) <==> Failing(threads[i]))
    requires sh'.fAllOk == (sh.fAllOk && !Failing(threads[t]))
    requires Failing(threads[t]) ==> !AllPass(added)
    ensures Tracked(sh', threads', added)
  {
    if !AllPass(added) && sh.fAllOk && AllPass(sh.queue) {
      var i :| 0 <= i < |threads| && Failing(threads[i]);
      if i != t {
        assert Failing(threads'[i]);
      }
    }
  }

  lemma WakeKeeps(st: State, t: nat, nBatchSize: nat)
    requires Inv(st) && Enabled(st, Wake(t))
    ensures var (st', ret) := Step(st, Wake(t), nBatchSize);
            Inv(st') && (ret.Some? ==> t == 0 && (ret.value <==> AllPass(st.added)))
  {
    var sh := st.sh.(nIdle := st.sh.nIdle - 1);
    var threads := st.threads[t := Outside];
    CountsAt(st.threads, t, Outside);
    OutsideTracked(st.sh, sh, st.threads, threads, st.added, t);
    SectionKeeps(sh, threads, st.added, t, nBatchSize);
    var phase := Section(sh, t == 0, nBatchSize).1;
    assert threads[t := phase] == st.threads[t := phase];
  }

  /** Cleaning up hands the thread's result to the verdict and, on the last check, wakes a blocked master. */
  lemma CleanUpEntry(st: State, t: nat)
    requires Inv(st) && Enabled(st, Resume(t))
    ensures var sh := CleanUp(st.sh, st.threads[t].nNow, st.threads[t].fOk);
            Entry(sh, Notify(st.threads, t, sh.nTodo)[t := Outside], st.added, t)
  {
    var p := st.threads[t];
    var sh := CleanUp(st.sh, p.nNow, p.fOk);
    var notified := Notify(st.threads, t, sh.nTodo);
    var threads := notified[t := Outside];
    if st.threads[0].Waiting? {
      CountsAt(st.threads, 0, Waiting(true));
    }
    CountsAt(notified, t, Outside);
    CountsAt(st.threads, t, Outside);
    assert PhaseOk(p, st.added, st.sh.fAllOk);
    OutsideTracked(st.sh, sh, st.threads, threads, st.added, t);
    forall i | 0 <= i < |threads| ensures PhaseOk(threads[i], st.added, sh.fAllOk) {
      assert PhaseOk(st.threads[i], st.added, st.sh.fAllOk);
    }
  }

  lemma ResumeKeeps(st: State, t: nat, nBatchSize: nat)
    requires Inv(st) && Enabled(st, Resume(t))
    ensures var (st', ret) := Step(st, Resume(t), nBatchSize);
            Inv(st') && (ret.Some? ==> t == 0 && (ret.value <==> AllPass(st.added)))
  {
    CleanUpEntry(st, t);
    var sh := CleanUp(st.sh, st.threads[t].nNow, st.threads[t].fOk);
    var notified := Notify(st.threads, t, sh.nTodo);
    SectionKeeps(sh, notified[t := Outside], st.added, t, nBatchSize);
    var phase := Section(sh, t == 0, nBatchSize).1;
    assert notified[t := Outside][t := phase] == notified[t := phase];
  }

  /**
   Every step of every thread keeps the invariant, and a verdict is true exactly when every check added since the
   previous verdict passes.
   */
  lemma StepKeeps(st: State, a: Action, nBatchSize: nat)
    requires Inv(st) && Enabled(st, a)
    ensures var (st', ret) := Step(st, a, nBatchSize);
            Inv(st') && (ret.Some? ==> (ret.value <==> AllPass(st.added)) && st'.added == [])
  {
    match a
    case Add(checks) => AddKeeps(st, checks);
    case Enter(t) => EnterKeeps(st, t, nBatchSize);
    case Wake(t) => WakeKeeps(st, t, nBatchSize);
    case Execute(t) => ExecuteKeeps(st, t);
    case Resume(t) => ResumeKeeps(st, t, nBatchSize);
  }

  // ---------------------------------------------------------------------------------------------------------------
  // Whole runs
  // ---------------------------------------------------------------------------------------------------------------

  predicate RunEnabled(st: State, actions: seq<Action>, nBatchSize: nat)
    decreases |actions|
  {
    actions == [] ||
    (Enabled(st, actions[0]) && RunEnabled(Step(st, actions[0], nBatchSize).0, actions[1..], nBatchSize))
  }

  function Run(st: State, actions: seq<Action>, nBatchSize: nat): State
    requires RunEnabled(st, actions, nBatchSize)
    decreases |actions|
  {
    if actions == [] then st else Run(Step(st, actions[0], nBatchSize).0, actions[1..], nBatchSize)
  }

  /** The verdicts `Wait` returns along a run, in order. */
  function Verdicts(st: State, actions: seq<Action>, nBatchSize: nat): seq<bool>
    requires RunEnabled(st, actions, nBatchSize)
    decreases |actions|
  {
    if actions == [] then [] else
    var (st', ret) := Step(st, actions[0], nBatchSize);
    (if ret.Some? then [ret.value] else []) + Verdicts(st', actions[1..], nBatchSize)
  }

  /**
   The verdicts a sequential queue would give: it remembers the checks of the `Add` steps and, at each point where the
   concurrent queue returns, reports whether they all pass and forgets them.
   */
  function Expected(pending: seq<Check>, st: State, actions: seq<Action>, nBatchSize: nat): seq<bool>
    requires RunEnabled(st, actions, nBatchSize)
    decreases |actions|
  {
    if actions == [] then [] else
    var (st', ret) := Step(st, actions[0], nBatchSize);
    var pending' := if actions[0].Add? then pending + actions[0].checks else pending;
    if ret.Some? then [AllPass(pending')] + Expected([], st', actions[1..], nBatchSize)
    else Expected(pending', st', actions[1..], nBatchSize)
  }

  /** Any interleaving of any number of threads keeps the invariant and returns exactly the sequential verdicts. */
  lemma {:induction false} RunIsRight(st: State, actions: seq<Action>, nBatchSize: nat)
    requires Inv(st) && RunEnabled(st, actions, nBatchSize)
    ensures Inv(Run(st, actions, nBatchSize))
    ensures Verdicts(st, actions, nBatchSize) == Expected(st.added, st, actions, nBatchSize)
    decreases |actions|
  {
    if actions != [] {
      StepKeeps(st, actions[0], nBatchSize);
      RunIsRight(Step(st, actions[0], nBatchSize).0, actions[1..], nBatchSize);
    }
  }

  /** From the start, with any number of workers. */
  lemma RunFromInit(nWorkers: nat, actions: seq<Action>, nBatchSize: nat)
    requires RunEnabled(Init(nWorkers + 1), actions, nBatchSize)
    ensures Inv(Run(Init(nWorkers + 1), actions, nBatchSize))
    ensures Verdicts(Init(nWorkers + 1), actions, nBatchSize) == Expected([], Init(nWorkers + 1), actions, nBatchSize)
  {
    InitInv(nWorkers + 1);
    RunIsRight(Init(nWorkers + 1), actions, nBatchSize);
  }

  // ---------------------------------------------------------------------------------------------------------------
  // No deadlock
  // ---------------------------------------------------------------------------------------------------------------

  /**
   A blocked master that has not been notified always has a worker with work in hand, whose next step is enabled; and a
   notified master's next step returns.
   */
  lemma MasterNotStuck(st: State, nBatchSize: nat)
    requires Inv(st) && st.threads[0].Waiting?
    ensures !st.threads[0].notified ==>
              exists w :: 0 < w < |st.threads| && (Enabled(st, Execute(w)) || Enabled(st, Resume(w)))
    ensures st.threads[0].notified ==> Enabled(st, Wake(0)) && Step(st, Wake(0), nBatchSize).1.Some?
  {
    CountsAt(st.threads, 0, st.threads[0]);
    if !st.threads[0].notified {
      SomeoneHolds(st.threads);
      var w :| 0 <= w < |st.threads| && Held(st.threads[w]) > 0;
      CountsAt(st.threads, w, st.threads[w]);
      assert Enabled(st, Execute(w)) || Enabled(st, Resume(w));
    }
  }

  /** The worker whose clean-up completes the last check leaves the blocked master notified. */
  lemma LastWorkerNotifies(st: State, w: nat, nBatchSize: nat)
    requires Inv(st) && st.threads[0].Waiting? && w > 0 && Enabled(st, Resume(w))
    requires st.threads[w].nNow == st.sh.nTodo
    ensures Step(st, Resume(w), nBatchSize).0.threads[0] == Waiting(true)
  {
  }

  /** No thread that holds the mutex finds a step disabled: the guards of `Enabled` beyond the phase always hold. */
  lemma StepsNotBlocked(st: State, t: nat)
    requires Inv(st) && t < |st.threads|
    ensures st.threads[t].Waiting? ==> Enabled(st, Wake(t))
    ensures st.threads[t].Finished? ==> Enabled(st, Resume(t))
  {
    CountsAt(st.threads, t, st.threads[t]);
  }

  // ---------------------------------------------------------------------------------------------------------------
  // The queue drains
  // ---------------------------------------------------------------------------------------------------------------

  /** The steps that a thread has to take before it holds nothing, when nothing is queued. */
  function Load(p: Phase): nat {
    match p
    case Working(_, _) => 2
    case Finished(_, _) => 1
    case _ => 0
  }

  function Work(threads: seq<Phase>): nat {
    if threads == [] then 0 else Load(threads[0]) + Work(threads[1..])
  }

  lemma {:induction false} WorkAt(threads: seq<Phase>, t: nat, p: Phase)
    requires t < |threads|
    ensures Work(threads[t := p]) == Work(threads) - Load(threads[t]) + Load(p)
    decreases |threads|
  {
    if t == 0 {
      assert threads[0 := p][1..] == threads[1..];
    } else {
      assert threads[t := p][1..] == threads[1..][t - 1 := p];
      WorkAt(threads[1..], t - 1, p);
    }
  }

  /** The master is blocked in `Wait`. */
  predicate Draining(st: State) {
    Inv(st) && st.threads[0].Waiting?
  }

  /** The step of a thread that holds work. */
  predicate Works(a: Action) {
    a.Execute? || a.Resume?
  }

  /** With nothing queued, a worker that holds nothing any more blocks. */
  lemma WorkerBlocks(st: State, t: nat, sh: Shared, threads: seq<Phase>, nBatchSize: nat)
    requires 0 < t < |threads| && sh.nTotal > 0 && sh.queue == []
    ensures Proceed(st, t, sh, threads, nBatchSize)
            == (State(sh.(nIdle := sh.nIdle + 1), threads[t := Waiting(false)], st.added), None)
  {
  }

  /**
   While the master is blocked, no step of any thread adds work, and each step of a thread that holds work takes some
   away, until the master returns.
   */
  lemma StepDrains(st: State, a: Action, nBatchSize: nat)
    requires Draining(st) && Enabled(st, a)
    ensures var (st', ret) := Step(st, a, nBatchSize);
            if ret.Some? then a == Wake(0) && ret.value == AllPass(st.added)
            else Draining(st') && st'.added == st.added && Work(st'.threads) + One(Works(a)) <= Work(st.threads)
  {
    StepKeeps(st, a, nBatchSize);
    match a
    case Enter(t) =>
      WorkerBlocks(st, t, st.sh.(nTotal := st.sh.nTotal + 1), st.threads, nBatchSize);
      WorkAt(st.threads, t, Waiting(false));
    case Wake(t) =>
      WorkAt(st.threads, t, Waiting(false));
      if t > 0 {
        WorkerBlocks(st, t, st.sh.(nIdle := st.sh.nIdle - 1), st.threads, nBatchSize);
      }
    case Execute(t) =>
      WorkAt(st.threads, t, Step(st, a, nBatchSize).0.threads[t]);
    case Resume(t) =>
      var sh := CleanUp(st.sh, st.threads[t].nNow, st.threads[t].fOk);
      var threads := Notify(st.threads, t, sh.nTodo);
      WorkAt(st.threads, 0, Waiting(true));
      WorkAt(threads, t, Waiting(false));
      WorkerBlocks(st, t, sh, threads, nBatchSize);
  }

  function WorkSteps(actions: seq<Action>): nat {
    if actions == [] then 0 else One(Works(actions[0])) + WorkSteps(actions[1..])
  }

  /** However the threads are scheduled, the master returns before more steps are worked than are left. */
  lemma {:induction false} DrainIsBounded(st: State, actions: seq<Action>, nBatchSize: nat)
    requires Draining(st) && RunEnabled(st, actions, nBatchSize) && Verdicts(st, actions, nBatchSize) == []
    ensures WorkSteps(actions) <= Work(st.threads) && Draining(Run(st, actions, nBatchSize))
    decreases |actions|
  {
    if actions != [] {
      StepDrains(st, actions[0], nBatchSize);
      DrainIsBounded(Step(st, actions[0], nBatchSize).0, actions[1..], nBatchSize);
    }
  }

  /**
   From every state in which the master is blocked, steps of workers with work in hand lead, one after another, to a
   notified master, whose next step returns the verdict on everything added.
   */
  lemma {:induction false} Drain(st: State, nBatchSize: nat) returns (actions: seq<Action>)
    requires Draining(st)
    ensures RunEnabled(st, actions, nBatchSize) && |actions| <= Work(st.threads)
    ensures forall i :: 0 <= i < |actions| ==> Works(actions[i])
    ensures var end := Run(st, actions, nBatchSize);
            && Draining(end) && end.threads[0] == Waiting(true) && Enabled(end, Wake(0))
            && Step(end, Wake(0), nBatchSize).1 == Some(AllPass(st.added))
    decreases Work(st.threads)
  {
    actions := [];
    MasterNotStuck(st, nBatchSize);
    if st.threads[0].notified {
      StepDrains(st, Wake(0), nBatchSize);
    } else {
      var w :| 0 < w < |st.threads| && (Enabled(st, Execute(w)) || Enabled(st, Resume(w)));
      var a := if Enabled(st, Execute(w)) then Execute(w) else Resume(w);
      StepDrains(st, a, nBatchSize);
      var rest := Drain(Step(st, a, nBatchSize).0, nBatchSize);
      actions := [a] + rest;
      assert actions[1..] == rest;
    }
  }

  // ---------------------------------------------------------------------------------------------------------------
  // The code of the steps
  // ---------------------------------------------------------------------------------------------------------------

  /** The fields guarded by the mutex, and the code run while holding it. */
  class Pool {
    var queue: seq<Check>
    var nIdle: nat
    var nTotal: nat
    var fAllOk: bool
    var nTodo: nat
    const nBatchSize: nat

    constructor (nBatchSize: nat)
      ensures Model() == Init(0).sh && this.nBatchSize == nBatchSize
    {
      queue, nIdle, nTotal, fAllOk, nTodo := [], 0, 0, true, 0;
      this.nBatchSize := nBatchSize;
    }

    ghost function Model(): Shared
      reads this
    {
      Shared(queue, nIdle, nTotal, fAllOk, nTodo)
    }

    method AddChecks(vChecks: seq<Check>)
      modifies this
      ensures Model() == old(Model()).(queue := old(queue) + vChecks, nTodo := old(nTodo) + |vChecks|)
    {
      if vChecks == [] {
        return;
      }
      for i := 0 to |vChecks|
        invariant Model() == old(Model()).(queue := old(queue) + vChecks[..i])
      {
        queue := queue + [vChecks[i]];
      }
      assert vChecks[..|vChecks|] == vChecks;
      nTodo := nTodo + |vChecks|;
    }

    /** The clean-up of the previous turn, or the announcement of a newcomer; says whether to notify the master. */
    method BeginSection(nNow: nat, fOk: bool, fMaster: bool) returns (notify: bool)
      requires nNow <= nTodo
      modifies this
      ensures nNow > 0 ==> Model() == CleanUp(old(Model()), nNow, fOk)
      ensures nNow == 0 ==> Model() == old(Model()).(nTotal := old(nTotal) + 1)
      ensures notify <==> nNow > 0 && !fMaster && nTodo == 0
    {
      notify := false;
      if nNow > 0 {
        fAllOk := fAllOk && fOk;
        nTodo := nTodo - nNow;
        notify := nTodo == 0 && !fMaster;
      } else {
        nTotal := nTotal + 1;
      }
    }

    /** The rest of the section: returns the phase the thread is in afterwards, and the verdict if it is done. */
    method EndSection(fMaster: bool) returns (phase: Phase, ret: Option<bool>)
      requires nTotal > 0
      modifies this
      ensures (Model(), phase, ret) == Section(old(Model()), fMaster, nBatchSize)
    {
      if queue == [] {
        if fMaster && nTodo == 0 {
          nTotal := nTotal - 1;
          var fRet := fAllOk;
          fAllOk := true;
          return Outside, Some(fRet);
        }
        nIdle := nIdle + 1;
        return Waiting(false), None;
      }
      BatchFits(Model(), nBatchSize);
      var nNow := Arithmetic.Max(1, Min(nBatchSize, |queue| / (nTotal + nIdle + 1)));
      var vChecks := TakeBatch(nNow);
      return Working(vChecks, fAllOk), None;
    }

    /** Pops a batch off the back of the queue. */
    method TakeBatch(nNow: nat) returns (vChecks: seq<Check>)
      requires nNow <= |queue|
      modifies this`queue
      ensures queue == old(queue)[..old(|queue|) - nNow] && vChecks == Reversed(old(queue)[old(|queue|) - nNow..])
    {
      ghost var was := queue;
      vChecks := [];
      for i := 0 to nNow
        invariant queue == was[..|was| - i]
        invariant vChecks == Reversed(was[|was| - i..])
      {
        var last := |queue| - 1;
        assert was[last..] == [was[last]] + was[last + 1..];
        ReversedSnoc(was[last], was[last + 1..]);
        vChecks := vChecks + [queue[last]];
        queue := queue[..last];
      }
    }
  }

  lemma {:induction false} ReversedSnoc(c: Check, s: seq<Check>)
    ensures Reversed([c] + s) == Reversed(s) + [c]
    decreases |s|
  {
    if s != [] {
      var last := |s| - 1;
      assert ([c] + s)[..last + 1] == [c] + s[..last];
      ReversedSnoc(c, s[..last]);
    }
  }

  /** Executing a batch outside the mutex: once a check fails, the rest are skipped. */
  method ExecuteBatch(vChecks: seq<Check>, fOk: bool) returns (ok: bool)
    ensures ok <==> fOk && AllPass(vChecks)
  {
    ok := fOk;
    for i := 0 to |vChecks|
      invariant ok <==> fOk && AllPass(vChecks[..i])
    {
      assert vChecks[..i + 1] == vChecks[..i] + [vChecks[i]];
      if ok {
        ok := vChecks[i].passes;
      }
    }
    assert vChecks[..|vChecks|] == vChecks;
  }
}
