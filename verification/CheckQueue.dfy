/** The parallel check queue: one master and any number of workers that share a stack of checks
    under a mutex and two condition variables. Each critical section is one atomic step, a check
    runs outside the lock, threads interleave freely and may wake up spuriously. */
module CheckQueue {
  import opened Numbers
  import opened Wrappers

  /** A check and the answer that running it gives. */
  datatype Check = Check(id: nat, ok: bool)

  datatype Thread =
    | Outside                                            // the master, not in Wait
    | Notifying(all: bool)                               // the master, between unlock and notify in Add
    | Entering                                           // about to take the lock for the first time
    | Running(batch: seq<Check>, at: nat, allOk: bool)   // outside the lock with a batch, `at` of it done
    | Blocked(notified: bool)                            // waiting on its condition variable
    | Stopped                                            // left the loop because of a stop request

  /** Thread 0 is the master. The last two fields are history: the checks added since the master
      last returned, and those of them whose batch has been accounted for. */
  datatype State = State(
    queue: seq<Check>, nIdle: int, nTotal: int, allOk: bool, nTodo: int, stop: bool, batchSize: nat,
    threads: seq<Thread>,
    added: multiset<Check>, finished: multiset<Check>)

  const MASTER: nat := 0

  datatype Event =
    | CallWait
    | Add(checks: seq<Check>)
    | Notify(chosen: set<nat>)
    | Enter(t: nat)
    | Exec(t: nat)
    | Wake(t: nat)
    | RequestStop

  function Init(workers: nat, batchSize: nat): State {
    State([], 0, 0, true, 0, false, batchSize,
          [Outside] + seq(workers, _ => Entering), multiset{}, multiset{})
  }

  // ---- the steps ----

  function Min(a: int, b: int): int { if a < b then a else b }

  /** How many checks a thread takes at once; `share` divides by a count that is never below 1. */
  function BatchNow(s: State): (n: int)
    requires s.queue != []
    ensures 1 <= n <= |s.queue|
  {
    var share := if s.nTotal + s.nIdle + 1 >= 1 then |s.queue| / (s.nTotal + s.nIdle + 1) else 0;
    Max(1, Min(s.batchSize, share))
  }

  /** The part of the critical section that starts at the wait loop. The second component is the
      answer, when the thread is the master and leaves with one. */
  function LoopHead(s: State, t: nat): (State, Option<bool>)
    requires t < |s.threads|
  {
    if s.queue == [] && !s.stop then
      if t == MASTER && s.nTodo == 0 then
        (s.(nTotal := s.nTotal - 1, allOk := true, threads := s.threads[t := Outside],
            added := multiset{}, finished := multiset{}),
         Some(s.allOk))
      else
        (s.(nIdle := s.nIdle + 1, threads := s.threads[t := Blocked(false)]), None)
    else if s.stop then
      (s.(threads := s.threads[t := Stopped]), None)
    else
      var rest := |s.queue| - BatchNow(s);
      (s.(queue := s.queue[..rest], threads := s.threads[t := Running(s.queue[rest..], 0, s.allOk)]), None)
  }

  /** The clean-up of the previous batch, or the registration of a thread that has none. */
  function CleanUp(s: State, t: nat): State
    requires t < |s.threads|
  {
    if s.threads[t].Running? then
      var s' := Account(s, s.threads[t]);
      if s'.nTodo == 0 && t != MASTER then s'.(threads := NotifyMaster(s'.threads)) else s'
    else s.(nTotal := s.nTotal + 1)
  }

  function Account(s: State, th: Thread): State
    requires th.Running?
  {
    s.(allOk := s.allOk && th.allOk, nTodo := s.nTodo - |th.batch|, finished := s.finished + multiset(th.batch))
  }

  function NotifyMaster(threads: seq<Thread>): (threads': seq<Thread>)
    ensures |threads'| == |threads|
  {
    if |threads| > 0 && threads[MASTER].Blocked? then threads[MASTER := Blocked(true)] else threads
  }

  function NotifyWorkers(threads: seq<Thread>, chosen: set<nat>): (threads': seq<Thread>)
    ensures |threads'| == |threads|
    ensures forall i | 0 <= i < |threads| ::
              threads'[i] == if i in chosen && threads[i].Blocked? then Blocked(true) else threads[i]
  {
    seq(|threads|, i requires 0 <= i < |threads| =>
      if i in chosen && threads[i].Blocked? then Blocked(true) else threads[i])
  }

  /** One more check of the batch is run, unless a failure is already known. */
  function Executed(th: Thread): Thread
    requires th.Running? && th.at < |th.batch|
  {
    Running(th.batch, th.at + 1, if th.allOk then th.batch[th.at].ok else false)
  }

  predicate WaitsForWork(threads: seq<Thread>, i: nat) {
    0 < i < |threads| && threads[i].Blocked? && !threads[i].notified
  }

  predicate Enabled(s: State, e: Event) {
    && |s.threads| > 0
    && match e
       case CallWait => s.threads[MASTER].Outside?
       case Add(checks) => s.threads[MASTER].Outside? && checks != []
       case Notify(chosen) =>
         && s.threads[MASTER].Notifying?
         && (forall i | i in chosen :: WaitsForWork(s.threads, i))
         && (s.threads[MASTER].all ==> forall i | 0 <= i < |s.threads| && WaitsForWork(s.threads, i) :: i in chosen)
         && (!s.threads[MASTER].all ==>
               |chosen| <= 1 && (chosen == {} ==> forall i | 0 <= i < |s.threads| :: !WaitsForWork(s.threads, i)))
       case Enter(t) =>
         && t < |s.threads|
         && (s.threads[t].Entering? || (s.threads[t].Running? && s.threads[t].at == |s.threads[t].batch|))
       case Exec(t) => t < |s.threads| && s.threads[t].Running? && s.threads[t].at < |s.threads[t].batch|
       case Wake(t) => t < |s.threads| && s.threads[t].Blocked?
       case RequestStop => true
  }

  function Answer(s: State, e: Event): Option<bool>
    requires Enabled(s, e)
  {
    Step(s, e).1
  }

  function Next(s: State, e: Event): State
    requires Enabled(s, e)
  {
    Step(s, e).0
  }

  function Step(s: State, e: Event): (State, Option<bool>)
    requires Enabled(s, e)
  {
    match e
    case CallWait => (s.(threads := s.threads[MASTER := Entering]), None)
    case Add(checks) =>
      (s.(queue := s.queue + checks, nTodo := s.nTodo + |checks|, added := s.added + multiset(checks),
          threads := s.threads[MASTER := Notifying(|checks| != 1)]), None)
    case Notify(chosen) =>
      (s.(threads := NotifyWorkers(s.threads, chosen)[MASTER := Outside]), None)
    case Enter(t) => LoopHead(CleanUp(s, t), t)
    case Exec(t) =>
      (s.(threads := s.threads[t := Executed(s.threads[t])]), None)
    case Wake(t) => LoopHead(s.(nIdle := s.nIdle - 1), t)
    case RequestStop => (s.(stop := true), None)
  }

  // ---- sums over the threads ----

  function Sum(f: Thread -> int, ts: seq<Thread>): int {
    if ts == [] then 0 else f(ts[0]) + Sum(f, ts[1..])
  }

  lemma {:induction false} SumUpdate(f: Thread -> int, ts: seq<Thread>, t: nat, x: Thread)
    requires t < |ts|
    ensures Sum(f, ts[t := x]) == Sum(f, ts) - f(ts[t]) + f(x)
  {
    if t == 0 {
      assert ts[t := x][1..] == ts[1..];
    } else {
      assert ts[t := x][1..] == ts[1..][t - 1 := x];
      SumUpdate(f, ts[1..], t - 1, x);
    }
  }

  lemma {:induction false} SumSame(f: Thread -> int, ts: seq<Thread>, us: seq<Thread>)
    requires |ts| == |us| && forall i | 0 <= i < |ts| :: f(ts[i]) == f(us[i])
    ensures Sum(f, ts) == Sum(f, us)
  {
    if ts != [] {
      SumSame(f, ts[1..], us[1..]);
    }
  }

  lemma {:induction false} SumPositive(f: Thread -> int, ts: seq<Thread>) returns (t: nat)
    requires Sum(f, ts) > 0
    ensures t < |ts| && f(ts[t]) > 0
  {
    if f(ts[0]) > 0 {
      t := 0;
    } else {
      t := SumPositive(f, ts[1..]);
      t := t + 1;
    }
  }

  function Size(th: Thread): int { if th.Running? then |th.batch| else 0 }
  function InLoop(th: Thread): int { if th.Running? || th.Blocked? || th.Stopped? then 1 else 0 }
  function Idle(th: Thread): int { if th.Blocked? then 1 else 0 }
  function Held(th: Thread): multiset<Check> { if th.Running? then multiset(th.batch) else multiset{} }

  /** All checks that some thread holds. */
  function InFlight(ts: seq<Thread>): multiset<Check> {
    if ts == [] then multiset{} else Held(ts[0]) + InFlight(ts[1..])
  }

  /** A thread that held nothing picks up a batch. */
  lemma {:induction false} InFlightGain(ts: seq<Thread>, t: nat, x: Thread)
    requires t < |ts| && Held(ts[t]) == multiset{}
    ensures InFlight(ts[t := x]) == InFlight(ts) + Held(x)
  {
    if t == 0 {
      assert ts[t := x][1..] == ts[1..];
    } else {
      assert ts[t := x][1..] == ts[1..][t - 1 := x];
      InFlightGain(ts[1..], t - 1, x);
    }
  }

  lemma TakeShift(queue: multiset<Check>, rest: multiset<Check>, batch: multiset<Check>,
                  flight: multiset<Check>, done: multiset<Check>)
    requires queue == rest + batch
    ensures queue + flight + done == rest + (flight + batch) + done
  {
  }

  lemma FinishShift(queue: multiset<Check>, flight: multiset<Check>, done: multiset<Check>, batch: multiset<Check>)
    ensures queue + (flight + batch) + done == queue + flight + (done + batch)
  {
  }

  lemma {:induction false} InFlightSame(ts: seq<Thread>, us: seq<Thread>)
    requires |ts| == |us| && forall i | 0 <= i < |ts| :: Held(ts[i]) == Held(us[i])
    ensures InFlight(ts) == InFlight(us)
  {
    if ts != [] {
      InFlightSame(ts[1..], us[1..]);
    }
  }

  // ---- the invariant ----

  ghost predicate SomeBad(checks: multiset<Check>) { exists c :: c in checks && !c.ok }

  ghost predicate AllGood(checks: multiset<Check>) { forall c :: c in checks ==> c.ok }

  /** What a thread's own data says about the checks of the round. */
  ghost predicate ThreadOk(th: Thread, isMaster: bool, added: multiset<Check>) {
    && (isMaster || (!th.Outside? && !th.Notifying?))
    && (th.Running? ==>
          && 0 < |th.batch| && th.at <= |th.batch|
          && (th.allOk ==> forall i | 0 <= i < th.at :: th.batch[i].ok)
          && (!th.allOk ==> SomeBad(added)))
  }

  ghost predicate ThreadsOk(ts: seq<Thread>, added: multiset<Check>) {
    |ts| > 0 && forall t | 0 <= t < |ts| :: ThreadOk(ts[t], t == MASTER, added)
  }

  /** Everything added is queued, held by a thread, or finished; and what is left is counted. */
  ghost predicate Conserved(s: State, ts: seq<Thread>) {
    && s.added == multiset(s.queue) + InFlight(ts) + s.finished
    && s.nTodo == |s.queue| + Sum(Size, ts)
  }

  ghost predicate VerdictOk(s: State) {
    && (s.allOk ==> AllGood(s.finished))
    && (!s.allOk ==> SomeBad(s.added))
  }

  /** The master waits only on an empty queue, and is notified by the time nothing is left to do. */
  ghost predicate MasterOk(s: State)
    requires |s.threads| > 0
  {
    s.threads[MASTER].Blocked? ==> s.queue == [] && (s.threads[MASTER].notified || s.nTodo > 0)
  }

  ghost predicate Inv(s: State) {
    && ThreadsOk(s.threads, s.added) && Conserved(s, s.threads) && VerdictOk(s) && MasterOk(s)
    && s.nTotal == Sum(InLoop, s.threads) && s.nIdle == Sum(Idle, s.threads)
  }

  /** The invariant inside a critical section, where thread t has registered and holds nothing. */
  ghost predicate SectionInv(s: State, t: nat) {
    && t < |s.threads|
    && var others := s.threads[t := Entering];
    && ThreadsOk(others, s.added) && Conserved(s, others) && VerdictOk(s) && (t != MASTER ==> MasterOk(s))
    && s.nTotal == 1 + Sum(InLoop, others) && s.nIdle == Sum(Idle, others)
  }

  lemma RegisterInv(s: State, t: nat)
    requires Inv(s) && t < |s.threads| && s.threads[t].Entering?
    ensures SectionInv(CleanUp(s, t), t)
  {
    assert s.threads[t := Entering] == s.threads;
  }

  lemma WokenInv(s: State, t: nat)
    requires Inv(s) && t < |s.threads| && s.threads[t].Blocked?
    ensures SectionInv(s.(nIdle := s.nIdle - 1), t)
  {
    hide Sum; hide InFlight;
    var others := s.threads[t := Entering];
    SumSame(Size, s.threads, others);
    SumUpdate(InLoop, s.threads, t, Entering);
    SumUpdate(Idle, s.threads, t, Entering);
    InFlightSame(s.threads, others);
  }

  lemma AccountInv(s: State, t: nat)
    requires Inv(s) && t < |s.threads|
    requires s.threads[t].Running? && s.threads[t].at == |s.threads[t].batch|
    ensures var s' := Account(s, s.threads[t]);
            Conserved(s', s.threads[t := Entering]) && VerdictOk(s') && s'.nTodo >= 0
  {
    var th, others := s.threads[t], s.threads[t := Entering];
    SumUpdate(Size, s.threads, t, Entering);
    SumNonnegative(Size, others);
    assert others[t := th] == s.threads;
    InFlightGain(others, t, th);
    FinishShift(multiset(s.queue), InFlight(others), s.finished, multiset(th.batch));
    assert ThreadOk(th, t == MASTER, s.added);
    assert forall c :: c in multiset(th.batch) <==> c in th.batch;
  }

  /** Two threads that count the same in every sum. */
  predicate Alike(a: Thread, b: Thread) {
    Size(a) == Size(b) && InLoop(a) == InLoop(b) && Idle(a) == Idle(b) && Held(a) == Held(b)
  }

  lemma Neutral(ts: seq<Thread>, us: seq<Thread>)
    requires |ts| == |us| && forall i | 0 <= i < |ts| :: Alike(ts[i], us[i])
    ensures Sum(Size, us) == Sum(Size, ts) && Sum(InLoop, us) == Sum(InLoop, ts) && Sum(Idle, us) == Sum(Idle, ts)
    ensures InFlight(us) == InFlight(ts)
  {
    SumSame(Size, ts, us);
    SumSame(InLoop, ts, us);
    SumSame(Idle, ts, us);
    InFlightSame(ts, us);
  }

  lemma FinishedInv(s: State, t: nat)
    requires Inv(s) && t < |s.threads|
    requires s.threads[t].Running? && s.threads[t].at == |s.threads[t].batch|
    ensures SectionInv(CleanUp(s, t), t)
  {
    hide Sum; hide InFlight;
    AccountInv(s, t);
    var others := s.threads[t := Entering];
    var s' := Account(s, s.threads[t]);
    SumUpdate(InLoop, s.threads, t, Entering);
    SumUpdate(Idle, s.threads, t, Entering);
    assert ThreadsOk(others, s.added);
    if s'.nTodo == 0 && t != MASTER {
      Neutral(others, NotifyMaster(others));
      assert NotifyMaster(s.threads)[t := Entering] == NotifyMaster(others);
    }
  }

  lemma SumNonnegative(f: Thread -> int, ts: seq<Thread>)
    requires forall i | 0 <= i < |ts| :: f(ts[i]) >= 0
    ensures Sum(f, ts) >= 0
  {
  }

  lemma TakeInv(s: State, t: nat)
    requires SectionInv(s, t) && s.queue != [] && !s.stop
    ensures Inv(LoopHead(s, t).0)
  {
    var others := s.threads[t := Entering];
    var s' := LoopHead(s, t).0;
    var x := s'.threads[t];
    assert s'.threads == others[t := x];
    SumUpdate(Size, others, t, x);
    SumUpdate(InLoop, others, t, x);
    SumUpdate(Idle, others, t, x);
    InFlightGain(others, t, x);
    assert s.queue == s'.queue + x.batch;
    TakeShift(multiset(s.queue), multiset(s'.queue), multiset(x.batch), InFlight(others), s.finished);
  }

  lemma {:induction false} NothingInFlight(ts: seq<Thread>)
    requires Sum(Size, ts) == 0
    ensures InFlight(ts) == multiset{} && forall i | 0 <= i < |ts| :: Size(ts[i]) == 0
  {
    if ts != [] {
      SumNonnegative(Size, ts[1..]);
      NothingInFlight(ts[1..]);
      assert forall i | 0 < i < |ts| :: ts[i] == ts[1..][i - 1];
    }
  }

  lemma BlockInv(s: State, t: nat)
    requires SectionInv(s, t) && s.queue == [] && !s.stop && !(t == MASTER && s.nTodo == 0)
    ensures Inv(LoopHead(s, t).0)
  {
    hide Sum; hide InFlight;
    var others := s.threads[t := Entering];
    var s' := LoopHead(s, t).0;
    assert s'.threads == others[t := Blocked(false)];
    SumSame(Size, others, s'.threads);
    SumNonnegative(Size, others);
    SumUpdate(InLoop, others, t, Blocked(false));
    SumUpdate(Idle, others, t, Blocked(false));
    InFlightSame(others, s'.threads);
  }

  lemma StopInv(s: State, t: nat)
    requires SectionInv(s, t) && s.stop
    ensures Inv(LoopHead(s, t).0)
  {
    var others := s.threads[t := Entering];
    var s' := LoopHead(s, t).0;
    assert s'.threads == others[t := Stopped];
    SumSame(Size, others, s'.threads);
    SumUpdate(InLoop, others, t, Stopped);
    SumSame(Idle, others, s'.threads);
    InFlightSame(others, s'.threads);
  }

  lemma ReturnInv(s: State)
    requires SectionInv(s, MASTER) && s.queue == [] && !s.stop && s.nTodo == 0
    ensures Inv(LoopHead(s, MASTER).0)
  {
    var others := s.threads[MASTER := Entering];
    var s' := LoopHead(s, MASTER).0;
    assert s'.threads == others[MASTER := Outside];
    NothingInFlight(others);
    SumSame(Size, others, s'.threads);
    SumSame(InLoop, others, s'.threads);
    SumSame(Idle, others, s'.threads);
    InFlightSame(others, s'.threads);
    forall t | 0 <= t < |s'.threads|
      ensures ThreadOk(s'.threads[t], t == MASTER, multiset{})
    {
      assert ThreadOk(others[t], t == MASTER, s.added);
      assert Size(others[t]) == 0;
    }
  }

  lemma SectionStep(s: State, t: nat)
    requires SectionInv(s, t)
    ensures Inv(LoopHead(s, t).0)
  {
    if s.stop {
      StopInv(s, t);
    } else if s.queue != [] {
      TakeInv(s, t);
    } else if t == MASTER && s.nTodo == 0 {
      ReturnInv(s);
    } else {
      BlockInv(s, t);
    }
  }

  lemma AddInv(s: State, checks: seq<Check>)
    requires Inv(s) && Enabled(s, Add(checks))
    ensures Inv(Next(s, Add(checks)))
  {
    var s' := Next(s, Add(checks));
    SumSame(Size, s.threads, s'.threads);
    SumSame(InLoop, s.threads, s'.threads);
    SumSame(Idle, s.threads, s'.threads);
    InFlightSame(s.threads, s'.threads);
    AddShift(multiset(s.queue), InFlight(s.threads), s.finished, multiset(checks));
    assert multiset(s.queue + checks) == multiset(s.queue) + multiset(checks);
    forall t | 0 <= t < |s'.threads|
      ensures ThreadOk(s'.threads[t], t == MASTER, s'.added)
    {
      assert ThreadOk(s.threads[t], t == MASTER, s.added);
      MoreIsStillBad(s.added, multiset(checks));
    }
  }

  lemma MoreIsStillBad(a: multiset<Check>, b: multiset<Check>)
    ensures SomeBad(a) ==> SomeBad(a + b)
  {
    if SomeBad(a) {
      var c :| c in a && !c.ok;
      assert c in a + b;
    }
  }

  lemma AddShift(queue: multiset<Check>, flight: multiset<Check>, done: multiset<Check>, more: multiset<Check>)
    ensures queue + flight + done + more == (queue + more) + flight + done
  {
  }

  lemma ExecThreadOk(s: State, t: nat)
    requires Inv(s) && Enabled(s, Exec(t))
    ensures ThreadOk(Executed(s.threads[t]), t == MASTER, s.added)
  {
    var th := s.threads[t];
    assert ThreadOk(th, t == MASTER, s.added);
    if th.allOk && !th.batch[th.at].ok {
      InFlightHas(s.threads, t, th.batch[th.at]);
      assert th.batch[th.at] in s.added;
    }
  }

  lemma ExecInv(s: State, t: nat)
    requires Inv(s) && Enabled(s, Exec(t))
    ensures Inv(Next(s, Exec(t)))
  {
    hide Sum; hide InFlight;
    ExecThreadOk(s, t);
    assert Alike(s.threads[t], Executed(s.threads[t]));
    Neutral(s.threads, Next(s, Exec(t)).threads);
  }

  lemma {:induction false} InFlightHas(ts: seq<Thread>, t: nat, c: Check)
    requires t < |ts| && c in Held(ts[t])
    ensures c in InFlight(ts)
  {
    if t > 0 {
      InFlightHas(ts[1..], t - 1, c);
    }
  }

  lemma OutsideInv(s: State, e: Event)
    requires Inv(s) && Enabled(s, e) && (e.CallWait? || e.RequestStop?)
    ensures Inv(Next(s, e))
  {
    Neutral(s.threads, Next(s, e).threads);
  }

  lemma NotifyInv(s: State, chosen: set<nat>)
    requires Inv(s) && Enabled(s, Notify(chosen))
    ensures Inv(Next(s, Notify(chosen)))
  {
    var s' := Next(s, Notify(chosen));
    Neutral(s.threads, s'.threads);
    forall t | 0 <= t < |s'.threads|
      ensures ThreadOk(s'.threads[t], t == MASTER, s'.added)
    {
      assert ThreadOk(s.threads[t], t == MASTER, s.added);
    }
  }

  lemma EnterInv(s: State, t: nat)
    requires Inv(s) && Enabled(s, Enter(t))
    ensures Inv(Next(s, Enter(t)))
  {
    if s.threads[t].Entering? {
      RegisterInv(s, t);
    } else {
      FinishedInv(s, t);
    }
    SectionStep(CleanUp(s, t), t);
  }

  lemma WakeInv(s: State, t: nat)
    requires Inv(s) && Enabled(s, Wake(t))
    ensures Inv(Next(s, Wake(t)))
  {
    WokenInv(s, t);
    var s' := s.(nIdle := s.nIdle - 1);
    SectionStep(s', t);
    assert Next(s, Wake(t)) == LoopHead(s', t).0;
  }

  /** Every step of every thread keeps the invariant. */
  lemma StepInv(s: State, e: Event)
    requires Inv(s) && Enabled(s, e)
    ensures Inv(Next(s, e))
  {
    match e
    case Enter(t) => EnterInv(s, t);
    case Wake(t) => WakeInv(s, t);
    case Exec(t) => ExecInv(s, t);
    case Add(checks) => AddInv(s, checks);
    case Notify(chosen) => NotifyInv(s, chosen);
    case CallWait => OutsideInv(s, e);
    case RequestStop => OutsideInv(s, e);
  }

  // ---- whole runs ----

  predicate IsRun(s: State, es: seq<Event>)
    decreases |es|
  {
    es != [] ==> Enabled(s, es[0]) && IsRun(Next(s, es[0]), es[1..])
  }

  function After(s: State, es: seq<Event>): State
    requires IsRun(s, es)
    decreases |es|
  {
    if es == [] then s else After(Next(s, es[0]), es[1..])
  }

  /** The checks added in a run since the master was last answered, read off the events alone. */
  function AddedSince(s: State, es: seq<Event>, before: multiset<Check>): multiset<Check>
    requires IsRun(s, es)
    decreases |es|
  {
    if es == [] then before else AddedSince(Next(s, es[0]), es[1..], AddedBy(s, es[0], before))
  }

  function AddedBy(s: State, e: Event, before: multiset<Check>): multiset<Check>
    requires Enabled(s, e)
  {
    if e.Add? then before + multiset(e.checks) else if Answer(s, e).Some? then multiset{} else before
  }

  lemma {:induction false} InitInv(workers: nat, batchSize: nat)
    ensures Inv(Init(workers, batchSize))
  {
    var ts := Init(workers, batchSize).threads;
    AllZero(Size, ts);
    AllZero(InLoop, ts);
    AllZero(Idle, ts);
    NothingInFlight(ts);
  }

  lemma AllZero(f: Thread -> int, ts: seq<Thread>)
    requires forall i | 0 <= i < |ts| :: f(ts[i]) == 0
    ensures Sum(f, ts) == 0
  {
  }

  lemma StepAdded(s: State, e: Event)
    requires Enabled(s, e)
    ensures Next(s, e).added == AddedBy(s, e, s.added)
  {
    match e
    case Enter(t) =>
      LoopHeadAdded(CleanUp(s, t), t);
      CleanUpAdded(s, t);
      hide LoopHead; hide CleanUp;
    case Wake(t) =>
      LoopHeadAdded(s.(nIdle := s.nIdle - 1), t);
      hide LoopHead;
    case _ =>
  }

  lemma LoopHeadAdded(s: State, t: nat)
    requires t < |s.threads|
    ensures LoopHead(s, t).0.added == if LoopHead(s, t).1.Some? then multiset{} else s.added
  {
  }

  lemma CleanUpAdded(s: State, t: nat)
    requires t < |s.threads|
    ensures CleanUp(s, t).added == s.added && |CleanUp(s, t).threads| == |s.threads|
  {
  }

  lemma {:induction false} RunInv(s: State, es: seq<Event>)
    requires Inv(s) && IsRun(s, es)
    ensures Inv(After(s, es))
    ensures After(s, es).added == AddedSince(s, es, s.added)
    decreases |es|
  {
    if es != [] {
      var s' := Next(s, es[0]);
      StepInv(s, es[0]);
      StepAdded(s, es[0]);
      RunInv(s', es[1..]);
    }
  }

  predicate Clean(s: State) {
    && s.queue == [] && s.nTodo == 0 && s.allOk && s.added == multiset{} && s.finished == multiset{}
    && forall t | 0 <= t < |s.threads| :: !s.threads[t].Running?
  }

  lemma AnswerAtReturn(s: State)
    requires SectionInv(s, MASTER) && s.queue == [] && !s.stop && s.nTodo == 0
    ensures s.allOk <==> AllGood(s.added)
    ensures Clean(LoopHead(s, MASTER).0)
  {
    var others := s.threads[MASTER := Entering];
    NothingInFlight(others);
    assert s.added == s.finished;
    forall t | 0 < t < |others|
      ensures !others[t].Running?
    {
      assert ThreadOk(others[t], t == MASTER, s.added) && Size(others[t]) == 0;
    }
  }

  /** The answer that a step gives, if it gives one, is the conjunction of all checks added since
      the previous answer, and the next round starts clean. */
  lemma AnswerOfStep(s: State, e: Event)
    requires Inv(s) && Enabled(s, e) && Answer(s, e).Some?
    ensures !s.stop && (e == Enter(MASTER) || e == Wake(MASTER))
    ensures Answer(s, e).value <==> AllGood(s.added)
    ensures Clean(Next(s, e))
  {
    if e.Enter? {
      if s.threads[e.t].Entering? {
        RegisterInv(s, e.t);
      } else {
        FinishedInv(s, e.t);
      }
      AnswerAtReturn(CleanUp(s, e.t));
    } else {
      WokenInv(s, e.t);
      AnswerAtReturn(s.(nIdle := s.nIdle - 1));
    }
  }

  /** For any number of workers, any batch size and any interleaving: whenever the master gets an
      answer, it is true exactly when every check added since the previous answer is true. */
  lemma AnswerIsVerdict(workers: nat, batchSize: nat, es: seq<Event>, e: Event)
    requires IsRun(Init(workers, batchSize), es)
    requires Enabled(After(Init(workers, batchSize), es), e)
    requires Answer(After(Init(workers, batchSize), es), e).Some?
    ensures var s := After(Init(workers, batchSize), es);
            && (Answer(s, e).value <==> AllGood(AddedSince(Init(workers, batchSize), es, multiset{})))
            && Clean(Next(s, e))
  {
    InitInv(workers, batchSize);
    RunInv(Init(workers, batchSize), es);
    AnswerOfStep(After(Init(workers, batchSize), es), e);
  }

  // ---- no lost wake-up, and progress ----

  /** While the master waits without a notification there is work in flight, held by a worker. */
  lemma NoLostWakeup(s: State) returns (t: nat)
    requires Inv(s) && s.threads[MASTER] == Blocked(false)
    ensures s.queue == [] && s.nTodo > 0
    ensures 0 < t < |s.threads| && s.threads[t].Running?
  {
    t := SumPositive(Size, s.threads);
  }

  /** The worker that finishes the last piece of work notifies a waiting master. */
  lemma LastWorkerNotifies(s: State, t: nat)
    requires Inv(s) && 0 < t && Enabled(s, Enter(t)) && s.threads[t].Running?
    requires s.threads[MASTER].Blocked? && Next(s, Enter(t)).nTodo == 0
    ensures Next(s, Enter(t)).threads[MASTER] == Blocked(true)
  {
    hide Sum; hide InFlight; hide ThreadsOk; hide VerdictOk; hide BatchNow;
    FinishedInv(s, t);
  }

  predicate InWait(s: State) {
    |s.threads| > 0 && (s.threads[MASTER].Entering? || s.threads[MASTER].Running? || s.threads[MASTER].Blocked?)
  }

  /** A wake-up without notification that finds nothing to do. */
  predicate IdleWake(s: State, e: Event)
    requires Enabled(s, e)
  {
    e.Wake? && !s.threads[e.t].notified && Next(s, e).threads[e.t].Blocked?
  }

  /** As long as the master is in Wait and no stop is requested, some thread can do something
      that is not a spurious wake-up. */
  lemma Progress(s: State) returns (e: Event)
    requires Inv(s) && InWait(s) && !s.stop
    ensures Enabled(s, e) && (e.Enter? || e.Exec? || (e.Wake? && s.threads[e.t].notified))
  {
    var t := MASTER;
    if s.threads[MASTER] == Blocked(false) {
      t := NoLostWakeup(s);
    }
    assert ThreadOk(s.threads[t], t == MASTER, s.added);
    e := match s.threads[t]
      case Running(batch, at, _) => if at < |batch| then Exec(t) else Enter(t)
      case Blocked(_) => Wake(t)
      case _ => Enter(t);
  }

  function Weight(th: Thread): int {
    match th
    case Running(batch, at, _) => 3 * (|batch| - at) + 2
    case Entering => 1
    case Blocked(notified) => if notified then 1 else 0
    case _ => 0
  }

  /** How much is left to do, at most, before the master is answered. */
  function Remaining(s: State): int { 6 * |s.queue| + Sum(Weight, s.threads) }

  lemma LoopHeadWork(s: State, t: nat)
    requires t < |s.threads| && !s.stop
    ensures s.queue == [] ==> Remaining(LoopHead(s, t).0) == Remaining(s) - Weight(s.threads[t])
    ensures s.queue != [] ==> Remaining(LoopHead(s, t).0) <= Remaining(s) - Weight(s.threads[t]) - 1
  {
    SumUpdate(Weight, s.threads, t, LoopHead(s, t).0.threads[t]);
  }

  lemma CleanUpWork(s: State, t: nat)
    requires Inv(s) && Enabled(s, Enter(t))
    ensures var s' := CleanUp(s, t);
            && s'.queue == s.queue && s'.stop == s.stop && s'.threads[t] == s.threads[t]
            && Remaining(s') <= Remaining(s) + Weight(s.threads[t]) - 1
  {
    hide Inv; hide Sum;
    var s' := CleanUp(s, t);
    if s'.threads != s.threads {
      SumUpdate(Weight, s.threads, MASTER, Blocked(true));
    }
  }

  lemma EnterWorks(s: State, t: nat)
    requires Inv(s) && Enabled(s, Enter(t)) && !s.stop
    ensures Remaining(Next(s, Enter(t))) < Remaining(s)
  {
    CleanUpWork(s, t);
    LoopHeadWork(CleanUp(s, t), t);
  }

  lemma ExecWorks(s: State, t: nat)
    requires Enabled(s, Exec(t))
    ensures Remaining(Next(s, Exec(t))) < Remaining(s)
  {
    SumUpdate(Weight, s.threads, t, Executed(s.threads[t]));
  }

  lemma WakeWorks(s: State, t: nat)
    requires Inv(s) && Enabled(s, Wake(t)) && !s.stop
    ensures if IdleWake(s, Wake(t)) then Remaining(Next(s, Wake(t))) == Remaining(s)
            else Remaining(Next(s, Wake(t))) < Remaining(s)
  {
    hide Sum; hide BatchNow; hide InFlight; hide ThreadsOk; hide VerdictOk; hide Conserved;
    LoopHeadWork(s.(nIdle := s.nIdle - 1), t);
  }

  /** Every step of a thread brings the answer closer, except an idle spurious wake-up, which
      changes nothing. */
  lemma StepWorks(s: State, e: Event)
    requires Inv(s) && Enabled(s, e) && !s.stop
    requires e.Enter? || e.Exec? || e.Wake?
    ensures if IdleWake(s, e) then Remaining(Next(s, e)) == Remaining(s)
            else Remaining(Next(s, e)) < Remaining(s)
    ensures !Next(s, e).stop
  {
    match e
    case Enter(t) => EnterWorks(s, t);
    case Exec(t) => ExecWorks(s, t);
    case Wake(t) => WakeWorks(s, t);
  }

  /** Runs in which only the threads of the loop move. */
  predicate ThreadRun(s: State, es: seq<Event>)
    decreases |es|
  {
    es != [] ==>
      && Enabled(s, es[0]) && (es[0].Enter? || es[0].Exec? || es[0].Wake?)
      && ThreadRun(Next(s, es[0]), es[1..])
  }

  function Productive(s: State, es: seq<Event>): nat
    requires ThreadRun(s, es)
    decreases |es|
  {
    if es == [] then 0 else (if IdleWake(s, es[0]) then 0 else 1) + Productive(Next(s, es[0]), es[1..])
  }

  lemma WorkIsNatural(s: State)
    requires Inv(s)
    ensures Remaining(s) >= 0
  {
    forall t | 0 <= t < |s.threads|
      ensures Weight(s.threads[t]) >= 0
    {
      assert ThreadOk(s.threads[t], t == MASTER, s.added);
    }
    SumNonnegative(Weight, s.threads);
  }

  /** No schedule can keep the threads busy for ever: the steps that are not idle wake-ups are
      bounded by the work at hand. */
  lemma {:induction false} BoundedWork(s: State, es: seq<Event>)
    requires Inv(s) && !s.stop && ThreadRun(s, es)
    ensures Productive(s, es) <= Remaining(s)
    decreases |es|
  {
    if es == [] {
      WorkIsNatural(s);
    } else {
      var s' := Next(s, es[0]);
      StepInv(s, es[0]);
      StepWorks(s, es[0]);
      BoundedWork(s', es[1..]);
    }
  }

  function End(s: State, es: seq<Event>): State
    requires ThreadRun(s, es)
    decreases |es|
  {
    if es == [] then s else End(Next(s, es[0]), es[1..])
  }

  /** Some step of the run gives the master its answer. */
  predicate Answered(s: State, es: seq<Event>)
    requires ThreadRun(s, es)
    decreases |es|
  {
    es != [] && (Answer(s, es[0]).Some? || Answered(Next(s, es[0]), es[1..]))
  }

  /** A step of a thread that is not an idle wake-up. */
  predicate Useful(s: State, e: Event) {
    Enabled(s, e) && (e.Enter? || e.Exec? || e.Wake?) && !IdleWake(s, e)
  }

  lemma LoopHeadStays(s: State, t: nat)
    requires InWait(s) && !s.stop && t < |s.threads|
    ensures LoopHead(s, t).1.Some? || InWait(LoopHead(s, t).0)
  {
  }

  lemma CleanUpStays(s: State, t: nat)
    requires InWait(s) && t < |s.threads|
    ensures InWait(CleanUp(s, t)) && CleanUp(s, t).stop == s.stop && |CleanUp(s, t).threads| == |s.threads|
  {
  }

  /** The master leaves Wait only with an answer. */
  lemma StaysInWait(s: State, e: Event)
    requires InWait(s) && !s.stop && Enabled(s, e) && (e.Enter? || e.Exec? || e.Wake?)
    ensures Answer(s, e).Some? || InWait(Next(s, e))
  {
    hide BatchNow;
    match e
    case Enter(t) =>
      CleanUpStays(s, t);
      LoopHeadStays(CleanUp(s, t), t);
      hide LoopHead; hide CleanUp; hide InWait;
    case Exec(t) =>
    case Wake(t) =>
      LoopHeadStays(s.(nIdle := s.nIdle - 1), t);
      hide LoopHead;
  }

  /** A call of Wait is answered under every schedule that does not consist of idle wake-ups from
      some point on: until it is answered some thread can take a useful step, and no schedule has
      more of them than the work at hand. */
  lemma {:induction false} WaitIsAnswered(s: State, es: seq<Event>) returns (e: Event)
    requires Inv(s) && InWait(s) && !s.stop && ThreadRun(s, es)
    ensures Productive(s, es) <= Remaining(s)
    ensures Answered(s, es) || Useful(End(s, es), e)
    decreases |es|
  {
    BoundedWork(s, es);
    if es == [] {
      e := Progress(s);
    } else {
      StepInv(s, es[0]);
      StepWorks(s, es[0]);
      StaysInWait(s, es[0]);
      if Answer(s, es[0]).Some? {
        e := es[0];
      } else {
        e := WaitIsAnswered(Next(s, es[0]), es[1..]);
      }
    }
  }
}
