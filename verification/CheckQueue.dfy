/**
 The verification queue of src/checkqueue.h as a system of interleaved steps.

 One master and any number of workers run the same loop. Everything between taking and releasing
 the mutex is one step; every check executed outside the mutex is a step of its own, so a run is an
 arbitrary interleaving at the granularity the mutex allows. Condition variables may also wake
 without a notification.
*/
module CheckQueue {

  /** A verification: `passes` is what its operator() returns. */
  datatype Check = Check(id: nat, passes: bool)

  /**
   Where a thread is:
   Outside           not in Loop (a worker not started yet, or the master between two calls of Wait);
   Running           executing its batch; once next == |batch| it is about to take the mutex again;
   Waiting           blocked on its condition variable;
   Woken             notified, about to re-acquire the mutex inside wait.
  */
  datatype Thread =
    | Outside
    | Running(batch: seq<Check>, next: nat, fOk: bool)
    | Waiting
    | Woken

  datatype Tid = Master | Worker(i: nat)

  datatype State = State(
    queue: seq<Check>,
    nIdle: int,
    nTotal: int,
    fAllOk: bool,
    nTodo: int,
    nBatchSize: nat,
    master: Thread,
    workers: seq<Thread>
  )

  datatype Step =
    | Add(checks: seq<Check>, notified: nat)
    | Lock(t: Tid)
    | Wake(t: Tid)
    | Execute(t: Tid)
    | Spurious(t: Tid)

  /** A finished call of Wait: the checks added since the previous one, and what it returned. */
  datatype Outcome = Outcome(round: seq<Check>, fRet: bool)

  /** What an observer of the run has seen; no step reads it. */
  datatype History = History(added: seq<Check>, done: seq<Check>, outcomes: seq<Outcome>)

  // ---------------------------------------------------------------- the steps

  predicate Exists(s: State, t: Tid) {
    t.Worker? ==> t.i < |s.workers|
  }

  function Get(s: State, t: Tid): Thread
    requires Exists(s, t)
  {
    match t
    case Master => s.master
    case Worker(i) => s.workers[i]
  }

  function Set(s: State, t: Tid, th: Thread): State
    requires Exists(s, t)
  {
    match t
    case Master => s.(master := th)
    case Worker(i) => s.(workers := s.workers[i := th])
  }

  predicate AtLock(th: Thread) {
    th.Outside? || (th.Running? && th.next >= |th.batch|)
  }

  predicate NoneWaiting(ws: seq<Thread>) {
    forall i | 0 <= i < |ws| :: !ws[i].Waiting?
  }

  predicate Enabled(s: State, step: Step) {
    match step
    case Add(checks, notified) =>
      // only the master adds, and not while it is inside Wait; notify_one picks a waiting worker if any
      && s.master.Outside?
      && (|checks| == 1 && !NoneWaiting(s.workers) ==> notified < |s.workers| && s.workers[notified].Waiting?)
    case Lock(t) => Exists(s, t) && AtLock(Get(s, t))
    case Wake(t) => Exists(s, t) && Get(s, t).Woken?
    case Execute(t) => Exists(s, t) && Get(s, t).Running? && Get(s, t).next < |Get(s, t).batch|
    case Spurious(t) => Exists(s, t) && Get(s, t).Waiting?
  }

  function NotifyAll(ws: seq<Thread>): (r: seq<Thread>)
    ensures |r| == |ws|
    ensures forall i | 0 <= i < |ws| :: r[i] == if ws[i].Waiting? then Woken else ws[i]
  {
    seq(|ws|, i requires 0 <= i < |ws| => if ws[i].Waiting? then Woken else ws[i])
  }

  /** CCheckQueue::Add */
  function AddChecks(s: State, checks: seq<Check>, notified: nat): State
    requires Enabled(s, Add(checks, notified))
  {
    var s1 := s.(queue := s.queue + checks, nTodo := s.nTodo + |checks|);
    if |checks| == 1 && !NoneWaiting(s.workers) then s1.(workers := s.workers[notified := Woken])
    else if |checks| > 1 then s1.(workers := NotifyAll(s.workers))
    else s1
  }

  /** The clean-up of the previous loop run, or the registration of a thread that enters the loop. */
  function CleanUp(s: State, t: Tid): State
    requires Exists(s, t)
  {
    var th := Get(s, t);
    if th.Running? then
      var s1 := s.(fAllOk := s.fAllOk && th.fOk, nTodo := s.nTodo - |th.batch|);
      if s1.nTodo == 0 && t != Master && s.master.Waiting? then s1.(master := Woken) else s1
    else
      s.(nTotal := s.nTotal + 1)
  }

  /** The divisor nTotal + nIdle + 1 of the batch size; it is positive in every reachable state. */
  function Divisor(s: State): (d: int)
    ensures d >= 1
  {
    if s.nTotal + s.nIdle + 1 >= 1 then s.nTotal + s.nIdle + 1 else 1
  }

  lemma ShareBound(n: nat, d: int, k: nat)
    requires d >= 1
    ensures 0 <= n / d <= n
    ensures k <= n / d ==> k * d <= n
    ensures k >= n / d ==> n < (k + 1) * d
  {
    var q := n / d;
    assert n == q * d + n % d;
    if k <= q {
      assert k * d <= q * d;
    }
    if k >= q {
      assert (k + 1) * d >= (q + 1) * d;
    }
  }

  function BatchSize(s: State): (n: nat)
    requires s.queue != []
    ensures 1 <= n <= |s.queue|
    ensures n <= s.nBatchSize || n == 1
  {
    ShareBound(|s.queue|, Divisor(s), 1);
    var share := |s.queue| / Divisor(s);
    var capped := if s.nBatchSize < share then s.nBatchSize else share;
    if capped < 1 then 1 else capped
  }

  /** A batch is an equal share among the threads in the loop, the idle ones counted twice, and one more. */
  lemma BatchShare(s: State)
    requires s.queue != []
    ensures BatchSize(s) == 1 || BatchSize(s) * Divisor(s) <= |s.queue|
    ensures BatchSize(s) >= s.nBatchSize || |s.queue| < (BatchSize(s) + 1) * Divisor(s)
  {
    ShareBound(|s.queue|, Divisor(s), BatchSize(s));
  }

  /** The last n elements of the queue, in the order pop_back takes them. */
  function Popped(q: seq<Check>, n: nat): (r: seq<Check>)
    requires n <= |q|
    ensures |r| == n
  {
    if n == 0 then [] else [q[|q| - 1]] + Popped(q[..|q| - 1], n - 1)
  }

  /** Wait returns fAllOk once nothing is left to do. */
  predicate Returns(s: State, t: Tid) {
    s.queue == [] && t == Master && s.nTodo == 0
  }

  /** From the top of the inner while loop: return, go to sleep, or take a batch. */
  function Proceed(s: State, t: Tid): State
    requires Exists(s, t)
  {
    if Returns(s, t) then
      s.(nTotal := s.nTotal - 1, fAllOk := true, master := Outside)
    else if s.queue == [] then
      Set(s.(nIdle := s.nIdle + 1), t, Waiting)
    else
      var n := BatchSize(s);
      Set(s.(queue := s.queue[..|s.queue| - n]), t, Running(Popped(s.queue, n), 0, s.fAllOk))
  }

  function ExecuteOne(th: Thread): Thread
    requires th.Running? && th.next < |th.batch|
  {
    th.(next := th.next + 1, fOk := th.fOk && th.batch[th.next].passes)
  }

  /** The state in which the step reaches the top of the inner while loop. */
  function AtLoopTop(s: State, step: Step): State
    requires Enabled(s, step) && (step.Lock? || step.Wake?)
  {
    if step.Lock? then CleanUp(s, step.t) else s.(nIdle := s.nIdle - 1)
  }

  function Apply(s: State, step: Step): State
    requires Enabled(s, step)
  {
    match step
    case Add(checks, notified) => AddChecks(s, checks, notified)
    case Lock(t) => Proceed(AtLoopTop(s, step), t)
    case Wake(t) => Proceed(AtLoopTop(s, step), t)
    case Execute(t) => Set(s, t, ExecuteOne(Get(s, t)))
    case Spurious(t) => Set(s, t, Woken)
  }

  predicate WaitReturns(s: State, step: Step)
    requires Enabled(s, step)
  {
    (step.Lock? || step.Wake?) && Returns(AtLoopTop(s, step), step.t)
  }

  function Observe(s: State, h: History, step: Step): History
    requires Enabled(s, step)
  {
    if step.Add? then
      h.(added := h.added + step.checks)
    else if step.Lock? || step.Wake? then
      var h1 := if step.Lock? && Get(s, step.t).Running? then h.(done := h.done + Get(s, step.t).batch) else h;
      if WaitReturns(s, step) then
        History([], [], h1.outcomes + [Outcome(h1.added, AtLoopTop(s, step).fAllOk)])
      else h1
    else h
  }

  function Init(nBatchSize: nat, nWorkers: nat): State {
    State([], 0, 0, true, 0, nBatchSize, Outside, seq(nWorkers, _ => Outside))
  }

  const NOTHING_SEEN := History([], [], [])

  // ---------------------------------------------------------------- runs

  predicate Legal(s: State, steps: seq<Step>)
    decreases |steps|
  {
    steps == [] || (Enabled(s, steps[0]) && Legal(Apply(s, steps[0]), steps[1..]))
  }

  function After(s: State, steps: seq<Step>): State
    requires Legal(s, steps)
    decreases |steps|
  {
    if steps == [] then s else After(Apply(s, steps[0]), steps[1..])
  }

  function Seen(s: State, h: History, steps: seq<Step>): History
    requires Legal(s, steps)
    decreases |steps|
  {
    if steps == [] then h else Seen(Apply(s, steps[0]), Observe(s, h, steps[0]), steps[1..])
  }

  function AddedBy(step: Step): seq<Check> {
    if step.Add? then step.checks else []
  }

  /** Every check a sequence of steps adds, in order. */
  function Added(steps: seq<Step>): seq<Check> {
    if steps == [] then []
    else AddedBy(steps[0]) + Added(steps[1..])
  }

  /** The rounds of all finished calls of Wait, one after the other. */
  function Rounds(outcomes: seq<Outcome>): seq<Check> {
    if outcomes == [] then [] else Rounds(outcomes[..|outcomes| - 1]) + outcomes[|outcomes| - 1].round
  }

  // ---------------------------------------------------------------- weights

  /** Any quantity that checks carry: 1 for counting them, 1 or 0 for counting the ones of a kind. */
  type Weight = Check -> int

  function Weigh(cs: seq<Check>, w: Weight): int {
    if cs == [] then 0 else w(cs[0]) + Weigh(cs[1..], w)
  }

  function Carried(th: Thread, w: Weight): int {
    if th.Running? then Weigh(th.batch, w) else 0
  }

  function CarriedBy(ws: seq<Thread>, w: Weight): int {
    if ws == [] then 0 else Carried(ws[0], w) + CarriedBy(ws[1..], w)
  }

  /** The weight of the checks in unfinished batches, the master's included. */
  function InFlight(s: State, w: Weight): int {
    Carried(s.master, w) + CarriedBy(s.workers, w)
  }

  function One(c: Check): int { 1 }
  function Failing(c: Check): int { if c.passes then 0 else 1 }

  predicate AllPass(cs: seq<Check>) {
    forall i | 0 <= i < |cs| :: cs[i].passes
  }

  lemma {:induction false} WeighConcat(a: seq<Check>, b: seq<Check>, w: Weight)
    ensures Weigh(a + b, w) == Weigh(a, w) + Weigh(b, w)
  {
    if a == [] {
      assert a + b == b;
    } else {
      assert (a + b)[1..] == a[1..] + b;
      WeighConcat(a[1..], b, w);
    }
  }

  lemma {:induction false} WeighOne(cs: seq<Check>)
    ensures Weigh(cs, One) == |cs|
  {
    if cs != [] {
      WeighOne(cs[1..]);
    }
  }

  lemma {:induction false} WeighFailing(cs: seq<Check>)
    ensures Weigh(cs, Failing) >= 0
    ensures Weigh(cs, Failing) == 0 <==> AllPass(cs)
  {
    if cs != [] {
      WeighFailing(cs[1..]);
      assert AllPass(cs) <==> cs[0].passes && AllPass(cs[1..]) by {
        assert forall i | 0 < i < |cs| :: cs[i] == cs[1..][i - 1];
      }
    }
  }

  lemma {:induction false} WeighPopped(q: seq<Check>, n: nat, w: Weight)
    requires n <= |q|
    ensures Weigh(q, w) == Weigh(q[..|q| - n], w) + Weigh(Popped(q, n), w)
  {
    if n == 0 {
      assert q[..|q|] == q;
    } else {
      var q1 := q[..|q| - 1];
      assert q == q1 + [q[|q| - 1]];
      WeighConcat(q1, [q[|q| - 1]], w);
      WeighPopped(q1, n - 1, w);
      assert q1[..|q1| - (n - 1)] == q[..|q| - n];
    }
  }

  lemma {:induction false} CarriedUpdate(ws: seq<Thread>, i: nat, th: Thread, w: Weight)
    requires i < |ws|
    ensures CarriedBy(ws[i := th], w) == CarriedBy(ws, w) - Carried(ws[i], w) + Carried(th, w)
  {
    if i == 0 {
      assert ws[i := th][1..] == ws[1..];
    } else {
      assert ws[i := th][1..] == ws[1..][i - 1 := th];
      CarriedUpdate(ws[1..], i - 1, th, w);
    }
  }

  lemma {:induction false} CarriedPointwise(ws: seq<Thread>, vs: seq<Thread>, w: Weight)
    requires |ws| == |vs| && forall i | 0 <= i < |ws| :: Carried(ws[i], w) == Carried(vs[i], w)
    ensures CarriedBy(ws, w) == CarriedBy(vs, w)
  {
    if ws != [] {
      CarriedPointwise(ws[1..], vs[1..], w);
    }
  }

  /** Replacing one thread moves the weight in flight by that thread's share. */
  lemma SetCarried(s: State, t: Tid, th: Thread, w: Weight)
    requires Exists(s, t)
    ensures InFlight(Set(s, t, th), w) == InFlight(s, w) - Carried(Get(s, t), w) + Carried(th, w)
  {
    if t.Worker? {
      CarriedUpdate(s.workers, t.i, th, w);
    }
  }

  // ---------------------------------------------------------------- numbers of threads

  function Tally(ws: seq<Thread>, f: Thread -> int): int {
    if ws == [] then 0 else f(ws[0]) + Tally(ws[1..], f)
  }

  /** The sum of f over the master and all workers. */
  function Threads(s: State, f: Thread -> int): int {
    f(s.master) + Tally(s.workers, f)
  }

  function IdleOf(th: Thread): int { if th.Waiting? || th.Woken? then 1 else 0 }
  function InLoop(th: Thread): int { if th.Outside? then 0 else 1 }

  lemma {:induction false} TallyUpdate(ws: seq<Thread>, i: nat, th: Thread, f: Thread -> int)
    requires i < |ws|
    ensures Tally(ws[i := th], f) == Tally(ws, f) - f(ws[i]) + f(th)
  {
    if i == 0 {
      assert ws[i := th][1..] == ws[1..];
    } else {
      assert ws[i := th][1..] == ws[1..][i - 1 := th];
      TallyUpdate(ws[1..], i - 1, th, f);
    }
  }

  lemma {:induction false} TallyPointwise(ws: seq<Thread>, vs: seq<Thread>, f: Thread -> int)
    requires |ws| == |vs| && forall i | 0 <= i < |ws| :: f(ws[i]) == f(vs[i])
    ensures Tally(ws, f) == Tally(vs, f)
  {
    if ws != [] {
      TallyPointwise(ws[1..], vs[1..], f);
    }
  }

  lemma SetThreads(s: State, t: Tid, th: Thread, f: Thread -> int)
    requires Exists(s, t)
    ensures Threads(Set(s, t, th), f) == Threads(s, f) - f(Get(s, t)) + f(th)
  {
    if t.Worker? {
      TallyUpdate(s.workers, t.i, th, f);
    }
  }

  // ---------------------------------------------------------------- the laws

  /**
   Conservation: of any weight, what the round added is queued, in an unfinished batch, or done.
   With the indicator of one check this says that check is in exactly one of the three places.
  */
  predicate Conserved(s: State, h: History, w: Weight) {
    Weigh(h.added, w) == Weigh(s.queue, w) + InFlight(s, w) + Weigh(h.done, w)
  }

  lemma AddConserves(s: State, h: History, checks: seq<Check>, notified: nat, w: Weight)
    requires Enabled(s, Add(checks, notified))
    ensures Weigh(s.queue + checks, w) == Weigh(s.queue, w) + Weigh(checks, w)
    ensures Weigh(h.added + checks, w) == Weigh(h.added, w) + Weigh(checks, w)
    ensures InFlight(AddChecks(s, checks, notified), w) == InFlight(s, w)
  {
    WeighConcat(s.queue, checks, w);
    WeighConcat(h.added, checks, w);
    CarriedPointwise(s.workers, AddChecks(s, checks, notified).workers, w);
  }

  /** Taking the mutex: the finished batch moves to done, the next one out of the queue. */
  lemma ProceedMoves(s: State, t: Tid, w: Weight)
    requires Exists(s, t)
    ensures var s' := Proceed(s, t);
      Weigh(s'.queue, w) + InFlight(s', w) == Weigh(s.queue, w) + InFlight(s, w) - Carried(Get(s, t), w)
  {
    if Returns(s, t) {
      SetCarried(s, t, Outside, w);
    } else if s.queue == [] {
      SetCarried(s, t, Waiting, w);
    } else {
      var n := BatchSize(s);
      WeighPopped(s.queue, n, w);
      SetCarried(s, t, Running(Popped(s.queue, n), 0, s.fAllOk), w);
    }
  }

  predicate Counts(s: State) {
    && s.nIdle == Threads(s, IdleOf)
    && s.nTotal == Threads(s, InLoop)
    && s.nTodo == Weigh(s.queue, One) + InFlight(s, One)
  }

  /** A thread's own verdict covers what it has executed, or the shared verdict is already negative. */
  predicate SoundBatch(th: Thread, fAllOk: bool) {
    th.Running? ==>
      && 1 <= |th.batch|
      && th.next <= |th.batch|
      && (th.fOk ==> AllPass(th.batch[..th.next]))
      && (!th.fOk && fAllOk ==> !AllPass(th.batch[..th.next]))
  }

  predicate SoundBatches(s: State) {
    && SoundBatch(s.master, s.fAllOk)
    && forall i | 0 <= i < |s.workers| :: SoundBatch(s.workers[i], s.fAllOk)
  }

  /** A master inside Wait sleeps only on an empty queue, and un-notified only while work is left. */
  predicate SleeperSound(s: State) {
    && (s.master.Waiting? ==> s.queue == [] && s.nTodo > 0)
    && (s.master.Woken? ==> s.queue == [])
  }

  /** No wake-up is lost: while checks are queued, not all workers sleep un-notified. */
  predicate Helped(s: State) {
    s.queue != [] && s.workers != [] ==> exists i | 0 <= i < |s.workers| :: !s.workers[i].Waiting?
  }

  predicate Verdicts(s: State, h: History) {
    && (s.fAllOk <==> AllPass(h.done))
    && Conserved(s, h, Failing)
    && forall k | 0 <= k < |h.outcomes| :: h.outcomes[k].fRet <==> AllPass(h.outcomes[k].round)
  }

  predicate Inv(s: State, h: History) {
    Counts(s) && SoundBatches(s) && SleeperSound(s) && Helped(s) && Verdicts(s, h)
  }

  // ---------------------------------------------------------------- consequences of the laws

  lemma {:induction false} CarriedPositive(ws: seq<Thread>, fAllOk: bool)
    requires forall i | 0 <= i < |ws| :: SoundBatch(ws[i], fAllOk)
    ensures CarriedBy(ws, One) >= 0
    ensures CarriedBy(ws, One) == 0 <==> forall i | 0 <= i < |ws| :: !ws[i].Running?
  {
    if ws != [] {
      assert SoundBatch(ws[0], fAllOk);
      if ws[0].Running? { WeighOne(ws[0].batch); }
      var rest := ws[1..];
      assert forall i | 0 <= i < |rest| :: rest[i] == ws[i + 1];
      CarriedPositive(rest, fAllOk);
      assert forall i | 1 <= i < |ws| :: ws[i] == rest[i - 1];
    }
  }

  predicate NobodyRunning(s: State) {
    !s.master.Running? && forall i | 0 <= i < |s.workers| :: !s.workers[i].Running?
  }

  /** Nothing is in flight exactly when no thread holds a batch. */
  lemma InFlightZero(s: State)
    requires SoundBatches(s)
    ensures InFlight(s, One) >= 0
    ensures InFlight(s, One) == 0 <==> NobodyRunning(s)
  {
    if s.master.Running? { WeighOne(s.master.batch); }
    CarriedPositive(s.workers, s.fAllOk);
  }

  lemma {:induction false} CarriedNone(ws: seq<Thread>, w: Weight)
    requires forall i | 0 <= i < |ws| :: !ws[i].Running?
    ensures CarriedBy(ws, w) == 0
  {
    if ws != [] {
      CarriedNone(ws[1..], w);
    }
  }

  // ---------------------------------------------------------------- every step keeps the laws

  lemma {:induction false} OutsideTallies(ws: seq<Thread>)
    requires forall i | 0 <= i < |ws| :: ws[i].Outside?
    ensures Tally(ws, IdleOf) == 0 && Tally(ws, InLoop) == 0
  {
    if ws != [] {
      OutsideTallies(ws[1..]);
    }
  }

  lemma InitInv(nBatchSize: nat, nWorkers: nat)
    ensures Inv(Init(nBatchSize, nWorkers), NOTHING_SEEN)
    ensures forall w: Weight :: Conserved(Init(nBatchSize, nWorkers), NOTHING_SEEN, w)
  {
    var s := Init(nBatchSize, nWorkers);
    OutsideTallies(s.workers);
    forall w: Weight ensures Conserved(s, NOTHING_SEEN, w) {
      CarriedNone(s.workers, w);
    }
    CarriedNone(s.workers, One);
  }

  function WaitingOf(th: Thread): int { if th.Waiting? then 1 else 0 }

  lemma {:induction false} NoneWaitingTally(ws: seq<Thread>)
    ensures Tally(ws, WaitingOf) >= 0
    ensures Tally(ws, WaitingOf) == 0 <==> NoneWaiting(ws)
  {
    if ws != [] {
      NoneWaitingTally(ws[1..]);
      assert NoneWaiting(ws) <==> !ws[0].Waiting? && NoneWaiting(ws[1..]) by {
        assert forall i | 0 < i < |ws| :: ws[i] == ws[1..][i - 1];
      }
    }
  }

  /**
   Whom Add wakes: everyone for two checks or more, one waiting worker (if there is one) for a single check,
   and nobody for none. A worker that does not wait is left alone, and so is the master.
  */
  lemma AddNotifies(s: State, checks: seq<Check>, notified: nat)
    requires Enabled(s, Add(checks, notified))
    ensures var ws := AddChecks(s, checks, notified).workers;
      && |ws| == |s.workers|
      && (forall i | 0 <= i < |ws| :: ws[i] == s.workers[i] || (s.workers[i].Waiting? && ws[i].Woken?))
      && Tally(s.workers, WaitingOf) - Tally(ws, WaitingOf)
         == (if |checks| >= 2 then Tally(s.workers, WaitingOf)
             else if |checks| == 1 && !NoneWaiting(s.workers) then 1 else 0)
    ensures |checks| >= 2 ==> NoneWaiting(AddChecks(s, checks, notified).workers)
    ensures AddChecks(s, checks, notified).master == s.master
  {
    NoneWaitingTally(s.workers);
    NoneWaitingTally(NotifyAll(s.workers));
    if |checks| == 1 && !NoneWaiting(s.workers) {
      TallyUpdate(s.workers, notified, Woken, WaitingOf);
    }
  }

  lemma SetHelps(s: State, t: Tid, th: Thread, q: seq<Check>)
    requires Helped(s) && Exists(s, t) && !th.Waiting? && (s.queue == [] ==> q == [])
    ensures Helped(Set(s.(queue := q), t, th))
  {
    var s' := Set(s.(queue := q), t, th);
    if q != [] && s'.workers != [] {
      var i :| 0 <= i < |s.workers| && !s.workers[i].Waiting?;
      assert !s'.workers[i].Waiting?;
    }
  }

  lemma AddHelps(s: State, checks: seq<Check>, notified: nat)
    requires Helped(s) && Enabled(s, Add(checks, notified))
    ensures Helped(AddChecks(s, checks, notified))
  {
    var ws := AddChecks(s, checks, notified).workers;
    if ws != [] && checks == [] {
      assert s.queue + checks == s.queue;
    } else if ws != [] {
      assert !ws[if |checks| == 1 && !NoneWaiting(s.workers) then notified else 0].Waiting?;
    }
  }

  lemma AddKeepsInv(s: State, h: History, checks: seq<Check>, notified: nat)
    requires Inv(s, h) && Enabled(s, Add(checks, notified))
    ensures Inv(AddChecks(s, checks, notified), h.(added := h.added + checks))
  {
    hide AllPass, Weigh, InFlight;
    var s' := AddChecks(s, checks, notified);
    AddHelps(s, checks, notified);
    TallyPointwise(s.workers, s'.workers, IdleOf);
    TallyPointwise(s.workers, s'.workers, InLoop);
    AddConserves(s, h, checks, notified, One);
    AddConserves(s, h, checks, notified, Failing);
    WeighOne(checks);
  }

  lemma ExecuteOneSound(th: Thread, fAllOk: bool)
    requires th.Running? && th.next < |th.batch| && SoundBatch(th, fAllOk)
    ensures SoundBatch(ExecuteOne(th), fAllOk)
  {
  }

  lemma ExecuteKeepsInv(s: State, h: History, t: Tid)
    requires Inv(s, h) && Enabled(s, Execute(t))
    ensures Inv(Apply(s, Execute(t)), h)
  {
    var th' := ExecuteOne(Get(s, t));
    ExecuteOneSound(Get(s, t), s.fAllOk);
    SetHelps(s, t, th', s.queue);
    SetThreads(s, t, th', IdleOf);
    SetThreads(s, t, th', InLoop);
    SetCarried(s, t, th', One);
    SetCarried(s, t, th', Failing);
  }

  lemma SpuriousKeepsInv(s: State, h: History, t: Tid)
    requires Inv(s, h) && Enabled(s, Spurious(t))
    ensures Inv(Apply(s, Spurious(t)), h)
  {
    SetHelps(s, t, Woken, s.queue);
    SetThreads(s, t, Woken, IdleOf);
    SetThreads(s, t, Woken, InLoop);
    SetCarried(s, t, Woken, One);
    SetCarried(s, t, Woken, Failing);
  }

  /**
   The laws at the top of the inner loop: thread t has handed in its batch, is counted in nTotal
   and not counted in nIdle.
  */
  predicate TopInv(s: State, h: History, t: Tid)
    requires Exists(s, t)
  {
    var th := Get(s, t);
    && s.nIdle == Threads(s, IdleOf) - IdleOf(th)
    && s.nTotal == Threads(s, InLoop) - InLoop(th) + 1
    && s.nTodo == Weigh(s.queue, One) + InFlight(s, One) - Carried(th, One)
    && SoundBatches(s) && Helped(s)
    && (t != Master ==> SleeperSound(s))
    && (s.fAllOk <==> AllPass(h.done))
    && Weigh(h.added, Failing) == Weigh(s.queue, Failing) + InFlight(s, Failing) - Carried(th, Failing)
         + Weigh(h.done, Failing)
    && forall k | 0 <= k < |h.outcomes| :: h.outcomes[k].fRet <==> AllPass(h.outcomes[k].round)
  }

  lemma CleanUpReachesTop(s: State, h: History, t: Tid)
    requires Inv(s, h) && Enabled(s, Lock(t))
    ensures var h1 := if Get(s, t).Running? then h.(done := h.done + Get(s, t).batch) else h;
      TopInv(CleanUp(s, t), h1, t)
  {
    hide AllPass, Weigh;
    var th := Get(s, t);
    if th.Running? {
      HandedIn(h.done, th, s.fAllOk);
      WeighOne(th.batch);
      WeighConcat(h.done, th.batch, Failing);
      WeighOne(s.queue);
      InFlightZero(Set(s, t, Outside));
      SetCarried(s, t, Outside, One);
    }
  }

  /** The verdict over the checks done and a batch that has been executed. */
  lemma HandedIn(done: seq<Check>, th: Thread, fAllOk: bool)
    requires th.Running? && th.next == |th.batch| && SoundBatch(th, fAllOk) && (fAllOk <==> AllPass(done))
    ensures fAllOk && th.fOk <==> AllPass(done + th.batch)
  {
    assert th.batch[..th.next] == th.batch;
    if AllPass(done + th.batch) {
      assert forall i | 0 <= i < |done| :: done[i] == (done + th.batch)[i];
      assert forall i | 0 <= i < |th.batch| :: th.batch[i] == (done + th.batch)[|done| + i];
    }
  }

  lemma WakeReachesTop(s: State, h: History, t: Tid)
    requires Inv(s, h) && Enabled(s, Wake(t))
    ensures TopInv(s.(nIdle := s.nIdle - 1), h, t)
  {
  }

  /** Wait leaves no thread with a batch, and its verdict is about all checks of the round. */
  lemma ReturnIsClean(s: State, h: History, t: Tid)
    requires Exists(s, t) && TopInv(s, h, t) && Returns(s, t)
    ensures NobodyRunning(s.(master := Outside))
    ensures s.fAllOk <==> AllPass(h.added)
  {
    var s0 := s.(master := Outside);
    InFlightZero(s0);
    CarriedNone(s0.workers, Failing);
    WeighFailing(h.added);
    WeighFailing(h.done);
  }

  lemma ReturnKeepsInv(s: State, h: History, t: Tid)
    requires Exists(s, t) && TopInv(s, h, t) && Returns(s, t)
    ensures Inv(Proceed(s, t), History([], [], h.outcomes + [Outcome(h.added, s.fAllOk)]))
  {
    ProceedMoves(s, t, One);
    ReturnIsClean(s, h, t);
    SetThreads(s, t, Outside, IdleOf);
    SetThreads(s, t, Outside, InLoop);
    CarriedNone(s.workers, Failing);
  }

  lemma SleepKeepsInv(s: State, h: History, t: Tid)
    requires Exists(s, t) && TopInv(s, h, t) && !Returns(s, t) && s.queue == []
    ensures Inv(Proceed(s, t), h)
  {
    hide AllPass;
    ProceedMoves(s, t, One);
    ProceedMoves(s, t, Failing);
    SetThreads(s, t, Waiting, IdleOf);
    SetThreads(s, t, Waiting, InLoop);
    InFlightZero(Set(s, t, Outside));
    SetCarried(s, t, Outside, One);
  }

  lemma TakeKeepsInv(s: State, h: History, t: Tid)
    requires Exists(s, t) && TopInv(s, h, t) && s.queue != []
    ensures Inv(Proceed(s, t), h)
  {
    hide Weigh, InFlight, Tally;
    ProceedMoves(s, t, One);
    ProceedMoves(s, t, Failing);
    WeighOne(s.queue);
    var n := BatchSize(s);
    var th := Running(Popped(s.queue, n), 0, s.fAllOk);
    SetHelps(s, t, th, s.queue[..|s.queue| - n]);
    SetThreads(s, t, th, IdleOf);
    SetThreads(s, t, th, InLoop);
  }

  lemma ProceedKeepsInv(s: State, h: History, t: Tid)
    requires Exists(s, t) && TopInv(s, h, t)
    ensures Inv(Proceed(s, t),
                if Returns(s, t) then History([], [], h.outcomes + [Outcome(h.added, s.fAllOk)]) else h)
  {
    hide Inv, TopInv, Proceed;
    if Returns(s, t) {
      ReturnKeepsInv(s, h, t);
    } else if s.queue == [] {
      SleepKeepsInv(s, h, t);
    } else {
      TakeKeepsInv(s, h, t);
    }
  }

  lemma StepKeepsInv(s: State, h: History, step: Step)
    requires Inv(s, h) && Enabled(s, step)
    ensures Inv(Apply(s, step), Observe(s, h, step))
  {
    match step
    case Add(checks, notified) => AddKeepsInv(s, h, checks, notified);
    case Execute(t) => ExecuteKeepsInv(s, h, t);
    case Spurious(t) => SpuriousKeepsInv(s, h, t);
    case Lock(t) =>
      var h1 := if Get(s, t).Running? then h.(done := h.done + Get(s, t).batch) else h;
      CleanUpReachesTop(s, h, t);
      ProceedKeepsInv(AtLoopTop(s, step), h1, t);
    case Wake(t) =>
      WakeReachesTop(s, h, t);
      ProceedKeepsInv(AtLoopTop(s, step), h, t);
  }

  /** The conservation law for an arbitrary weight. */
  lemma StepConserves(s: State, h: History, step: Step, w: Weight)
    requires Inv(s, h) && Enabled(s, step) && Conserved(s, h, w)
    ensures Conserved(Apply(s, step), Observe(s, h, step), w)
  {
    match step
    case Add(checks, notified) => AddConserves(s, h, checks, notified, w);
    case Execute(t) => SetCarried(s, t, ExecuteOne(Get(s, t)), w);
    case Spurious(t) => SetCarried(s, t, Woken, w);
    case Wake(t) =>
      ProceedMoves(AtLoopTop(s, step), t, w);
      if WaitReturns(s, step) {
        WakeReachesTop(s, h, t);
        ReturnIsClean(AtLoopTop(s, step), h, t);
        CarriedNone(s.workers, w);
      }
    case Lock(t) => LockConserves(s, h, t, w);
  }

  lemma LockConserves(s: State, h: History, t: Tid, w: Weight)
    requires Inv(s, h) && Enabled(s, Lock(t)) && Conserved(s, h, w)
    ensures Conserved(Apply(s, Lock(t)), Observe(s, h, Lock(t)), w)
  {
    hide Weigh;
    var (step, th) := (Lock(t), Get(s, t));
    ProceedMoves(AtLoopTop(s, step), t, w);
    var h1 := if th.Running? then h.(done := h.done + th.batch) else h;
    if th.Running? {
      WeighConcat(h.done, th.batch, w);
    }
    if WaitReturns(s, step) {
      CleanUpReachesTop(s, h, t);
      ReturnIsClean(AtLoopTop(s, step), h1, t);
      CarriedNone(s.workers, w);
      WeighNothing(w);
    }
  }

  lemma WeighNothing(w: Weight)
    ensures Weigh([], w) == 0
  {
  }

  lemma {:induction false} PoppedAt(q: seq<Check>, n: nat, i: nat)
    requires i < n <= |q|
    ensures Popped(q, n)[i] == q[|q| - 1 - i]
  {
    if i > 0 {
      PoppedAt(q[..|q| - 1], n - 1, i - 1);
    }
  }

  /** A batch is the end of the queue, last check first, and the rest of the queue stays as it is. */
  lemma BatchIsTail(s: State, t: Tid)
    requires Exists(s, t) && s.queue != []
    ensures var s' := Proceed(s, t);
      var th := Get(s', t);
      && th.Running? && th.next == 0 && th.fOk == s.fAllOk && 1 <= |th.batch| == BatchSize(s)
      && s.queue == s'.queue + seq(|th.batch|, i requires 0 <= i < |th.batch| => th.batch[|th.batch| - 1 - i])
  {
    hide BatchSize;
    var n := BatchSize(s);
    forall i | 0 <= i < n ensures Popped(s.queue, n)[i] == s.queue[|s.queue| - 1 - i] {
      PoppedAt(s.queue, n, i);
    }
  }

  // ---------------------------------------------------------------- theorems about whole runs

  lemma {:induction false} RunKeepsInv(s: State, h: History, steps: seq<Step>)
    requires Inv(s, h) && Legal(s, steps)
    ensures Inv(After(s, steps), Seen(s, h, steps))
    decreases |steps|
  {
    if steps != [] {
      StepKeepsInv(s, h, steps[0]);
      RunKeepsInv(Apply(s, steps[0]), Observe(s, h, steps[0]), steps[1..]);
    }
  }

  lemma {:induction false} RunConserves(s: State, h: History, steps: seq<Step>, w: Weight)
    requires Inv(s, h) && Legal(s, steps) && Conserved(s, h, w)
    ensures Conserved(After(s, steps), Seen(s, h, steps), w)
    decreases |steps|
  {
    if steps != [] {
      StepKeepsInv(s, h, steps[0]);
      StepConserves(s, h, steps[0], w);
      RunConserves(Apply(s, steps[0]), Observe(s, h, steps[0]), steps[1..], w);
    }
  }

  lemma StepRounds(s: State, h: History, step: Step)
    requires Enabled(s, step)
    ensures var h1 := Observe(s, h, step);
      Rounds(h1.outcomes) + h1.added == (Rounds(h.outcomes) + h.added) + AddedBy(step)
  {
  }

  lemma {:induction false} RunRounds(s: State, h: History, steps: seq<Step>)
    requires Legal(s, steps)
    ensures var h' := Seen(s, h, steps);
      Rounds(h'.outcomes) + h'.added == (Rounds(h.outcomes) + h.added) + Added(steps)
    decreases |steps|
  {
    hide Apply, Observe, Rounds;
    if steps != [] {
      var step := steps[0];
      StepRounds(s, h, step);
      RunRounds(Apply(s, step), Observe(s, h, step), steps[1..]);
      var before := Rounds(h.outcomes) + h.added;
      assert (before + AddedBy(step)) + Added(steps[1..]) == before + (AddedBy(step) + Added(steps[1..]));
    }
  }

  /**
   In every interleaving of the master and any number of workers: nTodo is the number of queued
   checks plus those in unfinished batches; every call of Wait returned true exactly when every check
   added since the previous one passes; and these rounds, with the checks added since the last call,
   are precisely what the run added, in order.
  */
  lemma WaitVerdicts(nBatchSize: nat, nWorkers: nat, steps: seq<Step>)
    requires Legal(Init(nBatchSize, nWorkers), steps)
    ensures var s := After(Init(nBatchSize, nWorkers), steps);
      s.nTodo == |s.queue| + InFlight(s, One)
    ensures var h := Seen(Init(nBatchSize, nWorkers), NOTHING_SEEN, steps);
      && (forall k | 0 <= k < |h.outcomes| :: h.outcomes[k].fRet <==> AllPass(h.outcomes[k].round))
      && Rounds(h.outcomes) + h.added == Added(steps)
  {
    hide Apply, Observe, SoundBatches, Helped, SleeperSound, AllPass;
    var s0 := Init(nBatchSize, nWorkers);
    InitInv(nBatchSize, nWorkers);
    RunKeepsInv(s0, NOTHING_SEEN, steps);
    RunRounds(s0, NOTHING_SEEN, steps);
    WeighOne(After(s0, steps).queue);
    assert Rounds([]) + [] + Added(steps) == Added(steps);
  }

  /** In every run each check added in the current round is queued, in one unfinished batch, or done. */
  lemma ChecksAreNeverLost(nBatchSize: nat, nWorkers: nat, steps: seq<Step>, c: Check)
    requires Legal(Init(nBatchSize, nWorkers), steps)
    ensures Conserved(After(Init(nBatchSize, nWorkers), steps), Seen(Init(nBatchSize, nWorkers), NOTHING_SEEN, steps),
                      x => if x == c then 1 else 0)
  {
    var w: Weight := x => if x == c then 1 else 0;
    InitInv(nBatchSize, nWorkers);
    RunConserves(Init(nBatchSize, nWorkers), NOTHING_SEEN, steps, w);
  }

  /** No thread holds a batch when Wait returns, so no result of this round can reach the next one. */
  lemma NoStaleBatch(nBatchSize: nat, nWorkers: nat, steps: seq<Step>, step: Step)
    requires Legal(Init(nBatchSize, nWorkers), steps)
    requires Enabled(After(Init(nBatchSize, nWorkers), steps), step)
    requires WaitReturns(After(Init(nBatchSize, nWorkers), steps), step)
    ensures var s := Apply(After(Init(nBatchSize, nWorkers), steps), step);
      NobodyRunning(s) && s.queue == [] && s.nTodo == 0 && s.fAllOk && s.master == Outside
  {
    var s0 := Init(nBatchSize, nWorkers);
    var s, h := After(s0, steps), Seen(s0, NOTHING_SEEN, steps);
    InitInv(nBatchSize, nWorkers);
    RunKeepsInv(s0, NOTHING_SEEN, steps);
    StepKeepsInv(s, h, step);
    InFlightZero(Apply(s, step));
    WeighOne(Apply(s, step).queue);
  }

  /** A master that sleeps and has not been notified can rely on a worker that holds a batch. */
  lemma SleepingMasterHasAWorker(nBatchSize: nat, nWorkers: nat, steps: seq<Step>)
    requires Legal(Init(nBatchSize, nWorkers), steps)
    requires After(Init(nBatchSize, nWorkers), steps).master.Waiting?
    ensures var s := After(Init(nBatchSize, nWorkers), steps);
      exists i | 0 <= i < |s.workers| :: s.workers[i].Running?
  {
    InitInv(nBatchSize, nWorkers);
    RunKeepsInv(Init(nBatchSize, nWorkers), NOTHING_SEEN, steps);
    InFlightZero(After(Init(nBatchSize, nWorkers), steps));
  }

  /** In every run, while checks are queued and there are workers, some worker can move without a spurious wake-up. */
  lemma WorkersHelp(nBatchSize: nat, nWorkers: nat, steps: seq<Step>)
    requires Legal(Init(nBatchSize, nWorkers), steps) && nWorkers > 0
    requires After(Init(nBatchSize, nWorkers), steps).queue != []
    ensures var s := After(Init(nBatchSize, nWorkers), steps);
      exists i: nat, step: Step ::
        i < |s.workers| && step in [Lock(Worker(i)), Wake(Worker(i)), Execute(Worker(i))] && Enabled(s, step)
  {
    var s := After(Init(nBatchSize, nWorkers), steps);
    InitInv(nBatchSize, nWorkers);
    RunKeepsInv(Init(nBatchSize, nWorkers), NOTHING_SEEN, steps);
    SameWorkers(Init(nBatchSize, nWorkers), steps);
    var i: nat :| i < |s.workers| && !s.workers[i].Waiting?;
    var step := match s.workers[i]
      case Woken => Wake(Worker(i))
      case Running(batch, next, _) => if next < |batch| then Execute(Worker(i)) else Lock(Worker(i))
      case _ => Lock(Worker(i));
    assert step in [Lock(Worker(i)), Wake(Worker(i)), Execute(Worker(i))] && Enabled(s, step);
  }

  lemma {:induction false} SameWorkers(s: State, steps: seq<Step>)
    requires Legal(s, steps)
    ensures |After(s, steps).workers| == |s.workers|
    decreases |steps|
  {
    if steps != [] {
      SameWorkers(Apply(s, steps[0]), steps[1..]);
    }
  }

  /** A worker that hands in a batch wakes a sleeping master exactly when nothing is left to do. */
  lemma LastWorkerWakesMaster(s: State, i: nat)
    requires Enabled(s, Lock(Worker(i))) && s.master.Waiting? && s.workers[i].Running?
    ensures var s' := Apply(s, Lock(Worker(i)));
      s'.master.Woken? <==> s'.nTodo == 0
    ensures Apply(s, Lock(Worker(i))).nTodo == s.nTodo - |s.workers[i].batch|
  {
  }

  // ---------------------------------------------------------------- Wait returns

  /** What a thread may still do before it sleeps. */
  function Effort(th: Thread): int {
    match th
    case Outside => 2
    case Running(batch, next, _) => 3 + |batch| - next
    case Waiting => 0
    case Woken => 1
  }

  function Measure(s: State): int {
    5 * |s.queue| + Threads(s, Effort)
  }

  lemma {:induction false} EffortNonNegative(ws: seq<Thread>, fAllOk: bool)
    requires forall i | 0 <= i < |ws| :: SoundBatch(ws[i], fAllOk)
    ensures Tally(ws, Effort) >= 0
  {
    if ws != [] {
      assert SoundBatch(ws[0], fAllOk);
      assert forall i | 0 <= i < |ws[1..]| :: ws[1..][i] == ws[i + 1];
      EffortNonNegative(ws[1..], fAllOk);
    }
  }

  predicate InsideWait(s: State) { !s.master.Outside? }

  /** While the master is inside Wait some thread can move without a spurious wake-up. */
  lemma WaitIsNeverStuck(s: State, h: History)
    requires Inv(s, h) && InsideWait(s)
    ensures exists step: Step :: !step.Spurious? && Enabled(s, step)
  {
    match s.master
    case Running(batch, next, _) =>
      assert Enabled(s, if next < |batch| then Execute(Master) else Lock(Master));
    case Woken =>
      assert Enabled(s, Wake(Master));
    case Waiting =>
      InFlightZero(s);
      var i :| 0 <= i < |s.workers| && s.workers[i].Running?;
      var th := s.workers[i];
      assert Enabled(s, if th.next < |th.batch| then Execute(Worker(i)) else Lock(Worker(i)));
  }

  lemma ProceedEffort(s: State, t: Tid)
    requires Exists(s, t) && !Returns(s, t)
    ensures Measure(Proceed(s, t)) <= Measure(s) - Effort(Get(s, t))
  {
    if s.queue == [] {
      SetThreads(s, t, Waiting, Effort);
    } else {
      var n := BatchSize(s);
      SetThreads(s, t, Running(Popped(s.queue, n), 0, s.fAllOk), Effort);
    }
  }

  /** Every step inside Wait that is not a spurious wake-up brings the return closer. */
  lemma StepLowersMeasure(s: State, h: History, step: Step)
    requires Inv(s, h) && InsideWait(s) && Enabled(s, step) && !WaitReturns(s, step)
    ensures InsideWait(Apply(s, step))
    ensures Measure(Apply(s, step)) <= if step.Spurious? then Measure(s) + 1 else Measure(s) - 1
  {
    match step
    case Add(_, _) =>
    case Execute(t) => SetThreads(s, t, ExecuteOne(Get(s, t)), Effort);
    case Spurious(t) => SetThreads(s, t, Woken, Effort);
    case Lock(t) => ProceedEffort(AtLoopTop(s, step), t);
    case Wake(t) => ProceedEffort(AtLoopTop(s, step), t);
  }

  function SpuriousIn(steps: seq<Step>): nat {
    if steps == [] then 0 else (if steps[0].Spurious? then 1 else 0) + SpuriousIn(steps[1..])
  }

  predicate NeverReturns(s: State, steps: seq<Step>)
    requires Legal(s, steps)
    decreases |steps|
  {
    steps != [] ==> !WaitReturns(s, steps[0]) && NeverReturns(Apply(s, steps[0]), steps[1..])
  }

  /**
   Wait returns: whatever the schedule, a run inside Wait that has not returned is at most as long as
   the measure of its first state plus two for every spurious wake-up.
  */
  lemma {:induction false} WaitReturnsInTime(s: State, h: History, steps: seq<Step>)
    requires Inv(s, h) && InsideWait(s) && Legal(s, steps) && NeverReturns(s, steps)
    ensures |steps| <= Measure(s) + 2 * SpuriousIn(steps)
    decreases |steps|
  {
    EffortNonNegative(s.workers, s.fAllOk);
    if steps != [] {
      StepKeepsInv(s, h, steps[0]);
      StepLowersMeasure(s, h, steps[0]);
      WaitReturnsInTime(Apply(s, steps[0]), Observe(s, h, steps[0]), steps[1..]);
    }
  }
}
