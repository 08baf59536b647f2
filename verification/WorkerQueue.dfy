/** The request queue of the HTTP daemon (`apt/libhttpd/httpd.cpp`): one master and several workers
    that share a list under a mutex and a condition variable. Threads interleave at every lock,
    wait, signal, queue operation and unlock. */
module WorkerQueue {

  /** A negative descriptor tells a worker to exit. */
  const STOP: int := -1

  /** Where a worker is: before `pthread_mutex_lock`; holding the mutex at the emptiness test, first
      or again after a wait; waiting; signalled and about to take the mutex back; holding the mutex
      with an item taken; serving; gone. */
  datatype Worker = Want | Check(again: bool) | Asleep | Woken | Took(job: int) | Busy(job: int) | Exited

  datatype Master = Accept | Lock | Push | Signal | Unlock | Join(k: nat)

  datatype Holder = Free | ByMaster | ByWorker(i: nat)

  datatype Take = Take(worker: nat, job: int)

  /** `next` counts the master's finished rounds; `log` records who took what and `served` what each
      worker has finished. */
  datatype State = State(requests: seq<int>, workers: seq<Worker>, master: Master, next: nat,
                         holder: Holder, queue: seq<int>, log: seq<Take>, served: seq<seq<int>>)

  datatype Action = ByTheMaster | Wake(i: nat) | ByAWorker(i: nat) | Spurious(i: nat)

  /** What the master pushes in round `k`: the accepted requests, then one stop per worker. */
  function Item(requests: seq<int>, k: nat): int { if k < |requests| then requests[k] else STOP }

  function Total(s: State): nat { |s.requests| + |s.workers| }

  function Turn(s: State, next: nat): Master {
    if next < |s.requests| then Accept else if next < Total(s) then Lock else Join(0)
  }

  function Init(requests: seq<int>, n: nat): (s: State) {
    var s := State(requests, seq(n, i => Want), Accept, 0, Free, [], [], seq(n, i => []));
    s.(master := Turn(s, 0))
  }

  // ---------------------------------------------------------------- steps

  /** `pthread_cond_signal` releases one waiting thread if there is one (`Wake`), otherwise the
      master passes by. A wait may also end by itself (`Spurious`). */
  predicate Enabled(s: State, a: Action) {
    match a
    case ByTheMaster =>
      && (s.master.Lock? ==> s.holder.Free?)
      && (s.master.Signal? ==> forall i :: 0 <= i < |s.workers| ==> !s.workers[i].Asleep?)
      && (s.master.Join? ==> s.master.k < |s.workers| && s.workers[s.master.k].Exited?)
    case Wake(i) => s.master.Signal? && i < |s.workers| && s.workers[i].Asleep?
    case ByAWorker(i) =>
      && i < |s.workers| && i < |s.served|
      && !s.workers[i].Asleep? && !s.workers[i].Exited?
      && (s.workers[i].Want? || s.workers[i].Woken? ==> s.holder.Free?)
    case Spurious(i) => i < |s.workers| && s.workers[i].Asleep?
  }

  function Next(s: State, a: Action): (r: State)
    requires Enabled(s, a)
  {
    match a
    case ByTheMaster => MasterNext(s)
    case Wake(i) => s.(workers := s.workers[i := Woken], master := Unlock)
    case ByAWorker(i) => WorkerNext(s, i)
    case Spurious(i) => s.(workers := s.workers[i := Woken])
  }

  function MasterNext(s: State): (r: State) {
    match s.master
    case Accept => s.(master := Lock)
    case Lock => s.(master := Push, holder := ByMaster)
    case Push => s.(master := Signal, queue := s.queue + [Item(s.requests, s.next)])
    case Signal => s.(master := Unlock)
    case Unlock => s.(master := Turn(s, s.next + 1), next := s.next + 1, holder := Free)
    case Join(k) => s.(master := Join(k + 1))
  }

  function WorkerNext(s: State, i: nat): (r: State)
    requires i < |s.workers| && i < |s.served|
  {
    match s.workers[i]
    case Want => s.(workers := s.workers[i := Check(false)], holder := ByWorker(i))
    case Woken => s.(workers := s.workers[i := Check(true)], holder := ByWorker(i))
    case Check(_) =>
      if s.queue == [] then s.(workers := s.workers[i := Asleep], holder := Free)
      else s.(workers := s.workers[i := Took(s.queue[0])], queue := s.queue[1..], log := s.log + [Take(i, s.queue[0])])
    case Took(job) => s.(workers := s.workers[i := if job < 0 then Exited else Busy(job)], holder := Free)
    case Busy(job) => s.(workers := s.workers[i := Want], served := s.served[i := s.served[i] + [job]])
    case Asleep => s
    case Exited => s
  }

  // ---------------------------------------------------------------- sums over the workers

  function Sum(ws: seq<Worker>, f: Worker -> nat): nat {
    if ws == [] then 0 else Sum(ws[..|ws| - 1], f) + f(ws[|ws| - 1])
  }

  lemma {:induction false} SumUpdate(ws: seq<Worker>, i: nat, w: Worker, f: Worker -> nat)
    requires i < |ws|
    ensures Sum(ws[i := w], f) == Sum(ws, f) - f(ws[i]) + f(w)
  {
    var last := |ws| - 1;
    if i < last {
      assert ws[i := w][..last] == ws[..last][i := w];
      SumUpdate(ws[..last], i, w, f);
    } else {
      assert ws[i := w][..last] == ws[..last];
    }
  }

  lemma {:induction false} SumAll(ws: seq<Worker>, f: Worker -> nat, c: nat)
    requires forall i :: 0 <= i < |ws| ==> f(ws[i]) == c
    ensures Sum(ws, f) == c * |ws|
  {
    if ws != [] { SumAll(ws[..|ws| - 1], f, c); }
  }

  /** A 0/1 sum that reaches the number of workers counts every one. */
  lemma {:induction false} SumFull(ws: seq<Worker>, f: Worker -> nat, i: nat)
    requires forall w :: f(w) <= 1
    requires Sum(ws, f) == |ws| && i < |ws|
    ensures f(ws[i]) == 1
  {
    var last := |ws| - 1;
    SumAtMost(ws[..last], f);
    if i < last { SumFull(ws[..last], f, i); }
  }

  lemma {:induction false} SumAtMost(ws: seq<Worker>, f: Worker -> nat)
    requires forall w :: f(w) <= 1
    ensures Sum(ws, f) <= |ws|
  {
    if ws != [] { SumAtMost(ws[..|ws| - 1], f); }
  }

  /** Signalled and not yet rechecked. */
  function Pending(w: Worker): nat { if w == Woken || w == Check(true) then 1 else 0 }

  /** Has taken a stop. */
  function Gone(w: Worker): nat { if w.Exited? || (w.Took? && w.job < 0) then 1 else 0 }

  /** Steps a worker has left before it waits or exits, if it takes nothing more. */
  function Weight(w: Worker): nat {
    match w
    case Took(_) => 4
    case Busy(_) => 3
    case Want => 2
    case Woken => 2
    case Check(_) => 1
    case Asleep => 0
    case Exited => 0
  }

  // ---------------------------------------------------------------- the invariant

  predicate Inside(w: Worker) { w.Check? || w.Took? }

  predicate MasterInside(m: Master) { m.Push? || m.Signal? || m.Unlock? }

  ghost predicate Shape(s: State) {
    && |s.served| == |s.workers|
    && (forall k :: 0 <= k < |s.requests| ==> s.requests[k] >= 0)
    && (if s.master.Join? then s.next == Total(s) && s.master.k <= |s.workers| else s.next < Total(s))
  }

  /** The mutex is held by the thread that is inside, and by no other. */
  ghost predicate Mutex(s: State) {
    && (s.holder.ByMaster? <==> MasterInside(s.master))
    && (s.holder.ByWorker? ==> s.holder.i < |s.workers|)
    && forall i :: 0 <= i < |s.workers| ==> (Inside(s.workers[i]) <==> s.holder == ByWorker(i))
  }

  function Pushed(s: State): nat { if s.master.Signal? || s.master.Unlock? then s.next + 1 else s.next }

  /** What was taken, followed by what is queued, is what was pushed, in order. */
  ghost predicate Fifo(s: State) {
    && |s.log| + |s.queue| == Pushed(s)
    && (forall k :: 0 <= k < |s.log| ==> s.log[k].job == Item(s.requests, k))
    && (forall k :: 0 <= k < |s.queue| ==> s.queue[k] == Item(s.requests, |s.log| + k))
  }

  /** As many workers are gone as stops were taken; a joined worker has exited. */
  ghost predicate Stops(s: State) {
    && Sum(s.workers, Gone) == (if |s.log| <= |s.requests| then 0 else |s.log| - |s.requests|)
    && (forall i :: 0 <= i < |s.workers| && s.master.Join? && i < s.master.k ==> s.workers[i].Exited?)
  }

  ghost predicate SomeAsleep(s: State) { exists i :: 0 <= i < |s.workers| && s.workers[i].Asleep? }

  /** No wakeup is lost. */
  ghost predicate Awake(s: State) {
    SomeAsleep(s) ==> |s.queue| <= Sum(s.workers, Pending) + (if s.master.Signal? then 1 else 0)
  }

  function Mine(log: seq<Take>, w: nat): seq<int> {
    if log == [] then []
    else
      var last := log[|log| - 1];
      Mine(log[..|log| - 1], w) + (if last.worker == w then [last.job] else [])
  }

  function InHand(w: Worker): seq<int> {
    match w
    case Took(job) => [job]
    case Busy(job) => [job]
    case Exited => [STOP]
    case _ => []
  }

  ghost predicate Account(s: State, i: nat)
    requires i < |s.workers| && i < |s.served|
  {
    && Mine(s.log, i) == s.served[i] + InHand(s.workers[i])
    && (s.workers[i].Took? ==> s.workers[i].job >= STOP)
    && (s.workers[i].Busy? ==> s.workers[i].job >= 0)
    && forall k :: 0 <= k < |s.served[i]| ==> s.served[i][k] >= 0
  }

  /** What a worker took is what it has served and what it has in hand. */
  ghost predicate Accounts(s: State) {
    && |s.served| == |s.workers|
    && (forall k :: 0 <= k < |s.log| ==> s.log[k].worker < |s.workers|)
    && forall i: nat :: i < |s.workers| ==> Account(s, i)
  }

  ghost predicate Inv(s: State) {
    Shape(s) && Mutex(s) && Fifo(s) && Stops(s) && Awake(s) && Accounts(s)
  }

  lemma InitInv(requests: seq<int>, n: nat)
    requires 0 < n && forall k :: 0 <= k < |requests| ==> requests[k] >= 0
    ensures Inv(Init(requests, n))
  {
    var s := Init(requests, n);
    SumAll(s.workers, Gone, 0);
  }

  // ---------------------------------------------------------------- every step keeps it

  lemma StepMutex(s: State, a: Action)
    requires Inv(s) && Enabled(s, a)
    ensures Shape(Next(s, a)) && Mutex(Next(s, a))
  {
    hide Awake, Accounts, Sum, Fifo, Stops, Item, MasterNext, WorkerNext;
    match a
    case ByTheMaster => MasterMutex(s);
    case ByAWorker(i) => WorkerMutex(s, i);
    case _ =>
  }

  lemma MasterMutex(s: State)
    requires Inv(s) && Enabled(s, ByTheMaster)
    ensures Shape(MasterNext(s)) && Mutex(MasterNext(s))
  {
    hide Awake, Accounts, Sum, Fifo, Stops, Item;
  }

  lemma WorkerMutex(s: State, i: nat)
    requires Inv(s) && Enabled(s, ByAWorker(i))
    ensures Shape(WorkerNext(s, i)) && Mutex(WorkerNext(s, i))
  {
    hide Awake, Accounts, Sum, Fifo, Stops, Item;
  }

  lemma StepFifo(s: State, a: Action)
    requires Inv(s) && Enabled(s, a)
    ensures Fifo(Next(s, a))
  {
    hide Awake, Accounts, Sum, Stops, Mutex, Item, MasterNext, WorkerNext;
    match a
    case ByTheMaster => MasterFifo(s);
    case ByAWorker(i) => WorkerFifo(s, i);
    case _ =>
  }

  lemma MasterFifo(s: State)
    requires Inv(s) && Enabled(s, ByTheMaster)
    ensures Fifo(MasterNext(s))
  {
    hide Awake, Accounts, Sum, Stops, Mutex, Item;
  }

  lemma WorkerFifo(s: State, i: nat)
    requires Inv(s) && Enabled(s, ByAWorker(i))
    ensures Fifo(WorkerNext(s, i))
  {
    hide Awake, Accounts, Sum, Stops, Mutex, Item;
  }

  lemma StepStops(s: State, a: Action)
    requires Inv(s) && Enabled(s, a)
    ensures Stops(Next(s, a))
  {
    hide Awake, Accounts, Sum;
    var t := Next(s, a);
    if a.Wake? || a.Spurious? {
      SumUpdate(s.workers, a.i, Woken, Gone);
    } else if a.ByAWorker? {
      SumUpdate(s.workers, a.i, t.workers[a.i], Gone);
      assert t.workers == s.workers[a.i := t.workers[a.i]];
    }
  }

  lemma StepAwake(s: State, a: Action)
    requires Inv(s) && Enabled(s, a)
    ensures Awake(Next(s, a))
  {
    hide Accounts, Sum;
    var t := Next(s, a);
    if a.Wake? || a.Spurious? {
      SumUpdate(s.workers, a.i, Woken, Pending);
    } else if a.ByAWorker? {
      SumUpdate(s.workers, a.i, t.workers[a.i], Pending);
      assert t.workers == s.workers[a.i := t.workers[a.i]];
      if SomeAsleep(t) && t.queue != [] {
        assert SomeAsleep(s);
      }
    }
  }

  lemma MineStep(log: seq<Take>, take: Take, i: nat)
    ensures Mine(log + [take], i) == Mine(log, i) + (if take.worker == i then [take.job] else [])
  {
  }

  /** A worker's account moves only with its own steps. */
  lemma AccountKept(s: State, a: Action, i: nat)
    requires Inv(s) && Enabled(s, a) && i < |s.workers|
    requires a != ByAWorker(i)
    ensures Account(Next(s, a), i)
  {
    hide Awake, Sum, Fifo, Stops, Mutex, Mine;
    assert Account(s, i);
    var t := Next(s, a);
    if t.log != s.log { MineStep(s.log, Take(a.i, s.queue[0]), i); }
    assert t.served[i] == s.served[i] && InHand(t.workers[i]) == InHand(s.workers[i]);
  }

  lemma AccountMoved(s: State, i: nat)
    requires Inv(s) && Enabled(s, ByAWorker(i))
    ensures Account(WorkerNext(s, i), i)
  {
    hide Awake, Sum, Stops, Mutex, Mine;
    assert Account(s, i);
    var t := WorkerNext(s, i);
    if t.log != s.log {
      MineStep(s.log, Take(i, s.queue[0]), i);
      assert s.queue[0] == Item(s.requests, |s.log|);
    }
  }

  lemma StepAccounts(s: State, a: Action)
    requires Inv(s) && Enabled(s, a)
    ensures Accounts(Next(s, a))
  {
    hide Awake, Sum, Fifo, Stops, Mutex, Account;
    var t := Next(s, a);
    forall i: nat | i < |t.workers| ensures Account(t, i) {
      if a == ByAWorker(i) { AccountMoved(s, i); } else { AccountKept(s, a, i); }
    }
  }

  lemma StepInv(s: State, a: Action)
    requires Inv(s) && Enabled(s, a)
    ensures Inv(Next(s, a))
  {
    hide Shape, Mutex, Fifo, Stops, Awake, Accounts, Next;
    StepMutex(s, a);
    StepFifo(s, a);
    StepStops(s, a);
    StepAwake(s, a);
    StepAccounts(s, a);
  }

  // ---------------------------------------------------------------- progress

  predicate Done(s: State) { s.master == Join(|s.workers|) }

  function Work(s: State): nat
    requires Shape(s)
  {
    if s.master.Join? then |s.workers| - s.master.k
    else
      |s.workers| + 7 * (Total(s) - s.next)
      + match s.master
        case Accept => 7
        case Lock => 6
        case Push => 5
        case Signal => 4
        case Unlock => 1
        case Join(_) => 0
  }

  /** Bounds what is left to do if no wait ends by itself. */
  function Measure(s: State): nat
    requires Inv(s)
  {
    Work(s) + Sum(s.workers, Weight) + 4 * (Total(s) - |s.log|)
  }

  lemma MasterWorks(s: State)
    requires Inv(s) && Enabled(s, ByTheMaster) && Shape(MasterNext(s))
    ensures Work(MasterNext(s)) < Work(s) && (s.master.Signal? ==> Work(MasterNext(s)) == Work(s) - 3)
  {
    hide Awake, Accounts, Sum, Fifo, Stops, Mutex;
  }

  lemma WorkerWorks(s: State, i: nat)
    requires Inv(s) && Enabled(s, ByAWorker(i))
    ensures Sum(WorkerNext(s, i).workers, Weight) + 4 * |s.log| < Sum(s.workers, Weight) + 4 * |WorkerNext(s, i).log|
  {
    hide Awake, Accounts, Sum, Fifo, Stops, Mutex;
    var t := WorkerNext(s, i);
    SumUpdate(s.workers, i, t.workers[i], Weight);
    assert t.workers == s.workers[i := t.workers[i]];
  }

  lemma Decreases(s: State, a: Action)
    requires Inv(s) && Enabled(s, a)
    ensures Inv(Next(s, a))
    ensures if a.Spurious? then Measure(Next(s, a)) == Measure(s) + 2 else Measure(Next(s, a)) < Measure(s)
  {
    hide Awake, Accounts, Sum, Stops, Mutex, WorkerNext, Fifo;
    StepInv(s, a);
    match a
    case ByTheMaster => MasterWorks(s);
    case ByAWorker(i) => WorkerWorks(s, i); SameWork(s, i);
    case Wake(i) => SumUpdate(s.workers, i, Woken, Weight);
    case Spurious(i) => SumUpdate(s.workers, i, Woken, Weight);
  }

  lemma SameWork(s: State, i: nat)
    requires Shape(s) && Enabled(s, ByAWorker(i)) && Shape(WorkerNext(s, i))
    ensures Work(WorkerNext(s, i)) == Work(s) && Total(WorkerNext(s, i)) == Total(s)
  {
  }

  /** Somebody can always go on until the master has joined everyone: no deadlock and no worker left
      waiting for a signal that was already given. */
  lemma Progress(s: State) returns (a: Action)
    requires Inv(s) && !Done(s)
    ensures Enabled(s, a) && !a.Spurious?
  {
    if !s.master.Join? {
      if s.holder.ByWorker? { a := ByAWorker(s.holder.i); return; }
      if s.master.Signal? && SomeAsleep(s) {
        var i :| 0 <= i < |s.workers| && s.workers[i].Asleep?;
        a := Wake(i);
        return;
      }
      a := ByTheMaster;
    } else if i :| 0 <= i < |s.workers| && !s.workers[i].Exited? && !s.workers[i].Asleep? {
      a := if s.holder.Free? || !(s.workers[i].Want? || s.workers[i].Woken?) then ByAWorker(i)
          else ByAWorker(s.holder.i);
    } else {
      AllExited(s);
      a := ByTheMaster;
    }
  }

  /** With everything pushed, nobody can be asleep once no other worker is active. */
  lemma AllExited(s: State)
    requires Inv(s) && s.master.Join?
    requires forall i :: 0 <= i < |s.workers| ==> s.workers[i].Exited? || s.workers[i].Asleep?
    ensures forall i :: 0 <= i < |s.workers| ==> s.workers[i].Exited?
  {
    if SomeAsleep(s) {
      SumAll(s.workers, Pending, 0);
      forall i: nat | i < |s.workers| ensures s.workers[i].Exited? { SumFull(s.workers, Gone, i); }
    }
  }

  /** At the end every worker has exited, the queue is empty, and each worker has served exactly the
      requests it took before its one stop. */
  lemma AtTheEnd(s: State)
    requires Inv(s) && Done(s) && 0 < |s.workers|
    ensures s.queue == [] && s.holder == Free
    ensures |s.log| == Total(s)
    ensures forall k :: 0 <= k < |s.log| ==> s.log[k].job == Item(s.requests, k) && s.log[k].worker < |s.workers|
    ensures forall i: nat :: i < |s.workers| ==> s.workers[i].Exited? && Mine(s.log, i) == s.served[i] + [STOP]
  {
    SumAll(s.workers, Gone, 1);
    forall i: nat | i < |s.workers| ensures Mine(s.log, i) == s.served[i] + [STOP] { assert Account(s, i); }
  }

  lemma Exclusion(s: State, i: nat, j: nat)
    requires Inv(s) && i < |s.workers| && j < |s.workers|
    requires Inside(s.workers[i])
    ensures !MasterInside(s.master)
    ensures Inside(s.workers[j]) ==> i == j
  {
  }

  // ---------------------------------------------------------------- whole runs

  predicate Legal(s: State, run: seq<Action>)
    decreases |run|
  {
    run == [] || (Enabled(s, run[0]) && Legal(Next(s, run[0]), run[1..]))
  }

  function After(s: State, run: seq<Action>): State
    requires Legal(s, run)
    decreases |run|
  {
    if run == [] then s else After(Next(s, run[0]), run[1..])
  }

  function Spurious(run: seq<Action>): nat {
    if run == [] then 0 else (if run[0].Spurious? then 1 else 0) + Spurious(run[1..])
  }

  lemma {:induction false} RunInv(s: State, run: seq<Action>)
    requires Inv(s) && Legal(s, run)
    ensures Inv(After(s, run))
    ensures After(s, run).requests == s.requests && |After(s, run).workers| == |s.workers|
    ensures |run| + Measure(After(s, run)) <= Measure(s) + 3 * Spurious(run)
    decreases |run|
  {
    hide Inv, Measure, Enabled;
    if run != [] {
      Decreases(s, run[0]);
      Kept(s, run[0]);
      RunInv(Next(s, run[0]), run[1..]);
    }
  }

  lemma Kept(s: State, a: Action)
    requires Enabled(s, a)
    ensures Next(s, a).requests == s.requests && |Next(s, a).workers| == |s.workers|
  {
  }

  /** For every interleaving: the run is at most as long as the work to do and the spurious wakeups
      allow; what was taken is a prefix of the requests followed by the stops; no wakeup is lost; and
      a run that cannot go on has every worker gone and the queue empty. */
  lemma EveryRun(requests: seq<int>, n: nat, run: seq<Action>)
    requires 0 < n && forall k :: 0 <= k < |requests| ==> requests[k] >= 0
    requires Legal(Init(requests, n), run)
    ensures var s := After(Init(requests, n), run);
            && (forall k :: 0 <= k < |s.log| ==>
                  && (k < |requests| ==> s.log[k].job == requests[k])
                  && (|requests| <= k ==> s.log[k].job == STOP))
            && (SomeAsleep(s) ==> |s.queue| <= Sum(s.workers, Pending) + (if s.master.Signal? then 1 else 0))
            && ((forall a :: Enabled(s, a) ==> a.Spurious?) ==> Done(s))
            && (Done(s) ==>
                  && s.queue == [] && |s.log| == |requests| + n && |s.workers| == n && |s.served| == n
                  && forall i: nat :: i < n ==> s.workers[i].Exited? && Mine(s.log, i) == s.served[i] + [STOP])
    ensures |run| <= 11 * (|requests| + n) + 3 * n + 7 + 3 * Spurious(run)
  {
    hide Legal, After, Spurious, Sum, Mine;
    var s0 := Init(requests, n);
    InitInv(requests, n);
    RunInv(s0, run);
    SumAll(s0.workers, Weight, 2);
    var s := After(s0, run);
    if Done(s) { AtTheEnd(s); } else { var a := Progress(s); }
  }
}
