// app/src/main/cpp/ThreadPool.h as interleaved steps of workers, enqueuing clients and the
// destructor over one mutex and one condition variable.
//
// A task is its position in the order of acceptance.  Waiting on the condition variable gives up the
// mutex and goes to sleep in one step, as std::condition_variable::wait does; sleepers may also wake
// spuriously.
module ThreadPool {

  datatype Worker =
    | Locking            // about to take the mutex at the top of the loop
    | Checking           // holds the mutex, about to evaluate the wait predicate
    | Sleeping           // waits on the condition variable
    | Woken              // notified, has to take the mutex again
    | Popped(task: nat)  // holds the mutex and a task
    | Running(task: nat)
    | Exited

  datatype Owner = Free | ByWorker(i: nat) | ByClient(pushed: bool, done: bool)

  datatype Pool = Pool(
    workers: seq<Worker>,
    owner: Owner,
    stop: bool,
    accepted: nat,       // tasks 0 .. accepted were accepted, in this order
    queue: seq<nat>,
    finished: seq<nat>,  // in the order of completion
    notifyOne: nat,      // enqueues that left the critical section and have not notified yet
    notifyAll: bool)     // the destructor set stop and has not notified yet

  datatype Event =
    | Lock(i: nat) | Check(i: nat) | Release(i: nat) | Finish(i: nat) | Spurious(i: nat)
    | EnqueueLock | EnqueueBody | EnqueueUnlock | NotifyOne(i: nat)
    | Stop | NotifyAll

  function Initial(threads: nat): Pool {
    Pool(seq(threads, _ => Locking), Free, false, 0, [], [], 0, false)
  }

  predicate AnySleeper(s: Pool) {
    exists i :: 0 <= i < |s.workers| && s.workers[i].Sleeping?
  }

  predicate Enabled(s: Pool, e: Event) {
    match e
    case Lock(i) => i < |s.workers| && (s.workers[i].Locking? || s.workers[i].Woken?) && s.owner.Free?
    case Check(i) => i < |s.workers| && s.workers[i].Checking?
    case Release(i) => i < |s.workers| && s.workers[i].Popped?
    case Finish(i) => i < |s.workers| && s.workers[i].Running?
    case Spurious(i) => i < |s.workers| && s.workers[i].Sleeping?
    case EnqueueLock => s.owner.Free?
    case EnqueueBody => s.owner.ByClient? && !s.owner.done
    case EnqueueUnlock => s.owner.ByClient? && s.owner.done
    case NotifyOne(i) => s.notifyOne > 0 && (AnySleeper(s) ==> i < |s.workers| && s.workers[i].Sleeping?)
    case Stop => s.owner.Free? && !s.stop
    case NotifyAll => s.notifyAll
  }

  function WakeAll(ws: seq<Worker>): (r: seq<Worker>)
    ensures |r| == |ws|
    ensures forall i :: 0 <= i < |ws| ==> r[i] == if ws[i].Sleeping? then Woken else ws[i]
  {
    seq(|ws|, i requires 0 <= i < |ws| => if ws[i].Sleeping? then Woken else ws[i])
  }

  function Set(s: Pool, i: nat, w: Worker): Pool
    requires i < |s.workers|
  {
    s.(workers := s.workers[i := w])
  }

  function Do(s: Pool, e: Event): Pool
    requires Enabled(s, e)
  {
    match e
    case Lock(i) => Set(s, i, Checking).(owner := ByWorker(i))
    case Check(i) =>
      if !s.stop && s.queue == [] then Set(s, i, Sleeping).(owner := Free)
      else if s.stop && s.queue == [] then Set(s, i, Exited).(owner := Free)
      else Set(s, i, Popped(s.queue[0])).(queue := s.queue[1..])
    case Release(i) => Set(s, i, Running(s.workers[i].task)).(owner := Free)
    case Finish(i) => Set(s, i, Locking).(finished := s.finished + [s.workers[i].task])
    case Spurious(i) => Set(s, i, Woken)
    case EnqueueLock => s.(owner := ByClient(false, false))
    case EnqueueBody =>
      if s.stop then s.(owner := ByClient(false, true))
      else s.(owner := ByClient(true, true), queue := s.queue + [s.accepted], accepted := s.accepted + 1)
    case EnqueueUnlock => s.(owner := Free, notifyOne := if s.owner.pushed then s.notifyOne + 1 else s.notifyOne)
    case NotifyOne(i) =>
      (if AnySleeper(s) then Set(s, i, Woken) else s).(notifyOne := s.notifyOne - 1)
    case Stop => s.(stop := true, notifyAll := true)
    case NotifyAll => s.(workers := WakeAll(s.workers), notifyAll := false)
  }

  // ----- conservation -----

  /** Worker i holds task t. */
  predicate Holds(s: Pool, i: int, t: int) {
    0 <= i < |s.workers| && (s.workers[i].Popped? || s.workers[i].Running?) && s.workers[i].task == t
  }

  predicate Done(s: Pool, t: int) { t in s.finished }

  /** Accepted tasks not yet taken are the queue, in order. */
  predicate Fifo(s: Pool) {
    && |s.queue| <= s.accepted
    && forall j :: 0 <= j < |s.queue| ==> s.queue[j] == s.accepted - |s.queue| + j
  }

  /** The tasks taken so far: 0 .. Taken(s). */
  function Taken(s: Pool): int { s.accepted - |s.queue| }

  /** Every taken task is held by one worker or finished, never both, never twice. */
  ghost predicate Conserved(s: Pool) {
    && (forall i, t :: Holds(s, i, t) ==> t < Taken(s) && !Done(s, t))
    && (forall i, j, t :: Holds(s, i, t) && Holds(s, j, t) ==> i == j)
    && (forall k :: 0 <= k < |s.finished| ==> s.finished[k] < Taken(s))
    && (forall k, l :: 0 <= k < l < |s.finished| ==> s.finished[k] != s.finished[l])
    && (forall t :: 0 <= t < Taken(s) ==> Done(s, t) || exists i :: Holds(s, i, t))
  }

  /** In the critical section. */
  predicate Inside(w: Worker) { w.Checking? || w.Popped? }

  /** The mutex: a worker is inside the critical section exactly when it owns the mutex. */
  ghost predicate Exclusive(s: Pool) {
    && (forall i :: 0 <= i < |s.workers| ==> (Inside(s.workers[i]) <==> s.owner == ByWorker(i)))
    && (s.owner.ByWorker? ==> s.owner.i < |s.workers|)
    && (s.owner.ByClient? && s.owner.pushed ==> s.owner.done)
  }

  predicate Awake(w: Worker) { !w.Sleeping? && !w.Exited? }

  /** A wake-up is still on its way. */
  predicate WakePending(s: Pool) {
    s.notifyOne > 0 || s.notifyAll || (s.owner.ByClient? && s.owner.pushed)
  }

  /** No wake-up is lost: queued work has somebody awake or a notification coming; after stop nobody
      sleeps unless the destructor's notification is still coming; workers exit only after stop and
      with nothing queued. */
  ghost predicate NoLostWakeup(s: Pool) {
    && (s.queue != [] && |s.workers| > 0 ==> WakePending(s) || exists i :: 0 <= i < |s.workers| && Awake(s.workers[i]))
    && (s.stop && !s.notifyAll ==> !AnySleeper(s))
    && ((exists i :: 0 <= i < |s.workers| && s.workers[i].Exited?) ==> s.stop && s.queue == [])
    && (s.notifyAll ==> s.stop)
  }

  ghost predicate Inv(s: Pool) {
    Fifo(s) && Conserved(s) && Exclusive(s) && NoLostWakeup(s)
  }

  lemma KeepsFifo(s: Pool, e: Event)
    requires Fifo(s) && Enabled(s, e)
    ensures Fifo(Do(s, e))
  {
  }

  lemma KeepsExclusive(s: Pool, e: Event)
    requires Exclusive(s) && Enabled(s, e)
    ensures Exclusive(Do(s, e))
  {
  }

  /** A worker holds a task after a step only if it held it before, or just took it from the queue. */
  lemma HoldsAfter(s: Pool, e: Event, i: int, t: int)
    requires Fifo(s) && Enabled(s, e) && Holds(Do(s, e), i, t)
    ensures (Holds(s, i, t) && e != Finish(i))
         || (e == Check(i) && t == Taken(s) && Taken(Do(s, e)) == Taken(s) + 1)
  {
  }

  lemma FinishedAfter(s: Pool, e: Event)
    requires Fifo(s) && Enabled(s, e)
    ensures Taken(s) <= Taken(Do(s, e))
    ensures e.Finish? ==> Holds(s, e.i, s.workers[e.i].task)
    ensures Do(s, e).finished == s.finished + if e.Finish? then [s.workers[e.i].task] else []
  {
  }

  lemma KeepsConserved(s: Pool, e: Event)
    requires Fifo(s) && Conserved(s) && Enabled(s, e)
    ensures Conserved(Do(s, e))
  {
    hide Do, Enabled, Fifo, Holds, Taken;
    var s' := Do(s, e);
    FinishedAfter(s, e);
    forall i, t | Holds(s', i, t)
      ensures t < Taken(s') && !Done(s', t)
    {
      HoldsAfter(s, e, i, t);
    }
    forall i, j, t | Holds(s', i, t) && Holds(s', j, t)
      ensures i == j
    {
      HoldsAfter(s, e, i, t);
      HoldsAfter(s, e, j, t);
    }
    forall t | 0 <= t < Taken(s')
      ensures Done(s', t) || exists i :: Holds(s', i, t)
    {
      TaskStillThere(s, e, t);
    }
    if e.Finish? {
      assert forall k :: 0 <= k < |s.finished| ==> Done(s, s.finished[k]);
    }
  }

  lemma TaskStillThere(s: Pool, e: Event, t: int)
    requires Fifo(s) && Conserved(s) && Enabled(s, e) && 0 <= t < Taken(Do(s, e))
    ensures Done(Do(s, e), t) || exists i :: Holds(Do(s, e), i, t)
  {
    var s' := Do(s, e);
    FinishedAfter(s, e);
    if t >= Taken(s) {
      assert e.Check? && Holds(s', e.i, t);
    } else if !Done(s, t) {
      var i :| Holds(s, i, t);
      assert Holds(s', i, t) || s'.finished[|s.finished|] == t;
    }
  }

  lemma KeepsWakeup(s: Pool, e: Event)
    requires Exclusive(s) && NoLostWakeup(s) && Enabled(s, e)
    ensures NoLostWakeup(Do(s, e))
  {
    var s' := Do(s, e);
    if s'.queue != [] && |s'.workers| > 0 && !WakePending(s') {
      var i := SomeoneAwake(s, e);
      assert Awake(s'.workers[i]);
    }
  }

  lemma SomeoneAwake(s: Pool, e: Event) returns (i: nat)
    requires Exclusive(s) && NoLostWakeup(s) && Enabled(s, e)
    requires var s' := Do(s, e); s'.queue != [] && |s'.workers| > 0 && !WakePending(s')
    ensures i < |s.workers| && Awake(Do(s, e).workers[i])
  {
    var s' := Do(s, e);
    match e {
      case Lock(j) => i := j;
      case Check(j) => i := j;
      case Release(j) => i := j;
      case Finish(j) => i := j;
      case Spurious(j) => i := j;
      case NotifyOne(j) =>
        if AnySleeper(s) {
          i := j;
        } else {
          i := 0;
        }
      case NotifyAll => i := 0;
      case EnqueueLock => i :| 0 <= i < |s.workers| && Awake(s.workers[i]);
      case EnqueueBody => i :| 0 <= i < |s.workers| && Awake(s.workers[i]);
      case EnqueueUnlock => i :| 0 <= i < |s.workers| && Awake(s.workers[i]);
      case Stop => i := 0;
    }
  }

  lemma InvInitially(threads: nat)
    ensures Inv(Initial(threads))
  {
    var s := Initial(threads);
  }

  lemma KeepsInv(s: Pool, e: Event)
    requires Inv(s) && Enabled(s, e)
    ensures Inv(Do(s, e))
  {
    hide Fifo, Conserved, Exclusive, NoLostWakeup, Do, Enabled;
    KeepsFifo(s, e);
    KeepsConserved(s, e);
    KeepsExclusive(s, e);
    KeepsWakeup(s, e);
  }

  // ----- every run -----

  predicate ValidRun(s: Pool, es: seq<Event>)
    decreases |es|
  {
    es == [] || (Enabled(s, es[0]) && ValidRun(Do(s, es[0]), es[1..]))
  }

  function After(s: Pool, es: seq<Event>): Pool
    requires ValidRun(s, es)
    decreases |es|
  {
    if es == [] then s else After(Do(s, es[0]), es[1..])
  }

  lemma {:induction false} RunKeepsInv(s: Pool, es: seq<Event>)
    requires Inv(s) && ValidRun(s, es)
    ensures Inv(After(s, es))
    decreases |es|
  {
    hide Inv, Do, Enabled;
    if es != [] {
      KeepsInv(s, es[0]);
      RunKeepsInv(Do(s, es[0]), es[1..]);
    }
  }

  /** In every interleaving each accepted task is exactly one of queued, held by one worker, or
      finished; it finishes at most once; and tasks are taken in the order they were accepted. */
  lemma EveryTaskAccountedFor(threads: nat, es: seq<Event>, t: int)
    requires ValidRun(Initial(threads), es)
    ensures var s := After(Initial(threads), es);
      && (0 <= t < s.accepted <==> t in s.queue || Done(s, t) || exists i :: Holds(s, i, t))
      && (t in s.queue ==> !Done(s, t) && forall i :: !Holds(s, i, t))
      && (Done(s, t) ==> forall i :: !Holds(s, i, t))
      && (forall i, j :: Holds(s, i, t) && Holds(s, j, t) ==> i == j)
      && (forall k, l :: 0 <= k < l < |s.finished| ==> s.finished[k] != s.finished[l])
      && s.queue == seq(|s.queue|, j => s.accepted - |s.queue| + j)
  {
    hide Initial, Do, Enabled, Exclusive, NoLostWakeup, Holds, ValidRun, After;
    InvInitially(threads);
    RunKeepsInv(Initial(threads), es);
    var s := After(Initial(threads), es);
    if Taken(s) <= t < s.accepted {
      assert s.queue[t - Taken(s)] == t;
    }
    if t in s.queue {
      var j :| 0 <= j < |s.queue| && s.queue[j] == t;
    }
    if Done(s, t) {
      var k :| 0 <= k < |s.finished| && s.finished[k] == t;
    }
    forall i | Holds(s, i, t) ensures 0 <= t < Taken(s) {
      HeldIsNat(s, i, t);
    }
  }

  lemma HeldIsNat(s: Pool, i: int, t: int)
    requires Holds(s, i, t)
    ensures t >= 0
  {}

  /** Nothing is accepted after stop, and stop stays. */
  lemma {:induction false} NothingAcceptedAfterStop(s: Pool, es: seq<Event>)
    requires s.stop && ValidRun(s, es)
    ensures After(s, es).stop && After(s, es).accepted == s.accepted
    decreases |es|
  {
    if es != [] {
      NothingAcceptedAfterStop(Do(s, es[0]), es[1..]);
    }
  }

  ghost predicate NobodyAwake(s: Pool) {
    forall i :: 0 <= i < |s.workers| ==> !Awake(s.workers[i])
  }

  // ----- what calls of enqueue do -----

  /** The calls of a run that add a task: those before the pool is stopped. */
  function Enqueues(es: seq<Event>): nat {
    if es == [] || es[0].Stop? then 0 else (if es[0].EnqueueBody? then 1 else 0) + Enqueues(es[1..])
  }

  /** A running pool accepts every task until it is stopped, whatever is queued or running. */
  lemma {:induction false} AcceptedExactly(s: Pool, es: seq<Event>)
    requires !s.stop && ValidRun(s, es)
    ensures After(s, es).accepted == s.accepted + Enqueues(es)
    decreases |es|
  {
    if es != [] {
      if es[0].Stop? {
        NothingAcceptedAfterStop(Do(s, es[0]), es[1..]);
      } else {
        AcceptedExactly(Do(s, es[0]), es[1..]);
      }
    }
  }

  lemma AcceptedFromStart(threads: nat, es: seq<Event>)
    requires ValidRun(Initial(threads), es)
    ensures After(Initial(threads), es).accepted == Enqueues(es)
  {
    AcceptedExactly(Initial(threads), es);
  }

  lemma RunOne(s: Pool, e: Event)
    requires Enabled(s, e)
    ensures ValidRun(s, [e]) && After(s, [e]) == Do(s, e)
  {
    assert [e][1..] == [];
    assert ValidRun(Do(s, e), []);
  }

  lemma {:induction false} RunMore(s: Pool, es: seq<Event>, e: Event)
    requires ValidRun(s, es) && Enabled(After(s, es), e)
    ensures ValidRun(s, es + [e]) && After(s, es + [e]) == Do(After(s, es), e)
    decreases |es|
  {
    if es == [] {
      RunOne(s, e);
      assert [] + [e] == [e];
    } else {
      RunMore(Do(s, es[0]), es[1..], e);
      assert (es + [e])[1..] == es[1..] + [e];
    }
  }

  /** Whoever has the mutex gives it up within two steps of its own. */
  lemma MutexComesFree(s: Pool) returns (es: seq<Event>)
    requires Inv(s)
    ensures |es| <= 2 && (forall e :: e in es ==> Internal(e) && !e.Spurious?)
    ensures ValidRun(s, es) && After(s, es).owner.Free? && After(s, es).stop == s.stop
  {
    if s.owner.Free? {
      es := [];
    } else {
      var e := OwnerCanMove(s);
      es := [e];
      RunOne(s, e);
      var s1 := Do(s, e);
      if !s1.owner.Free? {
        var e1 := if s.owner.ByWorker? then Release(s.owner.i) else EnqueueUnlock;
        RunMore(s, es, e1);
        es := es + [e1];
      }
    }
  }

  /** A call of enqueue that gets the mutex: the task goes to the end of the queue and a wake-up is
      owed; or, on a stopped pool, nothing at all changes. */
  lemma EnqueueCall(s: Pool)
    requires s.owner.Free?
    ensures var es := [EnqueueLock, EnqueueBody, EnqueueUnlock];
      && ValidRun(s, es)
      && After(s, es) == if s.stop then s
                         else s.(queue := s.queue + [s.accepted], accepted := s.accepted + 1,
                                 notifyOne := s.notifyOne + 1)
  {
    RunOne(s, EnqueueLock);
    RunMore(s, [EnqueueLock], EnqueueBody);
    RunMore(s, [EnqueueLock, EnqueueBody], EnqueueUnlock);
    assert [EnqueueLock] + [EnqueueBody] == [EnqueueLock, EnqueueBody];
    assert [EnqueueLock, EnqueueBody] + [EnqueueUnlock] == [EnqueueLock, EnqueueBody, EnqueueUnlock];
  }

  /** The destructor's call: a running pool whose mutex is free is stopped, and everybody will be woken. */
  lemma StopCall(s: Pool)
    requires s.owner.Free? && !s.stop
    ensures ValidRun(s, [Stop, NotifyAll])
    ensures After(s, [Stop, NotifyAll]) == s.(stop := true, notifyAll := false, workers := WakeAll(s.workers))
  {
    RunOne(s, Stop);
    RunMore(s, [Stop], NotifyAll);
    assert [Stop] + [NotifyAll] == [Stop, NotifyAll];
  }

  /** The pool never gets stuck: with work queued or stop set, if every worker sleeps or has exited
      and one sleeps, a notification is still coming; and if all workers of a non-empty pool have
      exited, it was stopped and every accepted task is finished. */
  lemma NeverStuck(threads: nat, es: seq<Event>)
    requires ValidRun(Initial(threads), es)
    ensures var s := After(Initial(threads), es);
      && ((s.queue != [] || s.stop) && AnySleeper(s) && NobodyAwake(s) ==> WakePending(s))
      && (|s.workers| > 0 && (forall i :: 0 <= i < |s.workers| ==> s.workers[i].Exited?) ==>
            s.stop && s.queue == [] && forall t :: 0 <= t < s.accepted ==> Done(s, t))
  {
    hide Initial, Do, Enabled, ValidRun, After;
    InvInitially(threads);
    RunKeepsInv(Initial(threads), es);
    var s := After(Initial(threads), es);
    if |s.workers| > 0 && forall i :: 0 <= i < |s.workers| ==> s.workers[i].Exited? {
      assert s.workers[0].Exited?;
      assert forall i, t :: !Holds(s, i, t);
    }
  }

  // ----- the destructor drains the pool -----

  function Weight(w: Worker): nat {
    match w
    case Exited => 0
    case Checking => 1
    case Locking => 2
    case Woken => 2
    case Sleeping => 3
    case Running(_) => 3
    case Popped(_) => 4
  }

  function Total(f: Worker -> nat, ws: seq<Worker>): nat {
    if ws == [] then 0 else Total(f, ws[..|ws| - 1]) + f(ws[|ws| - 1])
  }

  function Rank(s: Pool): nat {
    4 * |s.queue| + Total(Weight, s.workers) + s.notifyOne + (if s.notifyAll then 1 else 0)
      + (if s.owner.ByClient? then (if s.owner.done then 2 else 3) else 0)
  }

  /** The steps that the pool and running calls take by themselves. */
  predicate Internal(e: Event) { !e.EnqueueLock? && !e.Stop? }

  lemma {:induction false} TotalUpdate(f: Worker -> nat, ws: seq<Worker>, i: nat, w: Worker)
    requires i < |ws|
    ensures Total(f, ws[i := w]) == Total(f, ws) - f(ws[i]) + f(w)
    decreases |ws|
  {
    var n := |ws| - 1;
    if i == n {
      assert ws[i := w][..n] == ws[..n];
    } else {
      TotalUpdate(f, ws[..n], i, w);
      assert ws[i := w][..n] == ws[..n][i := w];
    }
  }

  /** Waking everybody costs at most c for each worker. */
  lemma {:induction false} TotalWake(f: Worker -> nat, ws: seq<Worker>, c: nat)
    requires f(Woken) <= f(Sleeping) + c
    ensures Total(f, WakeAll(ws)) <= Total(f, ws) + c * |ws|
    decreases |ws|
  {
    if ws != [] {
      var n := |ws| - 1;
      TotalWake(f, ws[..n], c);
      assert WakeAll(ws)[..n] == WakeAll(ws[..n]);
      assert c * |ws| == c * n + c;
    }
  }

  /** Once stopped, every internal step brings the rank down, so the workers cannot loop for ever. */
  lemma StoppedStepsDecrease(s: Pool, e: Event)
    requires s.stop && Enabled(s, e) && Internal(e)
    ensures Rank(Do(s, e)) < Rank(s)
  {
    hide Total;
    if e.NotifyAll? {
      TotalWake(Weight, s.workers, 0);
    } else if e.Lock? || e.Check? || e.Release? || e.Finish? || e.Spurious? || (e.NotifyOne? && AnySleeper(s)) {
      TotalUpdate(Weight, s.workers, e.i, Do(s, e).workers[e.i]);
    }
  }

  /** Whoever owns the mutex can go on. */
  lemma OwnerCanMove(s: Pool) returns (e: Event)
    requires Exclusive(s) && !s.owner.Free?
    ensures Internal(e) && !e.Spurious? && Enabled(s, e)
    ensures e == match s.owner
                 case ByWorker(i) => if s.workers[i].Checking? then Check(i) else Release(i)
                 case ByClient(_, done) => if done then EnqueueUnlock else EnqueueBody
  {
    match s.owner {
      case ByWorker(i) => e := if s.workers[i].Checking? then Check(i) else Release(i);
      case ByClient(_, done) => e := if done then EnqueueUnlock else EnqueueBody;
    }
  }

  /** A stopped pool with nothing left to do has run every accepted task and lost every worker, so
      the destructor's joins return. */
  lemma DrainedWhenIdle(threads: nat, es: seq<Event>)
    requires ValidRun(Initial(threads), es) && After(Initial(threads), es).stop && threads > 0
    requires forall e :: Internal(e) ==> !Enabled(After(Initial(threads), es), e)
    ensures var s := After(Initial(threads), es);
      && (forall i :: 0 <= i < |s.workers| ==> s.workers[i].Exited?) && s.queue == []
      && forall t :: 0 <= t < s.accepted ==> Done(s, t)
  {
    InvInitially(threads);
    RunKeepsInv(Initial(threads), es);
    SameSize(Initial(threads), es);
    var s := After(Initial(threads), es);
    assert !Enabled(s, NotifyAll);
    if !s.owner.Free? {
      var e := OwnerCanMove(s);
    }
    forall i | 0 <= i < |s.workers| ensures s.workers[i].Exited? {
      assert !Enabled(s, Lock(i)) && !Enabled(s, Finish(i)) && !Enabled(s, Spurious(i));
    }
    NeverStuck(threads, es);
  }

  // ----- a running pool drains too -----

  /** Weights under which sleeping costs nothing, so that a worker may go to sleep. */
  function RunWeight(w: Worker): nat {
    match w
    case Exited => 0
    case Sleeping => 0
    case Checking => 1
    case Locking => 2
    case Woken => 2
    case Running(_) => 3
    case Popped(_) => 4
  }

  function RunRank(s: Pool): nat {
    4 * |s.queue| + Total(RunWeight, s.workers) + 3 * s.notifyOne + (if s.notifyAll then 2 * |s.workers| + 1 else 0)
      + (if !s.owner.ByClient? then 0 else if !s.owner.done then 9 else if s.owner.pushed then 4 else 1)
  }

  /** Stopped or not, every internal step except a spurious wake-up brings this rank down; so between two
      calls of enqueue only finitely many such steps happen. */
  lemma RunningStepsDecrease(s: Pool, e: Event)
    requires Exclusive(s) && Enabled(s, e) && Internal(e) && !e.Spurious?
    ensures RunRank(Do(s, e)) < RunRank(s)
  {
    hide Total;
    if e.NotifyAll? {
      TotalWake(RunWeight, s.workers, 2);
    } else if e.Lock? || e.Check? || e.Release? || e.Finish? || (e.NotifyOne? && AnySleeper(s)) {
      TotalUpdate(RunWeight, s.workers, e.i, Do(s, e).workers[e.i]);
    }
  }

  /** Nothing can happen but a spurious wake-up or a new call. */
  ghost predicate Quiet(s: Pool) {
    forall e :: Internal(e) && !e.Spurious? ==> !Enabled(s, e)
  }

  lemma QuietMeans(s: Pool)
    requires Inv(s) && Quiet(s) && |s.workers| > 0
    ensures s.owner.Free? && !WakePending(s) && NobodyAwake(s)
  {
    if !s.owner.Free? {
      var e := OwnerCanMove(s);
    }
    if s.notifyOne > 0 {
      var i := if AnySleeper(s) then SleeperOf(s) else 0;
      assert Enabled(s, NotifyOne(i));
    }
    assert !Enabled(s, NotifyAll);
    forall i | 0 <= i < |s.workers| ensures !Awake(s.workers[i]) {
      assert !Enabled(s, Lock(i)) && !Enabled(s, Finish(i)) && !Enabled(s, Check(i)) && !Enabled(s, Release(i));
    }
  }

  ghost function SleeperOf(s: Pool): (i: nat)
    requires AnySleeper(s)
    ensures i < |s.workers| && s.workers[i].Sleeping?
  {
    var i :| 0 <= i < |s.workers| && s.workers[i].Sleeping?; i
  }

  /** A pool with workers comes to rest only with an empty queue and every accepted task finished,
      whether it was stopped or not. */
  lemma QuietWhenFinished(threads: nat, es: seq<Event>)
    requires ValidRun(Initial(threads), es) && threads > 0 && Quiet(After(Initial(threads), es))
    ensures var s := After(Initial(threads), es);
      s.queue == [] && forall t :: 0 <= t < s.accepted ==> Done(s, t)
  {
    hide Quiet;
    InvInitially(threads);
    RunKeepsInv(Initial(threads), es);
    SameSize(Initial(threads), es);
    var s := After(Initial(threads), es);
    QuietMeans(s);
    assert forall i, t :: !Holds(s, i, t);
  }

  lemma {:induction false} SameSize(s: Pool, es: seq<Event>)
    requires ValidRun(s, es)
    ensures |After(s, es).workers| == |s.workers|
    decreases |es|
  {
    if es != [] {
      SameSize(Do(s, es[0]), es[1..]);
    }
  }
}
