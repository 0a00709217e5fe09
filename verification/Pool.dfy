/** src/threadpool/thread_pool.cpp as an interleaving of atomic steps: the event loop that queues and finally
    destroys the pool, its workers, the mutex and the condition variable. */
module Pool {

  /** Where a worker is in worker_loop; a task is the number of queue() calls before it. */
  datatype Worker = Ready | Checking | Waiting | Running(task: nat) | Exited

  /** Where the owner is: between calls, in queue(), in the destructor, or past it. */
  datatype Owner = Idle | Pushing | Notifying | Stopping | NotifyingAll | Joining | Joined

  datatype Holder = Nobody | TheOwner | AWorker(i: nat)

  datatype State = State(mu: Holder, queue: seq<nat>, stop: bool, owner: Owner, ws: seq<Worker>, queued: nat,
      done: seq<nat>)

  datatype Step =
    | LockToPush | Push | NotifyOne(woken: nat) | LockToStop | SetStop | NotifyAll | Join
    | Lock(i: nat) | Wait(i: nat) | Return(i: nat) | Take(i: nat) | Finish(i: nat) | Spurious(i: nat)

  ghost predicate AnyWaiting(s: State) { exists i :: 0 <= i < |s.ws| && s.ws[i] == Waiting }

  predicate At(s: State, i: nat, w: Worker) { i < |s.ws| && s.ws[i] == w }

  /** A worker waits in the condition variable unless there is work or the pool stops; notify_one wakes any one
      waiting worker, or nobody when none waits; wakeups may also be spurious. */
  ghost predicate Enabled(s: State, e: Step) {
    match e
    case LockToPush => s.owner == Idle && s.mu == Nobody
    case Push => s.owner == Pushing
    case NotifyOne(i) => s.owner == Notifying && (AnyWaiting(s) ==> At(s, i, Waiting))
    case LockToStop => s.owner == Idle && s.mu == Nobody
    case SetStop => s.owner == Stopping
    case NotifyAll => s.owner == NotifyingAll
    case Join => s.owner == Joining && forall i :: 0 <= i < |s.ws| ==> s.ws[i] == Exited
    case Lock(i) => At(s, i, Ready) && s.mu == Nobody
    case Wait(i) => At(s, i, Checking) && s.queue == [] && !s.stop
    case Return(i) => At(s, i, Checking) && s.queue == [] && s.stop
    case Take(i) => At(s, i, Checking) && s.queue != []
    case Finish(i) => i < |s.ws| && s.ws[i].Running?
    case Spurious(i) => At(s, i, Waiting)
  }

  function Awoken(ws: seq<Worker>): (r: seq<Worker>)
    ensures |r| == |ws|
    ensures forall i :: 0 <= i < |ws| ==> r[i] == if ws[i] == Waiting then Ready else ws[i]
  {
    seq(|ws|, i requires 0 <= i < |ws| => if ws[i] == Waiting then Ready else ws[i])
  }

  ghost function Do(s: State, e: Step): State
    requires Enabled(s, e)
  {
    match e
    case LockToPush => s.(owner := Pushing, mu := TheOwner)
    case Push => s.(owner := Notifying, mu := Nobody, queue := s.queue + [s.queued], queued := s.queued + 1)
    case NotifyOne(i) => if AnyWaiting(s) then s.(owner := Idle, ws := s.ws[i := Ready]) else s.(owner := Idle)
    case LockToStop => s.(owner := Stopping, mu := TheOwner)
    case SetStop => s.(owner := NotifyingAll, mu := Nobody, stop := true)
    case NotifyAll => s.(owner := Joining, ws := Awoken(s.ws))
    case Join => s.(owner := Joined)
    case Lock(i) => s.(mu := AWorker(i), ws := s.ws[i := Checking])
    case Wait(i) => s.(mu := Nobody, ws := s.ws[i := Waiting])
    case Return(i) => s.(mu := Nobody, ws := s.ws[i := Exited])
    case Take(i) => s.(mu := Nobody, queue := s.queue[1..], ws := s.ws[i := Running(s.queue[0])])
    case Finish(i) => s.(ws := s.ws[i := Ready], done := s.done + [s.ws[i].task])
    case Spurious(i) => s.(ws := s.ws[i := Ready])
  }

  /** The constructor: at least one worker. */
  function Start(threads: nat): State {
    State(Nobody, [], false, Idle, seq(if threads == 0 then 1 else threads, i => Ready), 0, [])
  }

  // ---- the invariant ----

  /** The mutex is held by exactly the thread that is in its critical section. */
  ghost predicate MutexOk(s: State) {
    && (s.mu == TheOwner <==> s.owner == Pushing || s.owner == Stopping)
    && (s.mu.AWorker? ==> s.mu.i < |s.ws|)
    && forall i :: 0 <= i < |s.ws| ==> (s.ws[i] == Checking <==> s.mu == AWorker(i))
  }

  ghost predicate StopOk(s: State) {
    && (s.stop <==> s.owner == NotifyingAll || s.owner == Joining || s.owner == Joined)
    && (forall i :: 0 <= i < |s.ws| && s.ws[i] == Exited ==> s.stop && s.queue == [])
    && (forall i :: 0 <= i < |s.ws| && s.ws[i] == Waiting ==> s.owner != Joining && s.owner != Joined)
    && (s.owner == Joined ==> forall i :: 0 <= i < |s.ws| ==> s.ws[i] == Exited)
  }

  predicate Awake(w: Worker) { w != Waiting && w != Exited }

  /** No lost wakeup: while work is queued, some worker is awake or a notification is still to come. */
  ghost predicate NoneLost(s: State) {
    s.queue != [] ==> (exists i :: 0 <= i < |s.ws| && Awake(s.ws[i])) || s.owner == Notifying || s.owner == NotifyingAll
  }

  function Has(w: Worker, t: nat): nat { if w == Running(t) then 1 else 0 }

  /** How many workers are running task t. */
  function Held(ws: seq<Worker>, t: nat): nat { if ws == [] then 0 else Has(ws[0], t) + Held(ws[1..], t) }

  function Count(s: seq<nat>, t: nat): nat {
    if s == [] then 0 else Count(s[..|s| - 1], t) + if s[|s| - 1] == t then 1 else 0
  }

  /** In how many places task t is: in the queue, with a worker, or done. */
  function Places(s: State, t: nat): nat { Count(s.queue, t) + Held(s.ws, t) + Count(s.done, t) }

  ghost predicate Once(s: State, t: nat) { Places(s, t) == if t < s.queued then 1 else 0 }

  /** Every task queued so far is in exactly one place, and the queue holds the latest ones in order. */
  ghost predicate TasksOk(s: State) {
    && (forall t: nat :: Once(s, t))
    && |s.queue| <= s.queued && forall j :: 0 <= j < |s.queue| ==> s.queue[j] == s.queued - |s.queue| + j
  }

  ghost predicate Inv(s: State) { s.ws != [] && MutexOk(s) && StopOk(s) && NoneLost(s) && TasksOk(s) }

  lemma {:induction false} HeldSet(ws: seq<Worker>, i: nat, w: Worker, t: nat)
    requires i < |ws|
    ensures Held(ws[i := w], t) == Held(ws, t) - Has(ws[i], t) + Has(w, t)
    decreases |ws|
  {
    if i > 0 {
      HeldSet(ws[1..], i - 1, w, t);
      assert ws[i := w][1..] == ws[1..][i - 1 := w];
    } else {
      assert ws[0 := w][1..] == ws[1..];
    }
  }

  lemma {:induction false} HeldAwoken(ws: seq<Worker>, t: nat)
    ensures Held(Awoken(ws), t) == Held(ws, t)
  {
    if ws != [] {
      HeldAwoken(ws[1..], t);
      assert Awoken(ws)[1..] == Awoken(ws[1..]);
    }
  }

  lemma {:induction false} CountAppend(s: seq<nat>, x: nat, t: nat)
    ensures Count(s + [x], t) == Count(s, t) + if x == t then 1 else 0
  {
    assert (s + [x])[..|s|] == s;
  }

  lemma {:induction false} CountFront(s: seq<nat>, t: nat)
    requires s != []
    ensures Count(s, t) == Count(s[1..], t) + if s[0] == t then 1 else 0
    decreases |s|
  {
    var n := |s| - 1;
    if n == 0 {
      assert s[1..] == [] && s[..0] == [];
    } else {
      CountFront(s[..n], t);
      assert s[..n][1..] == s[1..][..n - 1] && s[1..][n - 1] == s[n];
    }
  }

  lemma {:induction false} OnceKept(s: State, e: Step, t: nat)
    requires Once(s, t) && Enabled(s, e)
    ensures Once(Do(s, e), t)
  {
    match e
    case Push => CountAppend(s.queue, s.queued, t);
    case NotifyOne(i) => if AnyWaiting(s) { HeldSet(s.ws, i, Ready, t); }
    case NotifyAll => HeldAwoken(s.ws, t);
    case Lock(i) => HeldSet(s.ws, i, Checking, t);
    case Wait(i) => HeldSet(s.ws, i, Waiting, t);
    case Return(i) => HeldSet(s.ws, i, Exited, t);
    case Take(i) =>
      HeldSet(s.ws, i, Running(s.queue[0]), t);
      CountFront(s.queue, t);
    case Finish(i) =>
      HeldSet(s.ws, i, Ready, t);
      CountAppend(s.done, s.ws[i].task, t);
    case Spurious(i) => HeldSet(s.ws, i, Ready, t);
    case _ =>
  }

  lemma {:induction false} TasksKept(s: State, e: Step)
    requires TasksOk(s) && Enabled(s, e)
    ensures TasksOk(Do(s, e))
  {
    forall t: nat ensures Once(Do(s, e), t) {
      assert Once(s, t);
      OnceKept(s, e, t);
    }
  }

  lemma {:induction false} MutexKept(s: State, e: Step)
    requires MutexOk(s) && Enabled(s, e)
    ensures MutexOk(Do(s, e))
  {}

  lemma {:induction false} StopKept(s: State, e: Step)
    requires MutexOk(s) && StopOk(s) && Enabled(s, e)
    ensures StopOk(Do(s, e))
  {}

  lemma {:induction false} WakeupsKept(s: State, e: Step)
    requires Inv(s) && Enabled(s, e)
    ensures NoneLost(Do(s, e))
  {
    var s' := Do(s, e);
    match e
    case NotifyOne(_) =>
      if !AnyWaiting(s) { assert s'.queue != [] ==> Awake(s'.ws[0]); }
      else { assert Awake(s'.ws[e.woken]); }
    case NotifyAll => assert s'.queue != [] ==> Awake(s'.ws[0]);
    case Lock(i) => assert Awake(s'.ws[i]);
    case Take(i) => assert Awake(s'.ws[i]);
    case Finish(i) => assert Awake(s'.ws[i]);
    case Spurious(i) => assert Awake(s'.ws[i]);
    case _ =>
  }

  /** Every step of every thread keeps the invariant. */
  lemma {:induction false} InvKept(s: State, e: Step)
    requires Inv(s) && Enabled(s, e)
    ensures Inv(Do(s, e))
  {
    MutexKept(s, e);
    StopKept(s, e);
    TasksKept(s, e);
    WakeupsKept(s, e);
  }

  ghost predicate Reaches(s: State, es: seq<Step>, s': State)
    decreases |es|
  {
    if es == [] then s' == s else Enabled(s, es[0]) && Reaches(Do(s, es[0]), es[1..], s')
  }

  lemma {:induction false} StartInv(threads: nat)
    ensures Inv(Start(threads))
  {
    var s := Start(threads);
    forall t: nat ensures Once(s, t) { HeldNone(s.ws, t); }
  }

  lemma {:induction false} HeldNone(ws: seq<Worker>, t: nat)
    requires forall i :: 0 <= i < |ws| ==> !ws[i].Running?
    ensures Held(ws, t) == 0
  {
    if ws != [] { HeldNone(ws[1..], t); }
  }

  /** In every interleaving from the constructor on, the invariant holds. */
  lemma {:induction false} AlwaysInv(threads: nat, es: seq<Step>, s: State)
    requires Reaches(Start(threads), es, s)
    ensures Inv(s)
  {
    StartInv(threads);
    RunInv(Start(threads), es, s);
  }

  lemma {:induction false} RunInv(s: State, es: seq<Step>, s': State)
    requires Inv(s) && Reaches(s, es, s')
    ensures Inv(s')
    decreases |es|
  {
    if es != [] {
      InvKept(s, es[0]);
      RunInv(Do(s, es[0]), es[1..], s');
    }
  }

  /** When all workers have returned, which they do only after stop, every task ever queued has run, and run once. */
  lemma {:induction false} AllDone(threads: nat, es: seq<Step>, s: State, t: nat)
    requires Reaches(Start(threads), es, s) && forall i :: 0 <= i < |s.ws| ==> s.ws[i] == Exited
    ensures s.stop && s.queue == [] && Count(s.done, t) == if t < s.queued then 1 else 0
  {
    AlwaysInv(threads, es, s);
    assert s.ws[0] == Exited && Once(s, t);
    HeldNone(s.ws, t);
  }

  // ---- shutdown terminates ----

  function Weight(w: Worker): nat {
    match w case Exited => 0 case Checking => 1 case Ready => 2 case Waiting => 2 case Running(_) => 3
  }

  function Weights(ws: seq<Worker>): nat { if ws == [] then 0 else Weight(ws[0]) + Weights(ws[1..]) }

  /** Steps left to take at most, once everyone has been told to stop. */
  function Left(s: State): nat { 3 * |s.queue| + Weights(s.ws) + if s.owner == Joining then 1 else 0 }

  lemma {:induction false} WeightsSet(ws: seq<Worker>, i: nat, w: Worker)
    requires i < |ws|
    ensures Weights(ws[i := w]) == Weights(ws) - Weight(ws[i]) + Weight(w)
    decreases |ws|
  {
    if i > 0 {
      WeightsSet(ws[1..], i - 1, w);
      assert ws[i := w][1..] == ws[1..][i - 1 := w];
    } else {
      assert ws[0 := w][1..] == ws[1..];
    }
  }

  /** Each step of a pool that is being joined brings its end closer. */
  lemma {:induction false} StepsRunOut(s: State, e: Step)
    requires Inv(s) && s.owner == Joining && Enabled(s, e)
    ensures Left(Do(s, e)) < Left(s)
  {
    match e
    case Lock(i) => WeightsSet(s.ws, i, Checking);
    case Return(i) => WeightsSet(s.ws, i, Exited);
    case Take(i) => WeightsSet(s.ws, i, Running(s.queue[0]));
    case Finish(i) => WeightsSet(s.ws, i, Ready);
    case _ =>
  }

  /** Once the destructor waits for its workers, no interleaving is longer than this, whoever moves. */
  lemma {:induction false} ShutdownBounded(s: State, es: seq<Step>, s': State)
    requires Inv(s) && (s.owner == Joining || s.owner == Joined) && Reaches(s, es, s')
    ensures |es| + Left(s') <= Left(s)
    decreases |es|
  {
    if es != [] {
      assert s.owner == Joining;
      StepsRunOut(s, es[0]);
      InvKept(s, es[0]);
      ShutdownBounded(Do(s, es[0]), es[1..], s');
    }
  }

  /** A worker that is awake can move, or the one that holds the mutex can. */
  lemma {:induction false} AwakeMoves(s: State, i: nat) returns (e: Step)
    requires MutexOk(s) && StopOk(s) && i < |s.ws| && Awake(s.ws[i]) && s.mu != TheOwner
    ensures Enabled(s, e) && (e.Lock? || e.Wait? || e.Return? || e.Take? || e.Finish?)
  {
    if s.ws[i].Running? {
      e := Finish(i);
    } else if s.mu == Nobody {
      e := Lock(i);
    } else {
      var h := s.mu.i;
      e := if s.queue != [] then Take(h) else if s.stop then Return(h) else Wait(h);
    }
  }

  /** The pool is never stuck: while work is queued, or a queue() call or the destructor is under way, some thread
      can take a step that is neither a new call nor a spurious wakeup. */
  lemma {:induction false} NeverStuck(s: State) returns (e: Step)
    requires Inv(s) && s.owner != Joined && (s.queue != [] || s.owner != Idle)
    ensures Enabled(s, e) && e != LockToPush && e != LockToStop && !e.Spurious?
  {
    match s.owner
    case Pushing => e := Push;
    case Stopping => e := SetStop;
    case NotifyingAll => e := NotifyAll;
    case Notifying =>
      if i :| 0 <= i < |s.ws| && s.ws[i] == Waiting { e := NotifyOne(i); } else { e := NotifyOne(0); }
    case Idle =>
      var i :| 0 <= i < |s.ws| && Awake(s.ws[i]);
      e := AwakeMoves(s, i);
    case Joining =>
      if i :| 0 <= i < |s.ws| && s.ws[i] != Exited { e := AwakeMoves(s, i); } else { e := Join; }
  }

  // ---- a pool in use gets its work done ----

  /** A step of a worker that is neither a new call nor a spurious wakeup. */
  predicate OfWorker(e: Step) { e.Lock? || e.Wait? || e.Return? || e.Take? || e.Finish? }

  function Effort(w: Worker): nat {
    match w case Exited => 0 case Waiting => 0 case Checking => 1 case Ready => 2 case Running(_) => 3
  }

  function Efforts(ws: seq<Worker>): nat { if ws == [] then 0 else Effort(ws[0]) + Efforts(ws[1..]) }

  /** Steps of workers at most until all of them wait. */
  function Work(s: State): nat { 3 * |s.queue| + Efforts(s.ws) }

  lemma {:induction false} EffortsSet(ws: seq<Worker>, i: nat, w: Worker)
    requires i < |ws|
    ensures Efforts(ws[i := w]) == Efforts(ws) - Effort(ws[i]) + Effort(w)
    decreases |ws|
  {
    if i > 0 {
      EffortsSet(ws[1..], i - 1, w);
      assert ws[i := w][1..] == ws[1..][i - 1 := w];
    } else {
      assert ws[0 := w][1..] == ws[1..];
    }
  }

  /** Each step of a worker brings the pool closer to rest, whatever the owner is doing. */
  lemma {:induction false} WorkShrinks(s: State, e: Step)
    requires Enabled(s, e) && OfWorker(e)
    ensures Work(Do(s, e)) < Work(s) && Do(s, e).owner == s.owner
  {
    match e
    case Lock(i) => EffortsSet(s.ws, i, Checking);
    case Wait(i) => EffortsSet(s.ws, i, Waiting);
    case Return(i) => EffortsSet(s.ws, i, Exited);
    case Take(i) => EffortsSet(s.ws, i, Running(s.queue[0]));
    case Finish(i) => EffortsSet(s.ws, i, Ready);
  }

  /** Until the next call or spurious wakeup no interleaving of the workers is longer than this. */
  lemma {:induction false} WorkBounded(s: State, es: seq<Step>, s': State)
    requires Inv(s) && Reaches(s, es, s') && forall i :: 0 <= i < |es| ==> OfWorker(es[i])
    ensures |es| + Work(s') <= Work(s) && Inv(s') && s'.owner == s.owner
    decreases |es|
  {
    if es != [] {
      WorkShrinks(s, es[0]);
      InvKept(s, es[0]);
      WorkBounded(Do(s, es[0]), es[1..], s');
    }
  }

  /** And where it can go no further, with the owner between calls, the queue is empty, every worker waits and every
      task ever queued has run exactly once. */
  lemma {:induction false} WorkDone(s: State, es: seq<Step>, s': State, t: nat)
    requires Inv(s) && s.owner == Idle && Reaches(s, es, s') && forall i :: 0 <= i < |es| ==> OfWorker(es[i])
    requires forall e | OfWorker(e) :: !Enabled(s', e)
    ensures s'.queue == [] && Count(s'.done, t) == if t < s'.queued then 1 else 0
    ensures forall i :: 0 <= i < |s'.ws| ==> s'.ws[i] == Waiting
  {
    WorkBounded(s, es, s');
    forall i | 0 <= i < |s'.ws| ensures s'.ws[i] == Waiting {
      if Awake(s'.ws[i]) { var e := AwakeMoves(s', i); }
    }
    HeldNone(s'.ws, t);
    assert Once(s', t);
  }
}
