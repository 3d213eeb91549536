/**
 The bounded request queue of the web server: one listener that takes no lock, workers that die
 and are respawned, two semaphores and a mutex, as atomic steps under any interleaving.
 */
module RequestQueue {
  import opened Sequences

  datatype Listener =
    | Accepting                // accept
    | WaitingEmpty(req: int)   // sem_wait(&sem_empty)
    | Storing(req: int)        // request[head] = ret
    | Advancing                // head = (head + 1) % MAX_REQUEST
    | PostingFull              // sem_post(&sem_full)
    | Ended

  datatype Worker =
    | WaitingFull              // sem_wait(&sem_full)
    | Locking                  // pthread_mutex_lock
    | Reading                  // ret = request[tail]
    | Moving(req: int)         // tail = (tail + 1) % MAX_REQUEST
    | Unlocking(req: int)      // pthread_mutex_unlock
    | PostingEmpty(req: int)   // sem_post(&sem_empty)
    | Processing(req: int)     // process(ret), in which the thread may exit
    | Dead

  datatype Owner = Nobody | Held(holder: nat)

  /** A read of the queue: which worker got which request. */
  datatype Serve = Serve(worker: nat, req: int)

  /** The shared variables, the place of each thread, and two logs: what was accepted and what was read. */
  datatype State = State(slots: seq<int>, head: nat, tail: nat, empty: nat, full: nat, mutex: Owner,
                         listener: Listener, workers: seq<Worker>, watched: nat,
                         accepted: seq<int>, served: seq<Serve>)

  /**
   A step: the listener's (with what `accept` returns), a worker's (with whether it dies in
   `process`), or the main thread's.
   */
  datatype Action = Listen(ret: int) | Work(i: nat, dies: bool) | Watch

  function Init(slots: seq<int>, workers: nat): State {
    State(slots, 0, 0, |slots|, 0, Nobody, Accepting, seq(workers, _ => WaitingFull), 0, [], [])
  }

  predicate Shaped(s: State) {
    && |s.slots| > 0 && s.head < |s.slots| && s.tail < |s.slots|
    && (s.watched < |s.workers| || s.watched == 0)
  }

  // ---- steps ----

  /** A step of the listener; while `sem_empty` is zero it stays where it is. */
  function ListenerStep(s: State, ret: int): (r: State)
    requires Shaped(s)
    ensures Shaped(r)
  {
    match s.listener
    case Accepting =>
      if ret < 0 then s.(listener := Ended) else s.(listener := WaitingEmpty(ret), accepted := s.accepted + [ret])
    case WaitingEmpty(req) => if s.empty > 0 then s.(empty := s.empty - 1, listener := Storing(req)) else s
    case Storing(req) => s.(slots := s.slots[s.head := req], listener := Advancing)
    case Advancing => s.(head := (s.head + 1) % |s.slots|, listener := PostingFull)
    case PostingFull => s.(full := s.full + 1, listener := Accepting)
    case Ended => s
  }

  function WithWorker(s: State, i: nat, w: Worker): State
    requires i < |s.workers|
  {
    s.(workers := s.workers[i := w])
  }

  /** A step of worker `i`; while the semaphore is zero or the mutex taken it stays where it is. */
  function WorkerStep(s: State, i: nat, dies: bool): (r: State)
    requires Shaped(s) && i < |s.workers|
    ensures Shaped(r)
  {
    match s.workers[i]
    case WaitingFull => if s.full > 0 then WithWorker(s, i, Locking).(full := s.full - 1) else s
    case Locking => if s.mutex.Nobody? then WithWorker(s, i, Reading).(mutex := Held(i)) else s
    case Reading => WithWorker(s, i, Moving(s.slots[s.tail])).(served := s.served + [Serve(i, s.slots[s.tail])])
    case Moving(req) => WithWorker(s, i, Unlocking(req)).(tail := (s.tail + 1) % |s.slots|)
    case Unlocking(req) => WithWorker(s, i, PostingEmpty(req)).(mutex := Nobody)
    case PostingEmpty(req) => WithWorker(s, i, Processing(req)).(empty := s.empty + 1)
    case Processing(_) => WithWorker(s, i, if dies then Dead else WaitingFull)
    case Dead => s
  }

  /** A step of the main thread: it respawns the worker it looks at if that one has ended, and looks at the next. */
  function WatchStep(s: State): (r: State)
    requires Shaped(s)
    ensures Shaped(r)
  {
    if s.workers == [] then s
    else
      var t := if s.workers[s.watched].Dead? then WithWorker(s, s.watched, WaitingFull) else s;
      t.(watched := (s.watched + 1) % |s.workers|)
  }

  function Step(s: State, a: Action): (r: State)
    requires Shaped(s)
    ensures Shaped(r)
  {
    match a
    case Listen(ret) => ListenerStep(s, ret)
    case Work(i, dies) => if i < |s.workers| then WorkerStep(s, i, dies) else s
    case Watch => WatchStep(s)
  }

  function Run(s: State, acts: seq<Action>): (r: State)
    requires Shaped(s)
    ensures Shaped(r)
    decreases |acts|
  {
    if acts == [] then s else Run(Step(s, acts[0]), acts[1..])
  }

  // ---- tokens ----

  /** Whether a worker holds a token of `sem_full` it has not used (1), owes one to `sem_empty` (2), or neither (0). */
  function Phase(w: Worker): nat {
    match w
    case Locking => 1
    case Reading => 1
    case Moving(_) => 2
    case Unlocking(_) => 2
    case PostingEmpty(_) => 2
    case _ => 0
  }

  function InPhase(ws: seq<Worker>, phase: nat): nat {
    if ws == [] then 0 else (if Phase(ws[0]) == phase then 1 else 0) + InPhase(ws[1..], phase)
  }

  lemma {:induction false} InPhaseUpdate(ws: seq<Worker>, i: nat, w: Worker, phase: nat)
    requires i < |ws|
    ensures InPhase(ws[i := w], phase) == InPhase(ws, phase)
              - (if Phase(ws[i]) == phase then 1 else 0) + (if Phase(w) == phase then 1 else 0)
  {
    if i == 0 {
      assert ws[0 := w][1..] == ws[1..];
    } else {
      assert ws[i := w][1..] == ws[1..][i - 1 := w];
      InPhaseUpdate(ws[1..], i - 1, w, phase);
    }
  }

  lemma {:induction false} InPhaseWitness(ws: seq<Worker>, phase: nat) returns (i: nat)
    requires InPhase(ws, phase) > 0
    ensures i < |ws| && Phase(ws[i]) == phase
  {
    if Phase(ws[0]) == phase {
      i := 0;
    } else {
      i := InPhaseWitness(ws[1..], phase);
      i := i + 1;
    }
  }

  lemma {:induction false} InPhaseOf(ws: seq<Worker>, i: nat)
    requires i < |ws|
    ensures InPhase(ws, Phase(ws[i])) > 0
  {
    if i > 0 {
      InPhaseOf(ws[1..], i - 1);
    }
  }

  // ---- the invariant ----

  /** Requests put into slots so far. */
  function Stored(s: State): int {
    |s.accepted| - if s.listener.WaitingEmpty? || s.listener.Storing? then 1 else 0
  }

  function ListenerHolds(s: State): nat {
    if s.listener.Storing? || s.listener.Advancing? || s.listener.PostingFull? then 1 else 0
  }

  function NotPosted(s: State): nat {
    if s.listener.Advancing? || s.listener.PostingFull? then 1 else 0
  }

  /** The slot count is shared out between the semaphores and the threads; the full tokens are the unread requests. */
  ghost predicate TokensKept(s: State) {
    && s.empty + s.full + InPhase(s.workers, 1) + InPhase(s.workers, 2) + ListenerHolds(s) == |s.slots|
    && Stored(s) - |s.served| == s.full + InPhase(s.workers, 1) + NotPosted(s)
  }

  predicate InSection(w: Worker) {
    w.Reading? || w.Moving? || w.Unlocking?
  }

  ghost predicate MutexKept(s: State) {
    && (s.mutex.Held? ==> s.mutex.holder < |s.workers|)
    && forall i :: 0 <= i < |s.workers| ==> (InSection(s.workers[i]) <==> s.mutex == Held(i))
  }

  predicate TailPending(s: State) {
    s.mutex.Held? && s.mutex.holder < |s.workers| && s.workers[s.mutex.holder].Moving?
  }

  /**
   Head and tail are the numbers of stores and reads round the ring, but for a thread between the two
   halves of its update.
   */
  ghost predicate RingKept(s: State)
    requires s.slots != []
  {
    && 0 <= Stored(s)
    && (s.listener.Advancing? ==> Stored(s) > 0)
    && s.head == (if s.listener.Advancing? then Stored(s) - 1 else Stored(s)) % |s.slots|
    && (TailPending(s) ==> s.served != [])
    && s.tail == (if TailPending(s) then |s.served| - 1 else |s.served|) % |s.slots|
  }

  /** The listener's request in hand is the last accepted. */
  ghost predicate ListenerKept(s: State) {
    (s.listener.WaitingEmpty? || s.listener.Storing?) ==>
      s.accepted != [] && s.accepted[|s.accepted| - 1] == s.listener.req
  }

  /** The unread requests are in the slots, and those read were the first accepted, in order. */
  ghost predicate ContentsKept(s: State)
    requires s.slots != []
  {
    && |s.served| <= Stored(s)
    && (forall k :: |s.served| <= k < Stored(s) ==> s.slots[k % |s.slots|] == s.accepted[k])
    && (forall k :: 0 <= k < |s.served| ==> s.served[k].req == s.accepted[k])
  }

  predicate HasRequest(w: Worker) {
    w.Moving? || w.Unlocking? || w.PostingEmpty? || w.Processing?
  }

  /** A worker works on a request it has read. */
  ghost predicate HandsKept(s: State) {
    forall i :: 0 <= i < |s.workers| && HasRequest(s.workers[i]) ==> Serve(i, s.workers[i].req) in s.served
  }

  ghost predicate Inv(s: State) {
    Shaped(s) && TokensKept(s) && MutexKept(s) && RingKept(s) && ListenerKept(s) && ContentsKept(s) && HandsKept(s)
  }

  // ---- the listener keeps it ----

  /** The listener's slot is free when it stores: every unread request is in another one. */
  lemma NoOverwrite(s: State)
    requires Inv(s) && s.listener.Storing?
    ensures Stored(s) - |s.served| < |s.slots|
    ensures forall k :: |s.served| <= k < Stored(s) ==> k % |s.slots| != s.head
  {
    forall k | |s.served| <= k < Stored(s) ensures k % |s.slots| != s.head {
      if k % |s.slots| == Stored(s) % |s.slots| {
        ModuloInjective(k, Stored(s), |s.slots|);
      }
    }
  }

  lemma ListenerKeepsContents(s: State, ret: int)
    requires Inv(s)
    ensures ContentsKept(ListenerStep(s, ret)) && ListenerKept(ListenerStep(s, ret))
  {
    hide MutexKept, HandsKept;
    if s.listener.Storing? {
      NoOverwrite(s);
    }
  }

  lemma ListenerKeepsInv(s: State, ret: int)
    requires Inv(s)
    ensures Inv(ListenerStep(s, ret))
  {
    hide ContentsKept, HandsKept, MutexKept;
    ListenerKeepsContents(s, ret);
    ListenerLeavesWorkers(s, ret);
    if s.listener.Advancing? {
      NextModulo(Stored(s) - 1, |s.slots|);
    }
  }

  lemma ListenerLeavesWorkers(s: State, ret: int)
    requires Inv(s)
    ensures MutexKept(ListenerStep(s, ret)) && HandsKept(ListenerStep(s, ret)) &&
            ListenerStep(s, ret).workers == s.workers
  {
  }

  // ---- the workers keep it ----

  lemma WorkerKeepsTokens(s: State, i: nat, dies: bool)
    requires Inv(s) && i < |s.workers|
    ensures TokensKept(WorkerStep(s, i, dies))
  {
    hide MutexKept, RingKept, ContentsKept, HandsKept, ListenerKept, InPhase;
    var t := WorkerStep(s, i, dies);
    InPhaseUpdate(s.workers, i, t.workers[i], 1);
    InPhaseUpdate(s.workers, i, t.workers[i], 2);
    assert t.workers == s.workers[i := t.workers[i]];
  }

  lemma WorkerKeepsMutex(s: State, i: nat, dies: bool)
    requires Inv(s) && i < |s.workers|
    ensures MutexKept(WorkerStep(s, i, dies))
  {
    hide TokensKept, RingKept, ContentsKept, HandsKept, ListenerKept;
  }

  /** A worker about to read finds an unread request in the tail slot: the oldest one. */
  lemma ReadsOldest(s: State, i: nat)
    requires Inv(s) && i < |s.workers| && s.workers[i].Reading?
    ensures |s.served| < Stored(s) && s.slots[s.tail] == s.accepted[|s.served|]
  {
    InPhaseOf(s.workers, i);
    assert s.mutex == Held(i) && !TailPending(s);
  }

  lemma WorkerKeepsRing(s: State, i: nat, dies: bool)
    requires Inv(s) && i < |s.workers|
    ensures RingKept(WorkerStep(s, i, dies))
  {
    hide TokensKept, ContentsKept, HandsKept, ListenerKept;
    if s.workers[i].Moving? {
      assert s.mutex == Held(i);
      NextModulo(|s.served| - 1, |s.slots|);
    }
    assert InSection(s.workers[i]) <==> s.mutex == Held(i);
  }

  lemma WorkerKeepsContents(s: State, i: nat, dies: bool)
    requires Inv(s) && i < |s.workers|
    ensures ContentsKept(WorkerStep(s, i, dies))
  {
    hide TokensKept, RingKept, MutexKept, HandsKept;
    if s.workers[i].Reading? {
      ReadsOldest(s, i);
    }
  }

  lemma WorkerKeepsHands(s: State, i: nat, dies: bool)
    requires Inv(s) && i < |s.workers|
    ensures HandsKept(WorkerStep(s, i, dies))
  {
    hide TokensKept, RingKept, MutexKept, ContentsKept;
    var t := WorkerStep(s, i, dies);
    assert forall x :: x in s.served ==> x in t.served;
  }

  lemma WatchKeepsInv(s: State)
    requires Inv(s)
    ensures Inv(WatchStep(s))
  {
    hide InPhase;
    var t := WatchStep(s);
    if s.workers != [] && s.workers[s.watched].Dead? {
      InPhaseUpdate(s.workers, s.watched, WaitingFull, 1);
      InPhaseUpdate(s.workers, s.watched, WaitingFull, 2);
      assert t.workers == s.workers[s.watched := WaitingFull];
    }
  }

  lemma StepKeepsInv(s: State, a: Action)
    requires Inv(s)
    ensures Inv(Step(s, a))
  {
    hide TokensKept, MutexKept, RingKept, ContentsKept, HandsKept;
    match a {
      case Listen(ret) => ListenerKeepsInv(s, ret);
      case Work(i, dies) =>
        if i < |s.workers| {
          WorkerKeepsTokens(s, i, dies);
          WorkerKeepsMutex(s, i, dies);
          WorkerKeepsRing(s, i, dies);
          WorkerKeepsContents(s, i, dies);
          WorkerKeepsHands(s, i, dies);
        }
      case Watch => WatchKeepsInv(s);
    }
  }

  lemma {:induction false} RunKeepsInv(s: State, acts: seq<Action>)
    requires Inv(s)
    ensures Inv(Run(s, acts))
    decreases |acts|
  {
    hide TokensKept, MutexKept, RingKept, ListenerKept, ContentsKept, HandsKept, Step;
    if acts != [] {
      StepKeepsInv(s, acts[0]);
      RunKeepsInv(Step(s, acts[0]), acts[1..]);
    }
  }

  lemma {:induction false} InitInv(slots: seq<int>, workers: nat)
    requires slots != []
    ensures Inv(Init(slots, workers))
  {
    AllIdle(workers, 1);
    AllIdle(workers, 2);
  }

  lemma {:induction false} AllIdle(n: nat, phase: nat)
    requires phase > 0
    ensures InPhase(seq(n, _ => WaitingFull), phase) == 0
  {
    if n > 0 {
      assert seq(n, _ => WaitingFull)[1..] == seq(n - 1, _ => WaitingFull);
      AllIdle(n - 1, phase);
    }
  }

  /**
   Under every interleaving the queue is a FIFO: the requests read so far are the first ones
   accepted, in order, one worker each; the others wait in their slots; and the slot count is
   always the two semaphores plus the tokens in the threads' hands.
   */
  lemma {:induction false} QueueIsFifo(slots: seq<int>, workers: nat, acts: seq<Action>)
    requires slots != []
    ensures var s := Run(Init(slots, workers), acts);
            && |s.served| <= |s.accepted|
            && (forall k :: 0 <= k < |s.served| ==> s.served[k].req == s.accepted[k])
            && (forall k :: |s.served| <= k < Stored(s) ==> s.slots[k % |s.slots|] == s.accepted[k])
            && TokensKept(s) && HandsKept(s)
  {
    InitInv(slots, workers);
    RunKeepsInv(Init(slots, workers), acts);
  }

  // ---- deaths and arrivals ----

  /**
   A worker dies when it is told to while it works on a request, and at no other step; then it holds
   no token and no lock.
   */
  lemma DiesOnlyAtWork(s: State, a: Action, i: nat)
    requires Inv(s) && i < |s.workers|
    ensures var t := Step(s, a);
            && |t.workers| == |s.workers|
            && (t.workers[i].Dead? && !s.workers[i].Dead? <==> a == Work(i, true) && s.workers[i].Processing?)
            && (t.workers[i].Dead? ==> Phase(t.workers[i]) == 0 && t.mutex != Held(i))
  {
    hide TokensKept, RingKept, ListenerKept, ContentsKept, HandsKept;
  }

  /** A dead worker comes back exactly when the main thread looks at it. */
  lemma ReturnsOnlyWhenWatched(s: State, a: Action, i: nat)
    requires Shaped(s) && i < |s.workers| && s.workers[i].Dead?
    ensures var t := Step(s, a);
            |t.workers| == |s.workers| && (!t.workers[i].Dead? <==> a.Watch? && s.watched == i)
  {
  }

  /** The sockets that `accept` returns during a run, up to its first failure, which ends the listener. */
  function Arrivals(s: State, acts: seq<Action>): seq<int>
    requires Shaped(s)
    decreases |acts|
  {
    if acts == [] || s.listener.Ended? then []
    else if acts[0].Listen? && s.listener.Accepting? then
      if acts[0].ret < 0 then [] else [acts[0].ret] + Arrivals(Step(s, acts[0]), acts[1..])
    else Arrivals(Step(s, acts[0]), acts[1..])
  }

  /** What one step accepts. */
  lemma StepAccepts(s: State, a: Action)
    requires Shaped(s)
    ensures var t, calls := Step(s, a), a.Listen? && s.listener.Accepting?;
            && t.accepted == (if calls && a.ret >= 0 then s.accepted + [a.ret] else s.accepted)
            && ((calls && a.ret < 0) || s.listener.Ended? ==> t.listener.Ended?)
  {
  }

  /** Every socket accepted during a run is queued, in order, and nothing else ever is. */
  lemma {:induction false} AcceptsAllArrivals(s: State, acts: seq<Action>)
    requires Shaped(s)
    ensures Run(s, acts).accepted == s.accepted + Arrivals(s, acts)
    decreases |acts|
  {
    hide Step;
    if acts == [] {
      assert s.accepted + [] == s.accepted;
    } else {
      StepAccepts(s, acts[0]);
      AcceptsAllArrivals(Step(s, acts[0]), acts[1..]);
    }
  }

  // ---- progress ----

  /** How many steps the listener is away from having posted its request. */
  function ListenerSteps(l: Listener): nat {
    match l
    case WaitingEmpty(_) => 4
    case Storing(_) => 3
    case Advancing => 2
    case PostingFull => 1
    case _ => 0
  }

  /** How many steps a worker is away from having read a request. */
  function WorkerSteps(w: Worker): nat {
    match w
    case Reading => 1
    case Locking => 2
    case WaitingFull => 3
    case Processing(_) => 4
    case Dead => 4
    case PostingEmpty(_) => 5
    case Unlocking(_) => 6
    case Moving(_) => 7
  }

  function WorkersSteps(ws: seq<Worker>): (n: nat)
    ensures n <= 7 * |ws|
  {
    if ws == [] then 0 else WorkerSteps(ws[0]) + WorkersSteps(ws[1..])
  }

  lemma {:induction false} WorkersStepsUpdate(ws: seq<Worker>, i: nat, w: Worker)
    requires i < |ws|
    ensures WorkersSteps(ws[i := w]) == WorkersSteps(ws) - WorkerSteps(ws[i]) + WorkerSteps(w)
  {
    if i == 0 {
      assert ws[0 := w][1..] == ws[1..];
    } else {
      assert ws[i := w][1..] == ws[1..][i - 1 := w];
      WorkersStepsUpdate(ws[1..], i - 1, w);
    }
  }

  function StepsLeft(s: State): nat {
    ListenerSteps(s.listener) + WorkersSteps(s.workers)
  }

  /** The step reads a request, or brings some thread closer to that; nothing new is accepted. */
  predicate Advances(s: State, t: State) {
    && t.accepted == s.accepted && |t.workers| == |s.workers|
    && (|t.served| == |s.served| + 1 || (t.served == s.served && StepsLeft(t) < StepsLeft(s)))
  }

  /** A worker that is not blocked advances. */
  lemma WorkerAdvances(s: State, i: nat)
    requires Shaped(s) && i < |s.workers| && !s.workers[i].Dead?
    requires s.workers[i].WaitingFull? ==> s.full > 0
    requires s.workers[i].Locking? ==> s.mutex.Nobody?
    ensures Advances(s, Step(s, Work(i, false)))
  {
    var t := Step(s, Work(i, false));
    WorkersStepsUpdate(s.workers, i, t.workers[i]);
    assert t.workers == s.workers[i := t.workers[i]];
  }

  lemma ListenerAdvances(s: State)
    requires Shaped(s) && !s.listener.Accepting? && !s.listener.Ended?
    requires s.listener.WaitingEmpty? ==> s.empty > 0
    ensures Advances(s, Step(s, Listen(0)))
  {
  }

  /** With every worker dead, the main thread respawns the one it looks at. */
  lemma WatchAdvances(s: State)
    requires Shaped(s) && s.workers != [] && forall i :: 0 <= i < |s.workers| ==> s.workers[i].Dead?
    ensures Advances(s, Step(s, Watch))
  {
    WorkersStepsUpdate(s.workers, s.watched, WaitingFull);
  }

  /** While a request is waiting, some thread has a step that advances. */
  lemma SomeoneAdvances(s: State) returns (a: Action)
    requires Inv(s) && s.workers != [] && |s.served| < |s.accepted|
    ensures Advances(s, Step(s, a))
  {
    hide Advances, Step, RingKept, ContentsKept, HandsKept, ListenerKept;
    if s.mutex.Held? {
      assert InSection(s.workers[s.mutex.holder]);
      WorkerAdvances(s, s.mutex.holder);
      a := Work(s.mutex.holder, false);
    } else if InPhase(s.workers, 1) > 0 {
      var i := InPhaseWitness(s.workers, 1);
      WorkerAdvances(s, i);
      a := Work(i, false);
    } else if s.full > 0 {
      a := IdleAdvances(s);
    } else if s.listener.WaitingEmpty? && s.empty == 0 {
      var i := InPhaseWitness(s.workers, 2);
      WorkerAdvances(s, i);
      a := Work(i, false);
    } else {
      ListenerAdvances(s);
      a := Listen(0);
    }
  }

  /**
   With a token to take and no lock to wait for, any live worker advances, and if there is none the
   main thread does.
   */
  lemma IdleAdvances(s: State) returns (a: Action)
    requires Shaped(s) && s.workers != [] && s.full > 0 && s.mutex.Nobody?
    ensures Advances(s, Step(s, a))
  {
    hide Advances, Step;
    if i: nat :| i < |s.workers| && !s.workers[i].Dead? {
      WorkerAdvances(s, i);
      a := Work(i, false);
    } else {
      WatchAdvances(s);
      a := Watch;
    }
  }

  /**
   The queue never stalls: from every reachable state in which an accepted request has not been
   read, a bounded number of steps that accept nothing leads to one where the oldest such request
   has been read, even if every worker was dead.
   */
  lemma {:induction false} NeverStalls(s: State) returns (acts: seq<Action>)
    requires Inv(s) && s.workers != [] && |s.served| < |s.accepted|
    ensures |acts| <= StepsLeft(s) <= 4 + 7 * |s.workers|
    ensures var t := Run(s, acts);
            && Inv(t) && t.accepted == s.accepted && |t.workers| == |s.workers|
            && |t.served| == |s.served| + 1 && t.served[|s.served|].req == s.accepted[|s.served|]
    decreases StepsLeft(s)
  {
    hide TokensKept, MutexKept, RingKept, ListenerKept, HandsKept, Step;
    var a := SomeoneAdvances(s);
    var t := Step(s, a);
    StepKeepsInv(s, a);
    if |t.served| == |s.served| + 1 {
      acts := [a];
      StepsArePositive(s, a);
      assert Run(s, acts) == Run(t, []) == t;
    } else {
      var rest := NeverStalls(t);
      acts := [a] + rest;
      assert acts[1..] == rest;
    }
  }

  /** Only a worker about to read can read. */
  lemma StepsArePositive(s: State, a: Action)
    requires Shaped(s) && |Step(s, a).served| > |s.served|
    ensures StepsLeft(s) > 0
  {
    PartOfSteps(s.workers, a.i);
  }

  lemma {:induction false} PartOfSteps(ws: seq<Worker>, i: nat)
    requires i < |ws|
    ensures WorkersSteps(ws) >= WorkerSteps(ws[i])
  {
    if i > 0 { PartOfSteps(ws[1..], i - 1); }
  }

  /** Every accepted request is read in the end, if nothing but the threads' own steps is taken. */
  lemma {:induction false} AllAreRead(s: State) returns (acts: seq<Action>)
    requires Inv(s) && s.workers != []
    ensures var t := Run(s, acts);
            && t.accepted == s.accepted && |t.served| == |s.accepted|
            && forall k :: 0 <= k < |s.accepted| ==> t.served[k].req == s.accepted[k]
    decreases |s.accepted| - |s.served|
  {
    hide TokensKept, MutexKept, RingKept, ListenerKept, HandsKept, Step;
    if |s.served| == |s.accepted| {
      acts := [];
    } else {
      var first := NeverStalls(s);
      var rest := AllAreRead(Run(s, first));
      acts := first + rest;
      RunAppends(s, first, rest);
    }
  }

  lemma {:induction false} RunAppends(s: State, a: seq<Action>, b: seq<Action>)
    requires Shaped(s)
    ensures Run(s, a + b) == Run(Run(s, a), b)
    decreases |a|
  {
    hide Step;
    if a == [] {
      assert a + b == b;
    } else {
      assert (a + b)[1..] == a[1..] + b;
      RunAppends(Step(s, a[0]), a[1..], b);
    }
  }

  /** `n` steps of the main thread. */
  function Watches(s: State, n: nat): (r: State)
    requires Shaped(s)
    ensures Shaped(r) && |r.workers| == |s.workers|
  {
    if n == 0 then s else WatchStep(Watches(s, n - 1))
  }

  lemma {:induction false} WatchesRespawn(s: State, k: nat)
    requires Shaped(s) && k <= |s.workers| && s.workers != []
    ensures var u, n := Watches(s, k), |s.workers|;
            u.watched == Slot(s.watched, k, n) && forall d :: 0 <= d < k ==> !u.workers[Slot(s.watched, d, n)].Dead?
  {
    if k > 0 {
      WatchesRespawn(s, k - 1);
      var w, n := Slot(s.watched, k - 1, |s.workers|), |s.workers|;
      NextModulo(w, n);
      ModuloUnique(w, n, 0, w);
    }
  }

  /** A round of the main thread respawns every worker that has died. */
  lemma {:induction false} RoundRespawnsAll(s: State)
    requires Shaped(s) && s.workers != []
    ensures forall i :: 0 <= i < |s.workers| ==> !Watches(s, |s.workers|).workers[i].Dead?
  {
    var n := |s.workers|;
    WatchesRespawn(s, n);
    forall i | 0 <= i < n ensures !Watches(s, n).workers[i].Dead? {
      var d := if i >= s.watched then i - s.watched else i + n - s.watched;
      assert i == Slot(s.watched, d, n);
    }
  }
}
