/**
 Peterson's lock for two threads, each of which increments a shared counter K times, as atomic
 loads and stores of shared variables under any interleaving.  The spin test is two loads and
 `count++` is a load and a store.
 */
module PetersonLock {

  datatype Pc =
    | SetFlag     // flag[self] = 1
    | SetTurn     // turn = 1 - self
    | ReadFlag    // the first operand of the spin test
    | ReadTurn    // the second operand
    | Load        // count++: the read
    | Store       // count++: the write
    | Clear       // flag[self] = 0
    | Done

  /** A thread: where it is, how many iterations it has finished, and the value it loaded. */
  datatype Thread = Thread(pc: Pc, i: nat, tmp: int)

  datatype State = State(flag: seq<bool>, turn: nat, count: int, threads: seq<Thread>)

  /** The head of the loop in `func`. */
  function Head(i: nat, K: nat): Pc {
    if i < K then SetFlag else Done
  }

  /** After `lock_init`, with both threads about to enter their loops. */
  function Init(K: nat): State {
    State([false, false], 0, 0, [Thread(Head(0, K), 0, 0), Thread(Head(0, K), 0, 0)])
  }

  ghost predicate Shaped(s: State) {
    |s.flag| == 2 && |s.threads| == 2
  }

  function Go(s: State, self: nat, pc: Pc): (r: State)
    requires self < |s.threads|
  {
    s.(threads := s.threads[self := s.threads[self].(pc := pc)])
  }

  /** One step of thread `self`; a thread that is done does nothing. */
  function Step(s: State, self: nat, K: nat): (r: State)
    requires Shaped(s) && self < 2
    ensures Shaped(r)
  {
    var other, t := 1 - self, s.threads[self];
    match t.pc
    case SetFlag => Go(s, self, SetTurn).(flag := s.flag[self := true])
    case SetTurn => Go(s, self, ReadFlag).(turn := other)
    case ReadFlag => Go(s, self, if s.flag[other] then ReadTurn else Load)
    case ReadTurn => Go(s, self, if s.turn == other then ReadFlag else Load)
    case Load => s.(threads := s.threads[self := t.(pc := Store, tmp := s.count)])
    case Store => Go(s, self, Clear).(count := t.tmp + 1)
    case Clear => s.(flag := s.flag[self := false],
      threads := s.threads[self := Thread(Head(t.i + 1, K), t.i + 1, t.tmp)])
    case Done => s
  }

  /** The state after the threads have run in the order of `schedule`. */
  function Run(s: State, schedule: seq<nat>, K: nat): (r: State)
    requires Shaped(s) && forall k :: 0 <= k < |schedule| ==> schedule[k] < 2
    ensures Shaped(r)
    decreases |schedule|
  {
    if schedule == [] then s else Run(Step(s, schedule[0], K), schedule[1..], K)
  }

  predicate InCritical(t: Thread) {
    t.pc.Load? || t.pc.Store? || t.pc.Clear?
  }

  predicate Spins(t: Thread) {
    t.pc.ReadFlag? || t.pc.ReadTurn?
  }

  // ---- safety ----

  /** What one thread's place says about the shared variables and the other thread. */
  ghost predicate Own(s: State, self: nat, K: nat)
    requires Shaped(s) && self < 2
  {
    var t, o := s.threads[self], s.threads[1 - self];
    && (s.flag[self] <==> !t.pc.SetFlag? && !t.pc.Done?)
    && t.i <= K && (t.pc.Done? <==> t.i == K)
    && (InCritical(t) ==> !InCritical(o) && (Spins(o) ==> s.turn == self))
    && (t.pc.Store? ==> t.tmp == s.count)
  }

  function Pending(t: Thread): nat {
    if t.pc.Clear? then 1 else 0
  }

  ghost predicate Inv(s: State, K: nat) {
    && Shaped(s) && s.turn < 2
    && Own(s, 0, K) && Own(s, 1, K)
    && s.count == s.threads[0].i + s.threads[1].i + Pending(s.threads[0]) + Pending(s.threads[1])
  }

  lemma StepKeepsInv(s: State, self: nat, K: nat)
    requires Inv(s, K) && self < 2
    ensures Inv(Step(s, self, K), K)
  {
    hide Inv, Step;
    if self == 0 {
      FirstKeepsInv(s, K);
    } else {
      SecondKeepsInv(s, K);
    }
  }

  lemma FirstKeepsInv(s: State, K: nat)
    requires Inv(s, K)
    ensures Inv(Step(s, 0, K), K)
  {
  }

  lemma SecondKeepsInv(s: State, K: nat)
    requires Inv(s, K)
    ensures Inv(Step(s, 1, K), K)
  {
  }

  lemma {:induction false} RunKeepsInv(s: State, schedule: seq<nat>, K: nat)
    requires Inv(s, K) && forall k :: 0 <= k < |schedule| ==> schedule[k] < 2
    ensures Inv(Run(s, schedule, K), K)
    decreases |schedule|
  {
    if schedule != [] {
      StepKeepsInv(s, schedule[0], K);
      RunKeepsInv(Step(s, schedule[0], K), schedule[1..], K);
    }
  }

  /**
   In every interleaving the threads are never both in the critical section, and a finished pair has
   counted to 2K.
   */
  lemma {:induction false} MutualExclusion(schedule: seq<nat>, K: nat)
    requires forall k :: 0 <= k < |schedule| ==> schedule[k] < 2
    ensures var s := Run(Init(K), schedule, K);
            && !(InCritical(s.threads[0]) && InCritical(s.threads[1]))
            && (s.threads[0].pc.Done? && s.threads[1].pc.Done? ==> s.count == 2 * K)
  {
    RunKeepsInv(Init(K), schedule, K);
  }

  // ---- progress ----

  /** `n` steps of one thread alone. */
  function Solo(s: State, self: nat, n: nat, K: nat): (r: State)
    requires Shaped(s) && self < 2
    ensures Shaped(r)
    decreases n
  {
    if n == 0 then s else Solo(Step(s, self, K), self, n - 1, K)
  }

  /** Steps thread `self`, once free, needs to finish its iteration. */
  function StepsLeft(s: State, self: nat): nat
    requires Shaped(s) && self < 2
  {
    match s.threads[self].pc
    case SetFlag => 6
    case SetTurn => 5
    case ReadFlag => if s.flag[1 - self] then 5 else 4
    case ReadTurn => if s.turn == 1 - self then 5 else 4
    case Load => 3
    case Store => 2
    case Clear => 1
    case Done => 0
  }

  /** Whether `self`, running alone, gets through its spin test. */
  ghost predicate Free(s: State, self: nat)
    requires Shaped(s) && self < 2
  {
    var t, o := s.threads[self], s.threads[1 - self];
    InCritical(t) || (!s.flag[1 - self] && !t.pc.Done?) || (Spins(t) && s.turn == self)
  }

  /** A free thread, running alone, finishes its iteration in as many steps as it has left. */
  lemma {:induction false} SoloFinishes(s: State, self: nat, K: nat)
    requires Inv(s, K) && self < 2 && Free(s, self)
    ensures StepsLeft(s, self) > 0
    ensures Solo(s, self, StepsLeft(s, self), K).threads[self].i == s.threads[self].i + 1
    decreases StepsLeft(s, self)
  {
    StepKeepsInv(s, self, K);
    var u := Step(s, self, K);
    if !s.threads[self].pc.Clear? {
      assert StepsLeft(u, self) == StepsLeft(s, self) - 1;
      SoloFinishes(u, self, K);
    }
  }

  /** Each thread that is about to give the turn away does so. */
  function Settle(s: State, K: nat): (r: State)
    requires Shaped(s)
    ensures Shaped(r)
  {
    var u := if s.threads[0].pc.SetTurn? then Step(s, 0, K) else s;
    if u.threads[1].pc.SetTurn? then Step(u, 1, K) else u
  }

  predicate BothDone(s: State)
    requires Shaped(s)
  {
    s.threads[0].pc.Done? && s.threads[1].pc.Done?
  }

  lemma SomeoneIsFree(s: State, K: nat)
    requires Inv(s, K) && !BothDone(s)
    ensures var u := Settle(s, K); Inv(u, K) && (Free(u, 0) || Free(u, 1))
  {
    if s.threads[0].pc.SetTurn? { StepKeepsInv(s, 0, K); }
    var u := if s.threads[0].pc.SetTurn? then Step(s, 0, K) else s;
    if u.threads[1].pc.SetTurn? { StepKeepsInv(u, 1, K); }
  }

  /**
   The threads are never both stuck: after any interleaving that leaves one of them unfinished,
   once nobody is about to set the turn, some thread finishes its iteration within six steps of
   its own.
   */
  lemma {:induction false} NeverBothStuck(schedule: seq<nat>, K: nat) returns (self: nat, n: nat)
    requires forall k :: 0 <= k < |schedule| ==> schedule[k] < 2
    requires !BothDone(Run(Init(K), schedule, K))
    ensures var u := Settle(Run(Init(K), schedule, K), K);
            self < 2 && n <= 6 && Solo(u, self, n, K).threads[self].i == u.threads[self].i + 1
  {
    var s := Run(Init(K), schedule, K);
    RunKeepsInv(Init(K), schedule, K);
    SomeoneIsFree(s, K);
    var u := Settle(s, K);
    self := if Free(u, 0) then 0 else 1;
    SoloFinishes(u, self, K);
    n := StepsLeft(u, self);
  }

  // ---- bounded waiting ----

  /** Thread `self` waits in its spin test during the whole run. */
  predicate WaitsThroughout(s: State, schedule: seq<nat>, self: nat, K: nat)
    requires Shaped(s) && self < 2 && forall k :: 0 <= k < |schedule| ==> schedule[k] < 2
    decreases |schedule|
  {
    Spins(s.threads[self]) && (schedule == [] || WaitsThroughout(Step(s, schedule[0], K), schedule[1..], self, K))
  }

  /** How often thread `self` enters the critical section during a run. */
  function Entries(s: State, schedule: seq<nat>, self: nat, K: nat): nat
    requires Shaped(s) && self < 2 && forall k :: 0 <= k < |schedule| ==> schedule[k] < 2
    decreases |schedule|
  {
    if schedule == [] then 0
    else
      var t := Step(s, schedule[0], K);
      (if Spins(s.threads[self]) && InCritical(t.threads[self]) then 1 else 0) + Entries(t, schedule[1..], self, K)
  }

  /**
   Bounded waiting: while one thread waits, the other enters at most once, and not at all unless
   it is itself past `SetTurn` with the turn in its favour.
   */
  lemma {:induction false} BoundedWaiting(s: State, schedule: seq<nat>, self: nat, K: nat)
    requires Inv(s, K) && self < 2 && forall k :: 0 <= k < |schedule| ==> schedule[k] < 2
    requires WaitsThroughout(s, schedule, self, K)
    ensures Entries(s, schedule, 1 - self, K) <= if s.turn == 1 - self && Spins(s.threads[1 - self]) then 1 else 0
    decreases |schedule|
  {
    if schedule != [] {
      var t := Step(s, schedule[0], K);
      assert schedule[0] == self || schedule[0] == 1 - self;
      StepKeepsInv(s, schedule[0], K);
      BoundedWaiting(t, schedule[1..], self, K);
    }
  }
}
