/** FIFO and CLOCK: which frame is replaced, over whole runs. */
module PagingRings {
  import opened Sequences
  import opened PagingModel

  // ---- CLOCK: one replacement ----

  /**
   The hand stops at the first frame in circular order whose bit is clear, or comes back to its
   own frame when every bit is set; the bits it passes are cleared, the victim's is set, and the
   bits beyond the victim are as they were.
   */
  lemma ClockPicksFirstClear(bits: seq<bool>, hand: nat)
    requires hand < |bits|
    ensures var v, after := ClockVictim(bits, hand), ClockBits(bits, hand);
            && after[v]
            && (if forall f :: 0 <= f < |bits| ==> bits[f] then
                  v == hand && forall f :: 0 <= f < |bits| && f != hand ==> !after[f]
                else
                  && !bits[v]
                  && (forall f :: 0 <= f < |bits| && Ahead(hand, f, |bits|) < Ahead(hand, v, |bits|) ==>
                      bits[f] && !after[f])
                  && (forall f :: 0 <= f < |bits| && Ahead(hand, f, |bits|) > Ahead(hand, v, |bits|) ==>
                      bits[f] == after[f]))
  {
    var k, n := |bits|, Passed(bits, hand, 0);
    forall f | 0 <= f < k && Ahead(hand, f, k) < n ensures bits[f] {
      assert bits[Slot(hand, Ahead(hand, f, k), k)];
    }
    if n < k {
      assert Ahead(hand, Slot(hand, n, k), k) == n;
    }
  }

  // ---- FIFO: the n-th fault ----

  function FaultOf(s: Vm, q: Request): seq<Page> {
    if Reaches(s.config, q) && PageOf(q) !in s.store.table then [PageOf(q)] else []
  }

  /** The pages that have faulted when a run ends, in order, those of `log` before it. */
  function FaultLog(s: Vm, log: seq<Page>, qs: seq<Request>): seq<Page>
    requires Consistent(s) && s.config.frames > 0
    decreases |qs|
  {
    if qs == [] then log
    else
      var (t, r) := Serve(s, qs[0]);
      if Continues(r) then FaultLog(t, log + FaultOf(s, qs[0]), qs[1..]) else log + FaultOf(s, qs[0])
  }

  /** Of the faults in `log`, number j put its page in frame j mod k; the last k of them are still there. */
  ghost predicate RingHolds(owner: seq<Page>, log: seq<Page>, k: nat) {
    && k > 0
    && |owner| == (if |log| < k then |log| else k)
    && forall j {:trigger log[j]} :: 0 <= j < |log| && |log| - k <= j ==> j % k < |owner| && owner[j % k] == log[j]
  }

  /** The state of FIFO after the faults of `log`. */
  ghost predicate FifoAfter(s: Vm, log: seq<Page>) {
    && Consistent(s) && s.config.policy == Fifo
    && RingHolds(s.store.owner, log, s.config.frames)
    && s.rep.fifoTail == (if |log| < s.config.frames then 0 else |log| % s.config.frames)
  }

  lemma RingPlaced(owner: seq<Page>, log: seq<Page>, k: nat, p: Page)
    requires RingHolds(owner, log, k)
    ensures |log| % k <= |owner| && RingHolds(Placed(owner, |log| % k, p), log + [p], k)
  {
    if |log| < k {
      ModuloUnique(|log|, k, 0, |log|);
    }
    var placed := Placed(owner, |log| % k, p);
    forall j | 0 <= j < |log| + 1 && |log| + 1 - k <= j ensures j % k < |placed| && placed[j % k] == (log + [p])[j] {
      SlotPlaced(owner, log, k, p, j);
    }
  }

  /** Each of the last `k` pages of the longer log is in its slot. */
  lemma SlotPlaced(owner: seq<Page>, log: seq<Page>, k: nat, p: Page, j: nat)
    requires RingHolds(owner, log, k) && |log| % k <= |owner| && |log| + 1 - k <= j <= |log|
    ensures var placed := Placed(owner, |log| % k, p); j % k < |placed| && placed[j % k] == (log + [p])[j]
  {
    if j < |log| {
      if j % k == |log| % k { ModuloInjective(j, |log|, k); }
      assert owner[j % k] == log[j];
    }
  }

  /** Fault number n, counted from 0, lands in frame n mod frames. */
  lemma FifoFault(s: Vm, log: seq<Page>, p: Page, write: bool)
    requires FifoAfter(s, log) && p !in s.store.table
    ensures PageFault(s, p, write).1 == |log| % s.config.frames
    ensures FifoAfter(PageFault(s, p, write).0, log + [p])
  {
    var k := s.config.frames;
    RingPlaced(s.store.owner, log, k, p);
    NextModulo(|log|, k);
    if |log| < k {
      ModuloUnique(|log|, k, 0, |log|);
      if |log| + 1 == k { ModuloUnique(k, k, 1, 0); }
    }
  }

  /** The ring and the tail are all FifoAfter looks at. */
  lemma FifoAfterFrame(s: Vm, t: Vm, log: seq<Page>)
    requires FifoAfter(s, log) && Consistent(t)
    requires t.config == s.config && t.store.owner == s.store.owner && t.rep.fifoTail == s.rep.fifoTail
    ensures FifoAfter(t, log)
  {
  }

  lemma ServeKeepsFifo(s: Vm, log: seq<Page>, q: Request)
    requires FifoAfter(s, log)
    ensures FifoAfter(Serve(s, q).0, log + FaultOf(s, q))
  {
    assert log + [] == log;
    if Reaches(s.config, q) {
      var p, write := PageOf(q), q.kind == 'W';
      var t := Access(s, p, write).0;
      if p in s.store.table {
        FifoAfterFrame(s, Serve(s, q).0, log);
      } else {
        FifoFault(s, log, p, write);
        FifoAfterFrame(PageFault(s, p, write).0, Serve(s, q).0, log + [p]);
      }
    }
  }

  /**
   After any run, frame j mod frames holds the page of fault j, for each of the last `frames` faults.
   */
  lemma {:induction false} FifoHoldsLastFaults(s: Vm, log: seq<Page>, qs: seq<Request>)
    requires FifoAfter(s, log)
    ensures FifoAfter(Run(s, qs).0, FaultLog(s, log, qs))
    decreases |qs|
  {
    if qs != [] {
      ServeKeepsFifo(s, log, qs[0]);
      if Continues(Serve(s, qs[0]).1) {
        FifoHoldsLastFaults(Serve(s, qs[0]).0, log + FaultOf(s, qs[0]), qs[1..]);
      }
    }
  }

  /** `p` is the page of one of the last `k` faults. */
  ghost predicate AmongLast(log: seq<Page>, k: nat, p: Page) {
    exists j :: 0 <= j < |log| && |log| - k <= j && log[j] == p
  }

  /** What a ring holds are the pages of its last k faults. */
  lemma RingContents(owner: seq<Page>, log: seq<Page>, k: nat, p: Page)
    requires RingHolds(owner, log, k)
    ensures p in owner <==> AmongLast(log, k, p)
  {
    if p in owner {
      var f :| 0 <= f < |owner| && owner[f] == p;
      var j := LatestInSlot(|log|, k, f);
      assert log[j] == p;
    }
  }

  lemma ResidentAfter(s: Vm, log: seq<Page>, p: Page)
    requires FifoAfter(s, log)
    ensures p in s.store.table <==> AmongLast(log, s.config.frames, p)
  {
    RingContents(s.store.owner, log, s.config.frames, p);
  }

  /** The resident pages are exactly those of the last `frames` faults. */
  lemma FifoResident(c: Config, qs: seq<Request>, p: Page)
    requires c.policy == Fifo && c.frames > 0
    ensures var log := FaultLog(Init(c), [], qs);
            p in Run(Init(c), qs).0.store.table <==> AmongLast(log, c.frames, p)
  {
    FifoHoldsLastFaults(Init(c), [], qs);
    ResidentAfter(Run(Init(c), qs).0, FaultLog(Init(c), [], qs), p);
  }

  /** The last fault that used frame `f`. */
  lemma LatestInSlot(n: nat, k: nat, f: nat) returns (j: nat)
    requires k > 0 && f < k && (n < k ==> f < n)
    ensures j < n && n - k <= j && j % k == f
  {
    if n < k {
      j := f;
      ModuloUnique(f, k, 0, f);
    } else {
      var q, r := n / k, n % k;
      assert n == q * k + r;
      if f < r {
        j := q * k + f;
        ModuloUnique(j, k, q, f);
      } else {
        assert q * k == (q - 1) * k + k;
        assert q > 0;
        assert (q - 1) * k >= 0;
        j := (q - 1) * k + f;
        ModuloUnique(j, k, q - 1, f);
      }
    }
  }

  // ---- CLOCK against FIFO ----

  /** CLOCK's bits when nothing has been hit since the first replacement: those behind the hand are set. */
  ghost predicate SweptTo(bits: seq<bool>, hand: nat) {
    hand < |bits| && forall i :: 0 <= i < |bits| ==> (bits[i] <==> i < hand || hand == 0)
  }

  lemma SweptStep(bits: seq<bool>, hand: nat)
    requires SweptTo(bits, hand)
    ensures ClockVictim(bits, hand) == hand
    ensures SweptTo(ClockBits(bits, hand), (hand + 1) % |bits|)
  {
    var k := |bits|;
    NextModulo(hand, k);
    ModuloUnique(hand, k, 0, hand);
    if hand == 0 {
      forall d | 0 <= d < k ensures bits[Slot(hand, d, k)] {}
      assert Passed(bits, hand, 0) == k;
    } else {
      assert Passed(bits, hand, 0) == 0;
    }
  }

  /** `s` runs FIFO and `t` CLOCK, with the same tables, memory, disk and counters, and the hands together. */
  ghost predicate Twins(s: Vm, t: Vm) {
    && Consistent(s) && Consistent(t) && s.config.frames > 0
    && s.config.policy == Fifo && t.config == s.config.(policy := Clock)
    && s.store == t.store && s.stats == t.stats
    && t.rep.clockTail == s.rep.fifoTail
    && |s.store.owner| <= s.stats.misses
    && (s.store.owner != [] ==> SweptTo(t.rep.clockRef, s.rep.fifoTail))
    && (s.stats.misses <= s.config.frames ==> s.rep.fifoTail == 0)
    && (|s.store.owner| < s.config.frames ==> s.rep.fifoTail == 0)
  }

  predicate NoLateHitNow(s: Vm, q: Request) {
    Reaches(s.config, q) && s.stats.misses > s.config.frames ==> PageOf(q) !in s.store.table
  }

  /** No page is hit once a page has been replaced, that is, after more misses than frames. */
  ghost predicate NoLateHit(s: Vm, qs: seq<Request>)
    requires Consistent(s) && s.config.frames > 0
    decreases |qs|
  {
    qs == [] || (NoLateHitNow(s, qs[0]) && NoLateHit(Serve(s, qs[0]).0, qs[1..]))
  }

  lemma TwinsFault(s: Vm, t: Vm, p: Page, write: bool)
    requires Twins(s, t) && p !in s.store.table
    ensures var (u, f) := PageFault(s, p, write);
            var (v, g) := PageFault(t, p, write);
            f == g && Twins(CountMiss(u), CountMiss(v))
  {
    hide TablesInverse, Evict, Load, ClockBits, ClockVictim;
    if |s.store.owner| == s.config.frames {
      var hand, bits := s.rep.fifoTail, t.rep.clockRef;
      SweptStep(bits, hand);
      assert FindReplacement(t.config, t.rep) ==
             (t.rep.(clockRef := ClockBits(bits, hand), clockTail := (hand + 1) % s.config.frames), hand);
    }
  }

  lemma TwinsHit(s: Vm, t: Vm, p: Page, write: bool)
    requires Twins(s, t) && p in s.store.table && s.stats.misses <= s.config.frames
    ensures Twins(CountHit(Hit(s, p, write)), CountHit(Hit(t, p, write)))
  {
    var f := t.store.table[p].pfn;
    assert t.store.owner[f] == p;
    assert t.rep.clockRef[f := true] == t.rep.clockRef;
  }

  lemma TwinsFinish(s: Vm, t: Vm, f: nat, hit: bool, q: Request)
    requires Twins(s, t) && f < |s.store.mem|
    ensures Twins(Finish(s, f, hit, q).0, Finish(t, f, hit, q).0) && Finish(s, f, hit, q).1 == Finish(t, f, hit, q).1
  {
  }

  lemma TwinsServe(s: Vm, t: Vm, q: Request)
    requires Twins(s, t) && NoLateHitNow(s, q)
    ensures Twins(Serve(s, q).0, Serve(t, q).0) && Serve(s, q).1 == Serve(t, q).1
  {
    if Reaches(s.config, q) {
      var p, w := PageOf(q), q.kind == 'W';
      if p in s.store.table {
        TwinsHit(s, t, p, w);
      } else {
        TwinsFault(s, t, p, w);
      }
      var (u, f, hit) := Access(s, p, w);
      TwinsFinish(u, Access(t, p, w).0, f, hit, q);
    }
  }

  lemma {:induction false} TwinsRun(s: Vm, t: Vm, qs: seq<Request>)
    requires Twins(s, t) && NoLateHit(s, qs)
    ensures Run(s, qs).1 == Run(t, qs).1
    decreases |qs|
  {
    if qs != [] {
      TwinsServe(s, t, qs[0]);
      if Continues(Serve(s, qs[0]).1) {
        TwinsRun(Serve(s, qs[0]).0, Serve(t, qs[0]).0, qs[1..]);
      }
    }
  }

  /**
   On a trace with no hit after the first replacement, CLOCK picks the frame FIFO picks at every
   fault: the two runs give the same responses, physical addresses included.
   */
  lemma ClockIsFifoWithoutLateHits(c: Config, qs: seq<Request>)
    requires c.policy == Fifo && c.frames > 0
    ensures NoLateHit(Init(c), qs) ==> Run(Init(c), qs).1 == Run(Init(c.(policy := Clock)), qs).1
  {
    if NoLateHit(Init(c), qs) {
      TwinsRun(Init(c), Init(c.(policy := Clock)), qs);
    }
  }
}
