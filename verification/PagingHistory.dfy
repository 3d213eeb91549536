/**
 The simulator against its own history: which page a frame holds, which pages are dirty, which
 reference bits are set and how often a page is swapped out can all be told from the requests and
 the answers they got.
 */
module PagingHistory {
  import opened Sequences
  import opened PagingModel
  import opened PagingRings

  // ---- the history of a run ----

  /** A request that was translated: its page, whether it wrote, and the frame and the hit that the answer reports. */
  datatype Use = Use(page: Page, write: bool, frame: nat, hit: bool)

  function UseOf(q: Request, r: Response): seq<Use> {
    match r
    case ReadByte(phys, _, hit) => [Use(PageOf(q), q.kind == 'W', phys / 256, hit)]
    case Wrote(phys, _, hit) => [Use(PageOf(q), q.kind == 'W', phys / 256, hit)]
    case _ => []
  }

  function History(qs: seq<Request>, rs: seq<Response>): seq<Use>
    requires |rs| <= |qs|
  {
    if rs == [] then [] else UseOf(qs[0], rs[0]) + History(qs[1..], rs[1..])
  }

  /** The program has not ended at a request that is neither a read nor a write. */
  predicate Served(rs: seq<Response>) {
    forall i :: 0 <= i < |rs| ==> !rs[i].BadKind?
  }

  predicate InUse(log: seq<Use>, f: nat) {
    exists i :: 0 <= i < |log| && log[i].frame == f
  }

  /** The page that came to frame `f` last. */
  function LastIn(log: seq<Use>, f: nat): Page
    requires InUse(log, f)
  {
    var n := |log| - 1;
    if log[n].frame == f then log[n].page else LastIn(log[..n], f)
  }

  /** A fault that is given a frame in use has taken it from another page. */
  predicate Replaces(log: seq<Use>, j: nat)
    requires j < |log|
  {
    !log[j].hit && InUse(log[..j], log[j].frame)
  }

  lemma InUseAppend(log: seq<Use>, u: Use, f: nat)
    ensures InUse(log + [u], f) <==> InUse(log, f) || u.frame == f
    ensures InUse(log + [u], f) ==> LastIn(log + [u], f) == if u.frame == f then u.page else LastIn(log, f)
  {
    var more := log + [u];
    assert more[..|log|] == log && more[|log|] == u;
    if i :| 0 <= i < |log| && log[i].frame == f { assert more[i].frame == f; }
  }

  lemma ReplacesAppend(log: seq<Use>, u: Use)
    ensures Replaces(log + [u], |log|) <==> !u.hit && InUse(log, u.frame)
  {
    assert (log + [u])[..|log|] == log;
  }

  // ---- dirty pages ----

  /** A write has reached page `p`, and no fault on it came later. */
  predicate WrittenSince(log: seq<Use>, p: Page) {
    exists i :: 0 <= i < |log| && WroteLast(log, p, i)
  }

  predicate WroteLast(log: seq<Use>, p: Page, i: nat)
    requires i < |log|
  {
    log[i].page == p && log[i].write && forall j :: i < j < |log| && log[j].page == p ==> log[j].hit
  }

  lemma WrittenAppend(log: seq<Use>, u: Use, p: Page)
    ensures WrittenSince(log + [u], p) <==>
              if u.page == p then u.write || (u.hit && WrittenSince(log, p)) else WrittenSince(log, p)
  {
    var more := log + [u];
    assert more[..|log|] == log && more[|log|] == u;
    if i :| 0 <= i < |log| && WroteLast(log, p, i) {
      if u.page != p || u.hit { assert WroteLast(more, p, i); }
    }
    if u.page == p && u.write { assert WroteLast(more, p, |log|); }
    if i :| 0 <= i < |more| && WroteLast(more, p, i) {
      if i < |log| { assert WroteLast(log, p, i); }
    }
  }

  function HitCount(log: seq<Use>): nat {
    if log == [] then 0 else HitCount(log[..|log| - 1]) + if log[|log| - 1].hit then 1 else 0
  }

  /** How many faults took a frame from a page that had been written since it was loaded. */
  function SwapOuts(log: seq<Use>): nat {
    if log == [] then 0
    else
      var n := |log| - 1;
      var before := log[..n];
      SwapOuts(before) + if Replaces(log, n) && WrittenSince(before, LastIn(before, log[n].frame)) then 1 else 0
  }

  // ---- the hand of CLOCK ----

  /** Where the hand stands: behind the last frame taken from a page. */
  function Hand(log: seq<Use>, k: nat): (h: nat)
    requires k > 0
    ensures h < k
  {
    if log == [] then 0
    else
      var n := |log| - 1;
      if Replaces(log, n) then (log[n].frame + 1) % k else Hand(log[..n], k)
  }

  /**
   The fault at `j` makes the hand pass frame `f`: it stops at a frame further on, or has to go all
   the way round because every frame was used since the hand last passed it.
   */
  predicate Passes(log: seq<Use>, k: nat, j: nat, f: nat)
    requires k > 0 && j < |log| && f < k
    decreases j, 2
  {
    && Replaces(log, j) && log[j].frame < k
    && var h := Hand(log[..j], k);
       Ahead(h, f, k) < Ahead(h, log[j].frame, k) || AllUsed(log[..j], k)
  }

  predicate AllUsed(log: seq<Use>, k: nat)
    requires k > 0
    decreases |log|, 1
  {
    forall f :: 0 <= f < k ==> UsedSince(log, k, f)
  }

  /** Frame `f` was filled or hit, and the hand has not passed it since. */
  predicate UsedSince(log: seq<Use>, k: nat, f: nat)
    requires k > 0 && f < k
    decreases |log|, 0
  {
    exists i :: 0 <= i < |log| && log[i].frame == f && forall j :: i < j < |log| ==> !Passes(log, k, j, f)
  }

  lemma PassesPrefix(log: seq<Use>, u: Use, k: nat, j: nat, f: nat)
    requires k > 0 && j < |log| && f < k
    ensures Passes(log + [u], k, j, f) <==> Passes(log, k, j, f)
  {
    assert (log + [u])[..j] == log[..j] && (log + [u])[j] == log[j];
  }

  lemma UsedAppend(log: seq<Use>, u: Use, k: nat, f: nat)
    requires k > 0 && f < k
    ensures UsedSince(log + [u], k, f) <==>
              u.frame == f || (UsedSince(log, k, f) && !Passes(log + [u], k, |log|, f))
  {
    hide Passes;
    var more := log + [u];
    forall j: nat | j < |log| ensures Passes(more, k, j, f) <==> Passes(log, k, j, f) {
      PassesPrefix(log, u, k, j, f);
    }
    assert more[|log|] == u && forall i :: 0 <= i < |log| ==> more[i] == log[i];
    if UsedSince(log, k, f) && !Passes(more, k, |log|, f) {
      var i :| 0 <= i < |log| && log[i].frame == f && forall j :: i < j < |log| ==> !Passes(log, k, j, f);
      assert more[i].frame == f && forall j :: i < j < |more| ==> !Passes(more, k, j, f);
    }
    if UsedSince(more, k, f) && u.frame != f {
      var i :| 0 <= i < |more| && more[i].frame == f && forall j :: i < j < |more| ==> !Passes(more, k, j, f);
      assert i < |log| && log[i].frame == f && forall j :: i < j < |log| ==> !Passes(log, k, j, f);
      assert !Passes(more, k, |log|, f);
    }
  }

  lemma PassesLast(log: seq<Use>, u: Use, k: nat, f: nat)
    requires k > 0 && f < k
    ensures Passes(log + [u], k, |log|, f) <==>
              && !u.hit && InUse(log, u.frame) && u.frame < k
              && (Ahead(Hand(log, k), f, k) < Ahead(Hand(log, k), u.frame, k) || AllUsed(log, k))
    ensures Hand(log + [u], k) == if !u.hit && InUse(log, u.frame) then (u.frame + 1) % k else Hand(log, k)
  {
    hide AllUsed, InUse, Slot;
    ReplacesAppend(log, u);
    assert (log + [u])[..|log|] == log && (log + [u])[|log|] == u;
  }

  /** A bit after a sweep: the victim's is set, one that was set survives unless the hand has passed it. */
  lemma BitAfterSweep(bits: seq<bool>, hand: nat, g: nat)
    requires hand < |bits| && g < |bits|
    ensures var v, k := ClockVictim(bits, hand), |bits|;
            ClockBits(bits, hand)[g] <==>
              g == v || (bits[g] && !(Ahead(hand, g, k) < Ahead(hand, v, k) || forall e :: 0 <= e < k ==> bits[e]))
  {
    hide ClockBits, ClockVictim, Ahead;
    ClockPicksFirstClear(bits, hand);
    var v, k := ClockVictim(bits, hand), |bits|;
    SameDistance(hand, g, v, k);
  }

  lemma SameDistance(hand: nat, f: nat, g: nat, k: nat)
    requires hand < k && f < k && g < k
    ensures Ahead(hand, f, k) == Ahead(hand, g, k) <==> f == g
  {
  }

  // ---- the state and its history ----

  /** Frames in use, and the page in each. */
  ghost predicate FramesTold(s: Vm, log: seq<Use>) {
    && (forall f: nat :: InUse(log, f) <==> f < |s.store.owner|)
    && (forall f :: 0 <= f < |s.store.owner| ==> s.store.owner[f] == LastIn(log, f))
  }

  ghost predicate DirtyTold(s: Vm, log: seq<Use>) {
    forall p :: p in s.store.table ==> (s.store.table[p].dirty <==> WrittenSince(log, p))
  }

  ghost predicate StatsTold(s: Vm, log: seq<Use>) {
    var hits := HitCount(log);
    && s.stats.hits == hits && s.stats.misses == |log| - hits
    && s.stats.swapReads == |log| - hits && s.stats.swapWrites == SwapOuts(log)
  }

  /** The hand, and the bit of each frame in use; those of the others are set. */
  ghost predicate ClockTold(s: Vm, log: seq<Use>)
    requires s.config.frames > 0
  {
    var bits, k := s.rep.clockRef, s.config.frames;
    s.config.policy == Clock ==>
      && s.rep.clockTail == Hand(log, k)
      && (forall f :: 0 <= f < |s.store.owner| && f < |bits| && f < k ==> (bits[f] <==> UsedSince(log, k, f)))
      && (forall f :: |s.store.owner| <= f < |bits| ==> bits[f])
  }

  ghost predicate Told(s: Vm, log: seq<Use>) {
    Consistent(s) && s.config.frames > 0 && FramesTold(s, log) && DirtyTold(s, log) && StatsTold(s, log) &&
      ClockTold(s, log)
  }

  // ---- one access ----

  function AccessUse(s: Vm, p: Page, write: bool): Use
    requires Consistent(s) && s.config.frames > 0
  {
    var (t, f, hit) := Access(s, p, write);
    Use(p, write, f, hit)
  }

  /** What an access does to the frames: a hit changes none, a fault puts the page in its frame. */
  lemma AccessFrames(s: Vm, p: Page, write: bool)
    requires Consistent(s) && s.config.frames > 0
    ensures var (t, f, hit) := Access(s, p, write);
            && f <= |s.store.owner| && f < s.config.frames && (hit ==> f < |s.store.owner| && s.store.owner[f] == p)
            && t.store.owner == (if hit then s.store.owner else Placed(s.store.owner, f, p))
            && (!hit && f < |s.store.owner| ==> |s.store.owner| == s.config.frames)
  {
  }

  lemma FramesFollow(s: Vm, log: seq<Use>, p: Page, write: bool)
    requires Consistent(s) && s.config.frames > 0 && FramesTold(s, log)
    ensures FramesTold(Access(s, p, write).0, log + [AccessUse(s, p, write)])
    ensures var u := AccessUse(s, p, write); Replaces(log + [u], |log|) <==> !u.hit && u.frame < |s.store.owner|
  {
    hide Access;
    AccessFrames(s, p, write);
    var t, u := Access(s, p, write).0, AccessUse(s, p, write);
    ReplacesAppend(log, u);
    forall f: nat ensures InUse(log + [u], f) <==> f < |t.store.owner| {
      InUseAppend(log, u, f);
    }
    forall f | 0 <= f < |t.store.owner| ensures t.store.owner[f] == LastIn(log + [u], f) {
      InUseAppend(log, u, f);
    }
  }

  /**
   What an access does to the dirty bits: a fault sets it as it writes, a hit adds to it, and no
   other page's changes.
   */
  lemma AccessDirty(s: Vm, p: Page, write: bool, q: Page)
    requires Consistent(s) && s.config.frames > 0
    ensures var (t, f, hit) := Access(s, p, write);
            && p in t.store.table && (hit ==> p in s.store.table)
            && (t.store.table[p].dirty <==> write || (hit && s.store.table[p].dirty))
            && (q != p && q in t.store.table ==> q in s.store.table && t.store.table[q].dirty == s.store.table[q].dirty)
  {
  }

  lemma DirtyFollows(s: Vm, log: seq<Use>, p: Page, write: bool)
    requires Consistent(s) && s.config.frames > 0 && DirtyTold(s, log)
    ensures DirtyTold(Access(s, p, write).0, log + [AccessUse(s, p, write)])
  {
    hide Access, Consistent, WrittenSince;
    var t, u := Access(s, p, write).0, AccessUse(s, p, write);
    forall q | q in t.store.table ensures t.store.table[q].dirty <==> WrittenSince(log + [u], q) {
      AccessDirty(s, p, write, q);
      WrittenAppend(log, u, q);
    }
  }

  /** What an access does to the counters. */
  lemma AccessStats(s: Vm, p: Page, write: bool)
    requires Consistent(s) && s.config.frames > 0
    ensures var (t, f, hit) := Access(s, p, write);
            if hit then t.stats == s.stats.(hits := s.stats.hits + 1)
            else
              && (f < |s.store.owner| ==> s.store.owner[f] in s.store.table)
              && t.stats == Stats(s.stats.hits, s.stats.misses + 1, s.stats.swapReads + 1,
                                  s.stats.swapWrites +
                                    if f < |s.store.owner| && s.store.table[s.store.owner[f]].dirty then 1 else 0)
  {
  }

  lemma CountsAppend(log: seq<Use>, u: Use)
    ensures HitCount(log + [u]) == HitCount(log) + if u.hit then 1 else 0
    ensures SwapOuts(log + [u]) == SwapOuts(log) +
              if Replaces(log + [u], |log|) && InUse(log, u.frame) &&
                WrittenSince(log, LastIn(log, u.frame)) then 1 else 0
  {
    ReplacesAppend(log, u);
    assert (log + [u])[..|log|] == log && (log + [u])[|log|] == u;
  }

  lemma StatsFollow(s: Vm, log: seq<Use>, p: Page, write: bool)
    requires Consistent(s) && s.config.frames > 0 && FramesTold(s, log) && DirtyTold(s, log) && StatsTold(s, log)
    ensures StatsTold(Access(s, p, write).0, log + [AccessUse(s, p, write)])
  {
    hide Access, Consistent, WrittenSince, Replaces, InUse;
    var u := AccessUse(s, p, write);
    AccessStats(s, p, write);
    FramesFollow(s, log, p, write);
    CountsAppend(log, u);
  }

  /** What an access does to the policy's data under CLOCK. */
  lemma AccessClock(s: Vm, p: Page, write: bool)
    requires Consistent(s) && s.config.frames > 0 && s.config.policy == Clock
    ensures var (t, f, hit) := Access(s, p, write);
            var bits, k := s.rep.clockRef, s.config.frames;
            && f < k && |t.rep.clockRef| == k && (s.store.owner != [] ==> |bits| == k) &&
               (s.store.owner == [] ==> bits == [])
            && (hit ==> s.store.owner != [] && t.rep == s.rep.(clockRef := bits[f := true]))
            && (!hit && f < |s.store.owner| ==>
                  f == ClockVictim(bits, s.rep.clockTail) &&
                  t.rep == s.rep.(clockRef := ClockBits(bits, s.rep.clockTail), clockTail := (f + 1) % k))
            && (!hit && f >= |s.store.owner| ==>
                  t.rep == s.rep.(clockRef := if bits == [] then seq(k, _ => true) else bits))
  {
    hide ClockBits, ClockVictim, Evict, Load;
  }

  lemma ClockFollows(s: Vm, log: seq<Use>, p: Page, write: bool)
    requires Told(s, log)
    ensures ClockTold(Access(s, p, write).0, log + [AccessUse(s, p, write)])
  {
    hide Access, UsedSince, Passes, Hand, ClockBits, ClockVictim, DirtyTold, StatsTold, TablesInverse;
    if s.config.policy == Clock {
      var (t, f, hit) := Access(s, p, write);
      var u, k := AccessUse(s, p, write), s.config.frames;
      AccessClock(s, p, write);
      AccessFrames(s, p, write);
      PassesLast(log, u, k, f);
      forall g | 0 <= g < |t.store.owner| && g < |t.rep.clockRef|
        ensures t.rep.clockRef[g] <==> UsedSince(log + [u], k, g)
      {
        BitFollows(s, log, p, write, g);
      }
    }
  }

  /** The bit of a frame in use after an access. */
  lemma BitFollows(s: Vm, log: seq<Use>, p: Page, write: bool, g: nat)
    requires Told(s, log) && s.config.policy == Clock
    requires var t := Access(s, p, write).0; g < |t.store.owner| && g < |t.rep.clockRef|
    ensures g < s.config.frames
    ensures Access(s, p, write).0.rep.clockRef[g] <==> UsedSince(log + [AccessUse(s, p, write)], s.config.frames, g)
  {
    hide Access, UsedSince, Passes, Hand, ClockBits, ClockVictim, DirtyTold, StatsTold, TablesInverse;
    var (t, f, hit) := Access(s, p, write);
    var u, k, bits, hand := AccessUse(s, p, write), s.config.frames, s.rep.clockRef, s.rep.clockTail;
    AccessClock(s, p, write);
    AccessFrames(s, p, write);
    UsedAppend(log, u, k, g);
    PassesLast(log, u, k, g);
    if !hit && f < |s.store.owner| {
      BitAfterSweep(bits, hand, g);
      AllUsedIff(s, log);
    }
  }

  lemma AllUsedIff(s: Vm, log: seq<Use>)
    requires Told(s, log) && s.config.policy == Clock && |s.store.owner| == s.config.frames == |s.rep.clockRef|
    ensures var bits, k := s.rep.clockRef, s.config.frames;
            && s.rep.clockTail == Hand(log, k)
            && (forall e :: 0 <= e < k ==> (bits[e] <==> UsedSince(log, k, e)))
            && ((forall e :: 0 <= e < k ==> bits[e]) <==> AllUsed(log, k))
  {
    hide UsedSince, Hand, FramesTold, DirtyTold, StatsTold, Consistent;
  }

  lemma AccessTold(s: Vm, log: seq<Use>, p: Page, write: bool)
    requires Told(s, log)
    ensures Told(Access(s, p, write).0, log + [AccessUse(s, p, write)])
  {
    hide Access, FramesTold, DirtyTold, StatsTold, ClockTold, Consistent;
    FramesFollow(s, log, p, write);
    DirtyFollows(s, log, p, write);
    StatsFollow(s, log, p, write);
    ClockFollows(s, log, p, write);
  }

  // ---- whole runs ----

  lemma ServeTold(s: Vm, log: seq<Use>, q: Request)
    requires Told(s, log)
    ensures var (t, r) := Serve(s, q);
            !r.BadKind? ==> Told(t, log + UseOf(q, r))
  {
    hide Access, FramesTold, DirtyTold, StatsTold, ClockTold, TablesInverse, PolicyReady;
    var (t, r) := Serve(s, q);
    if Reaches(s.config, q) && !r.BadKind? {
      var p, write := PageOf(q), q.kind == 'W';
      var (u, f, hit) := Access(s, p, write);
      AccessTold(s, log, p, write);
      assert (256 * f + q.addr % 256) / 256 == f;
      OtherBytes(u, log + [AccessUse(s, p, write)], t);
    } else {
      assert log + [] == log;
    }
  }

  /** The bytes in memory play no part. */
  lemma OtherBytes(s: Vm, log: seq<Use>, t: Vm)
    requires Told(s, log) && t == s.(store := s.store.(mem := t.store.mem)) && |t.store.mem| == |s.store.mem|
    ensures Told(t, log)
  {
    hide UsedSince, WrittenSince, Hand, LastIn, InUse;
  }

  lemma {:induction false} RunTold(s: Vm, log: seq<Use>, qs: seq<Request>)
    requires Told(s, log)
    ensures var (t, rs) := Run(s, qs); Served(rs) ==> Told(t, log + History(qs, rs))
    decreases |qs|
  {
    hide Serve, FramesTold, DirtyTold, StatsTold, ClockTold, TablesInverse, PolicyReady;
    if qs == [] {
      assert log + [] == log;
    } else {
      ServeTold(s, log, qs[0]);
      var (t, r) := Serve(s, qs[0]);
      var rs := Run(s, qs).1;
      assert rs[0] == r;
      if Served(rs) {
        if Continues(r) {
          assert rs[1..] == Run(t, qs[1..]).1;
          RunTold(t, log + UseOf(qs[0], r), qs[1..]);
          assert log + UseOf(qs[0], r) + History(qs[1..], rs[1..]) == log + History(qs, rs);
        } else {
          assert rs[1..] == [];
          assert log + History(qs, rs) == log + UseOf(qs[0], r);
        }
      }
    }
  }

  /** What the program printed so far. */
  ghost function LogOf(c: Config, qs: seq<Request>): seq<Use>
    requires c.frames > 0
  {
    History(qs, Run(Init(c), qs).1)
  }

  /** A run from the start that follows no null pointer and has not ended at a bad request type. */
  ghost predicate GoodRun(c: Config, qs: seq<Request>) {
    c.frames > 0 && RunsThrough(Init(c), qs) && Served(Run(Init(c), qs).1)
  }

  /** After any run the state is what its history tells. */
  lemma RunIsTold(c: Config, qs: seq<Request>)
    requires GoodRun(c, qs)
    ensures Told(Run(Init(c), qs).0, LogOf(c, qs))
  {
    hide Run;
    RunTold(Init(c), [], qs);
    assert [] + LogOf(c, qs) == LogOf(c, qs);
  }

  /**
   CLOCK's reference bits: after any run, the bit of a frame in use is set if and only if the frame
   was filled or hit since the hand last passed it, and the hand stands behind the last victim.
   */
  lemma {:induction false} ClockBitsTellUse(c: Config, qs: seq<Request>, f: nat)
    requires GoodRun(c, qs) && c.policy == Clock
    ensures var s, log := Run(Init(c), qs).0, LogOf(c, qs);
            f < |s.store.owner| ==>
              && |s.rep.clockRef| == c.frames && f < c.frames && s.rep.clockTail == Hand(log, c.frames)
              && (s.rep.clockRef[f] <==> UsedSince(log, c.frames, f))
  {
    hide Run, UsedSince, Hand, History;
    RunIsTold(c, qs);
  }

  /**
   CLOCK's victim: after any run, a fault with all frames in use takes the first frame from the hand
   round that was not used since the hand last passed it, or the hand's own if all were.
   */
  lemma {:induction false} ClockTakesFirstUnused(c: Config, qs: seq<Request>, p: Page, write: bool)
    requires GoodRun(c, qs) && c.policy == Clock
    ensures var s, log, k := Run(Init(c), qs).0, LogOf(c, qs), c.frames;
            p !in s.store.table && |s.store.owner| == k ==>
              var v, h := Access(s, p, write).1, Hand(log, k);
              && v < k
              && (if AllUsed(log, k) then v == h
                  else
                    && !UsedSince(log, k, v)
                    && (forall g :: 0 <= g < k && Ahead(h, g, k) < Ahead(h, v, k) ==> UsedSince(log, k, g)))
  {
    hide Run, UsedSince, Hand, History, Access, ClockVictim, ClockBits;
    RunIsTold(c, qs);
    var s, log, k := Run(Init(c), qs).0, LogOf(c, qs), c.frames;
    if p !in s.store.table && |s.store.owner| == k {
      AccessClock(s, p, write);
      AccessFrames(s, p, write);
      AllUsedIff(s, log);
      ClockPicksFirstClear(s.rep.clockRef, s.rep.clockTail);
    }
  }

  /** After any run, a resident page is dirty if and only if a write has reached it since its last fault. */
  lemma {:induction false} DirtyIffWritten(c: Config, qs: seq<Request>, p: Page)
    requires GoodRun(c, qs)
    ensures var s := Run(Init(c), qs).0;
            p in s.store.table ==> (s.store.table[p].dirty <==> WrittenSince(LogOf(c, qs), p))
  {
    hide Run, WrittenSince, History;
    RunIsTold(c, qs);
  }

  /**
   The counters at the end of any run: hits and misses are those reported, every miss read the swap
   disk, and it was written once for every fault that took its frame from a page written since it came.
   */
  lemma {:induction false} CountersTold(c: Config, qs: seq<Request>)
    requires GoodRun(c, qs)
    ensures var log := LogOf(c, qs);
            var hits := HitCount(log);
            && hits <= |log|
            && Run(Init(c), qs).0.stats == Stats(hits, |log| - hits, |log| - hits, SwapOuts(log))
  {
    hide Run, SwapOuts, History;
    RunIsTold(c, qs);
  }

  /** After any run the frames in use are those that answers have named, each with the page that came to it last. */
  lemma {:induction false} FramesHoldLast(c: Config, qs: seq<Request>, f: nat)
    requires GoodRun(c, qs)
    ensures var s, log := Run(Init(c), qs).0, LogOf(c, qs);
            && (f < |s.store.owner| <==> InUse(log, f))
            && (InUse(log, f) ==> s.store.owner[f] == LastIn(log, f))
  {
    hide Run, LastIn, InUse, History;
    RunIsTold(c, qs);
  }

  /** The physical address in an answer. */
  function Phys(r: Response): nat
    requires r.ReadByte? || r.Wrote?
  {
    r.phys
  }

  /**
   The address an answer reports: its offset is that of the request, and its frame is the one whose
   inverted entry names the page once the request has been served.
   */
  lemma {:induction false} AddressesNamePages(s: Vm, qs: seq<Request>, i: nat)
    requires Consistent(s) && s.config.frames > 0
    ensures var rs := Run(s, qs).1;
            i < |rs| && (rs[i].ReadByte? || rs[i].Wrote?) ==>
              var t, phys := Run(s, qs[..i + 1]).0, Phys(rs[i]);
              && phys % 256 == qs[i].addr % 256
              && phys / 256 < |t.store.owner| && t.store.owner[phys / 256] == PageOf(qs[i])
    decreases i
  {
    hide Access, PolicyReady;
    if qs != [] {
      var (t, r) := Serve(s, qs[0]);
      if i == 0 {
        assert qs[..1] == [qs[0]] && [qs[0]][1..] == [];
        AddressOf(s, qs[0]);
      } else if Continues(r) && i < |Run(s, qs).1| {
        AddressesNamePages(t, qs[1..], i - 1);
        assert qs[..i + 1][0] == qs[0] && qs[..i + 1][1..] == qs[1..][..i];
      }
    }
  }

  lemma AddressOf(s: Vm, q: Request)
    requires Consistent(s) && s.config.frames > 0
    ensures var (t, r) := Serve(s, q);
            r.ReadByte? || r.Wrote? ==>
              && Phys(r) % 256 == q.addr % 256
              && Phys(r) / 256 < |t.store.owner| && t.store.owner[Phys(r) / 256] == PageOf(q)
  {
    hide Access, PolicyReady;
    if Reaches(s.config, q) {
      var (t, f, hit) := Access(s, PageOf(q), q.kind == 'W');
      assert t.store.owner[f] == PageOf(q);
      assert (256 * f + q.addr % 256) / 256 == f && (256 * f + q.addr % 256) % 256 == q.addr % 256;
    }
  }

  // ---- ZERO ----

  /** Under ZERO every frame but the first keeps the first page it got. */
  lemma {:induction false} ZeroKeepsOtherFrames(s: Vm, qs: seq<Request>, f: nat)
    requires Consistent(s) && s.config.frames > 0 && s.config.policy == Zero && 0 < f < |s.store.owner|
    ensures var t := Run(s, qs).0; f < |t.store.owner| && t.store.owner[f] == s.store.owner[f]
    decreases |qs|
  {
    hide Access, TablesInverse, PolicyReady;
    if qs != [] {
      var (t, r) := Serve(s, qs[0]);
      if Reaches(s.config, qs[0]) {
        ZeroTakesFirst(s, PageOf(qs[0]), qs[0].kind == 'W');
        AccessFrames(s, PageOf(qs[0]), qs[0].kind == 'W');
      }
      if Continues(r) {
        ZeroKeepsOtherFrames(t, qs[1..], f);
      }
    }
  }

  /** A fault with all frames in use goes to frame 0. */
  lemma ZeroTakesFirst(s: Vm, p: Page, write: bool)
    requires Consistent(s) && s.config.frames > 0 && s.config.policy == Zero
    ensures p !in s.store.table && |s.store.owner| == s.config.frames ==> Access(s, p, write).1 == 0
  {
  }
}
