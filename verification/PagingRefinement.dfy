/**
 Demand paging is invisible: whatever the policy and the number of frames, every request is
 answered as a flat memory of one byte per page would answer it.
 */
module PagingRefinement {
  import opened PagingModel

  // ---- the flat memory ----

  type Flat = map<Page, char>

  datatype Answer = NoPid | NoAddress | NoKind | Got(byte: char) | Stored(byte: char)

  predicate Goes(a: Answer) {
    !a.NoAddress? && !a.NoKind?
  }

  function FlatServe(m: Flat, c: Config, q: Request): (Flat, Answer) {
    if q.pid >= c.maxPid then (m, NoPid)
    else if q.addr / 256 >= c.maxVpn then (m, NoAddress)
    else if q.kind == 'R' then (m, Got(SwapAt(m, PageOf(q))))
    else if q.kind == 'W' then (m[PageOf(q) := q.byte], Stored(q.byte))
    else (m, NoKind)
  }

  function FlatRun(m: Flat, c: Config, qs: seq<Request>): seq<Answer>
    decreases |qs|
  {
    if qs == [] then []
    else
      var (n, a) := FlatServe(m, c, qs[0]);
      if Goes(a) then [a] + FlatRun(n, c, qs[1..]) else [a]
  }

  /** What a program sees of a response: not the frame it was served from, nor whether it was a hit. */
  function Seen(r: Response): Answer {
    match r
    case InvalidPid => NoPid
    case InvalidAddress => NoAddress
    case BadKind => NoKind
    case ReadByte(_, b, _) => Got(b)
    case Wrote(_, b, _) => Stored(b)
  }

  function SeenAll(rs: seq<Response>): seq<Answer> {
    if rs == [] then [] else [Seen(rs[0])] + SeenAll(rs[1..])
  }

  lemma SeenCons(r: Response, rs: seq<Response>)
    ensures SeenAll([r] + rs) == [Seen(r)] + SeenAll(rs)
  {
    assert ([r] + rs)[1..] == rs;
  }

  // ---- the coupling ----

  /** The byte a page holds: that of its frame when it is valid, else that of its swap slot. */
  function ByteOf(s: Store, p: Page): char {
    if p in s.table && s.table[p].pfn < |s.mem| then s.mem[s.table[p].pfn] else SwapAt(s.swap, p)
  }

  /** A valid page that is not dirty has the same byte in its frame as in its swap slot. */
  ghost predicate CleanAgrees(s: Store) {
    forall p :: p in s.table && !s.table[p].dirty ==> ByteOf(s, p) == SwapAt(s.swap, p)
  }

  ghost predicate SameBytes(s: Store, t: Store) {
    forall p :: ByteOf(s, p) == ByteOf(t, p)
  }

  ghost predicate Refines(s: Vm, m: Flat) {
    Consistent(s) && s.config.frames > 0 && CleanAgrees(s.store) && forall p :: ByteOf(s.store, p) == SwapAt(m, p)
  }

  /** Writing out a dirty victim, and dropping a clean one, both leave its byte on the disk. */
  lemma EvictKeepsBytes(s: Store, f: nat)
    requires TablesInverse(s) && CleanAgrees(s) && f < |s.owner|
    ensures SameBytes(s, Evict(s, f)) && CleanAgrees(Evict(s, f))
  {
    var t := Evict(s, f);
    var victim := s.owner[f];
    assert s.table[victim].pfn == f && ByteOf(s, victim) == s.mem[f] == SwapAt(t.swap, victim);
    forall p ensures ByteOf(s, p) == ByteOf(t, p) {
      if p != victim { assert SwapAt(t.swap, p) == SwapAt(s.swap, p); }
    }
  }

  /** Bringing a page into a frame nobody uses moves its byte, and touches no other page's. */
  lemma LoadKeepsBytes(s: Store, p: Page, f: nat, write: bool)
    requires |s.owner| == |s.mem| && f <= |s.mem| && p !in s.table && CleanAgrees(s)
    requires forall q :: q in s.table ==> s.table[q].pfn < |s.mem| && s.table[q].pfn != f
    ensures SameBytes(s, Load(s, p, f, write)) && CleanAgrees(Load(s, p, f, write))
  {
    var t := Load(s, p, f, write);
    forall q ensures ByteOf(s, q) == ByteOf(t, q) {}
  }

  /** A page fault moves bytes between memory and disk, but changes no page's byte. */
  lemma FaultKeepsBytes(s: Vm, p: Page, write: bool)
    requires Consistent(s) && s.config.frames > 0 && CleanAgrees(s.store) && p !in s.store.table
    ensures SameBytes(s.store, PageFault(s, p, write).0.store) && CleanAgrees(PageFault(s, p, write).0.store)
  {
    if |s.store.owner| == s.config.frames {
      var f := FindReplacement(s.config, s.rep).1;
      EvictKeepsBytes(s.store, f);
      forall q | q in Evict(s.store, f).table ensures s.store.table[q].pfn != f {
        assert s.store.owner[s.store.table[q].pfn] == q;
      }
      LoadKeepsBytes(Evict(s.store, f), p, f, write);
    } else {
      LoadKeepsBytes(s.store, p, |s.store.owner|, write);
    }
  }

  lemma AccessKeepsBytes(s: Vm, p: Page, write: bool)
    requires Consistent(s) && s.config.frames > 0 && CleanAgrees(s.store)
    ensures SameBytes(s.store, Access(s, p, write).0.store) && CleanAgrees(Access(s, p, write).0.store)
  {
    if p !in s.store.table {
      FaultKeepsBytes(s, p, write);
    }
  }

  /** The driver's write lands in the frame of a dirty page, so it changes that page's byte and no other's. */
  lemma WriteRefines(s: Vm, p: Page, byte: char, m: Flat)
    requires Refines(s, m) && p in s.store.table && s.store.table[p].dirty
    ensures Refines(s.(store := s.store.(mem := s.store.mem[s.store.table[p].pfn := byte])), m[p := byte])
  {
    var t := s.store.(mem := s.store.mem[s.store.table[p].pfn := byte]);
    forall q ensures ByteOf(t, q) == if q == p then byte else ByteOf(s.store, q) {
      if q in s.store.table && q != p {
        assert s.store.owner[s.store.table[q].pfn] == q;
      }
    }
  }

  lemma AccessRefines(s: Vm, p: Page, write: bool, m: Flat)
    requires Refines(s, m)
    ensures var (t, f, hit) := Access(s, p, write); Refines(t, m) && t.store.mem[f] == SwapAt(m, p)
  {
    AccessKeepsBytes(s, p, write);
    var t := Access(s, p, write).0;
    assert ByteOf(t.store, p) == ByteOf(s.store, p);
  }

  lemma FinishRefines(s: Vm, hit: bool, q: Request, m: Flat)
    requires Refines(s, m) && Reaches(s.config, q) && PageOf(q) in s.store.table
    requires q.kind == 'W' ==> s.store.table[PageOf(q)].dirty
    ensures var (t, r) := Finish(s, s.store.table[PageOf(q)].pfn, hit, q);
            var (n, a) := FlatServe(m, s.config, q);
            Refines(t, n) && Seen(r) == a && (Continues(r) <==> Goes(a))
  {
    if q.kind == 'W' {
      WriteRefines(s, PageOf(q), q.byte, m);
    } else {
      assert ByteOf(s.store, PageOf(q)) == SwapAt(m, PageOf(q));
    }
  }

  lemma ServeRefines(s: Vm, q: Request, m: Flat)
    requires Refines(s, m)
    ensures var (t, r) := Serve(s, q);
            var (n, a) := FlatServe(m, s.config, q);
            Refines(t, n) && Seen(r) == a && (Continues(r) <==> Goes(a))
  {
    if Reaches(s.config, q) {
      AccessRefines(s, PageOf(q), q.kind == 'W', m);
      var (t, f, hit) := Access(s, PageOf(q), q.kind == 'W');
      FinishRefines(t, hit, q, m);
    }
  }

  lemma {:induction false} RunRefines(s: Vm, qs: seq<Request>, m: Flat)
    requires Refines(s, m)
    ensures SeenAll(Run(s, qs).1) == FlatRun(m, s.config, qs)
    decreases |qs|
  {
    if qs != [] {
      ServeRefines(s, qs[0], m);
      var (t, r) := Serve(s, qs[0]);
      if Continues(r) {
        RunRefines(t, qs[1..], FlatServe(m, s.config, qs[0]).0);
        SeenCons(r, Run(t, qs[1..]).1);
      }
    }
  }

  /**
   Paging refines flat memory: from the initial state, on any requests the program gets through,
   each read gets the byte last written to its page, or 'A' if there was none, and errors arise
   where they would anyway.
   */
  lemma {:induction false} PagingIsFlatMemory(c: Config, qs: seq<Request>)
    requires c.frames > 0 && RunsThrough(Init(c), qs)
    ensures SeenAll(Run(Init(c), qs).1) == FlatRun(map[], c, qs)
  {
    RunRefines(Init(c), qs, map[]);
  }

  /** Policies and frame counts cannot be told apart by what requests are answered. */
  lemma {:induction false} PoliciesAgree(c: Config, policy: Policy, frames: nat, qs: seq<Request>)
    requires c.frames > 0 && RunsThrough(Init(c), qs)
    requires var d := c.(policy := policy, frames := frames);
             d.frames > 0 && RunsThrough(Init(d), qs)
    ensures SeenAll(Run(Init(c), qs).1) == SeenAll(Run(Init(c.(policy := policy, frames := frames)), qs).1)
  {
    var d := c.(policy := policy, frames := frames);
    PagingIsFlatMemory(c, qs);
    PagingIsFlatMemory(d, qs);
    SameFlatRun(map[], c, d, qs);
  }

  /** The flat memory knows nothing of policies and frames. */
  lemma {:induction false} SameFlatRun(m: Flat, c: Config, d: Config, qs: seq<Request>)
    requires c.maxPid == d.maxPid && c.maxVpn == d.maxVpn
    ensures FlatRun(m, c, qs) == FlatRun(m, d, qs)
    decreases |qs|
  {
    if qs != [] {
      SameFlatRun(FlatServe(m, c, qs[0]).0, c, d, qs[1..]);
    }
  }

  // ---- the counters ----

  /** How many requests get as far as the page table before the driver ends. */
  function Translated(c: Config, qs: seq<Request>): nat
    decreases |qs|
  {
    if qs == [] then 0
    else if qs[0].pid >= c.maxPid then Translated(c, qs[1..])
    else if !Reaches(c, qs[0]) then 0
    else if qs[0].kind != 'R' && qs[0].kind != 'W' then 1
    else 1 + Translated(c, qs[1..])
  }

  ghost predicate CountersMoved(s: Vm, t: Vm, n: nat) {
    && t.stats.hits + t.stats.misses == s.stats.hits + s.stats.misses + n
    && t.stats.swapReads - s.stats.swapReads == t.stats.misses - s.stats.misses
    && s.stats.swapWrites <= t.stats.swapWrites
    && t.stats.swapWrites - s.stats.swapWrites + |t.store.owner| - |s.store.owner| <= t.stats.misses - s.stats.misses
  }

  lemma AccessCounts(s: Vm, p: Page, write: bool)
    requires Consistent(s) && s.config.frames > 0
    ensures CountersMoved(s, Access(s, p, write).0, 1)
  {
  }

  lemma ServeCounts(s: Vm, q: Request)
    requires Consistent(s) && s.config.frames > 0
    ensures CountersMoved(s, Serve(s, q).0, if Reaches(s.config, q) then 1 else 0)
  {
    if Reaches(s.config, q) {
      AccessCounts(s, PageOf(q), q.kind == 'W');
    }
  }

  /**
   Conservation of the counters over a whole run: every translated request is a hit or a miss,
   every miss reads the swap disk once, and a miss that took a free frame writes nothing out.
   */
  lemma {:induction false} CountersConserved(s: Vm, qs: seq<Request>)
    requires Consistent(s) && s.config.frames > 0
    ensures CountersMoved(s, Run(s, qs).0, Translated(s.config, qs))
    decreases |qs|
  {
    if qs != [] {
      ServeCounts(s, qs[0]);
      var (t, r) := Serve(s, qs[0]);
      if Continues(r) {
        CountersConserved(t, qs[1..]);
      }
    }
  }
}
