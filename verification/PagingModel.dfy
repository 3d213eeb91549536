/**
 The virtual memory simulator on values: page tables, the inverted page table, one byte of
 storage per page, demand paging with dirty bits, a swap disk, and the four replacement
 policies.  `PagingMachine` refines these functions with the arrays and the list of the program.
 */
module PagingModel {
  import opened Sequences

  datatype Page = Page(pid: nat, vpn: nat)

  datatype Policy = Zero | Fifo | Lru | Clock

  /** The command line and the header of the input. */
  datatype Config = Config(policy: Policy, frames: nat, maxPid: nat, maxVpn: nat)

  /**
   The configurations that can replace pages.  With one frame, `list_remove_tail` follows the null
   `prev` of a lone node at the first replacement of LRU.
   */
  predicate Supported(c: Config) {
    c.frames > 0 && (c.policy == Lru ==> c.frames > 1)
  }

  /** The page table entry of a valid page; the entry of an invalid page is never consulted. */
  datatype Pte = Pte(pfn: nat, dirty: bool)

  /**
   Tables, memory and disk.  `table` holds the valid entries only; `owner` and `mem` are the
   inverted page table and the physical memory below `nextFreeFrame`, which is `|owner|`; a page
   without a slot in `swap` still holds the initial byte there.
   */
  datatype Store = Store(table: map<Page, Pte>, owner: seq<Page>, mem: seq<char>, swap: map<Page, char>)

  /**
   What the policies remember.  `recency` lists the frames of the LRU list from its head, and
   `clockRef` is empty until the array is allocated.
   */
  datatype Replacer = Replacer(fifoTail: nat, recency: seq<nat>, clockTail: nat, clockRef: seq<bool>)

  datatype Stats = Stats(hits: nat, misses: nat, swapReads: nat, swapWrites: nat)

  datatype Vm = Vm(config: Config, store: Store, rep: Replacer, stats: Stats)

  const FRESH_BYTE: char := 'A'

  function SwapAt(swap: map<Page, char>, p: Page): char {
    if p in swap then swap[p] else FRESH_BYTE
  }

  function Init(config: Config): (s: Vm)
    ensures config.frames > 0 ==> Consistent(s)
  {
    Vm(config, Store(map[], [], [], map[]), Replacer(0, [], 0, []), Stats(0, 0, 0, 0))
  }

  // ---- what every request keeps ----

  /** The page tables and the inverted page table are inverse to each other. */
  ghost predicate TablesInverse(s: Store) {
    && |s.mem| == |s.owner|
    && (forall f {:trigger s.owner[f]} :: 0 <= f < |s.owner| ==> s.owner[f] in s.table && s.table[s.owner[f]].pfn == f)
    && (forall p {:trigger s.table[p]} :: p in s.table ==> s.table[p].pfn < |s.owner| && s.owner[s.table[p].pfn] == p)
  }

  /** The LRU list names each used frame once. */
  ghost predicate RecencyLists(recency: seq<nat>, used: nat) {
    && |recency| == used
    && Distinct(recency)
    && (forall i :: 0 <= i < |recency| ==> recency[i] < used)
    && (forall f :: 0 <= f < used ==> f in recency)
  }

  /** The data of the active policy is in order when `used` frames are in use. */
  ghost predicate PolicyReady(c: Config, r: Replacer, used: nat) {
    && r.fifoTail < c.frames
    && r.clockTail < c.frames
    && (c.policy == Lru ==> RecencyLists(r.recency, used))
    && (c.policy == Clock ==> |r.clockRef| == if used == 0 then 0 else c.frames)
  }

  ghost predicate Consistent(s: Vm) {
    TablesInverse(s.store) && |s.store.owner| <= s.config.frames && PolicyReady(s.config, s.rep, |s.store.owner|)
  }

  // ---- replacement ----

  /** Distance from the hand to frame `f`, going forward round the ring. */
  function Ahead(hand: nat, f: nat, n: nat): (d: nat)
    requires hand < n && f < n
    ensures d < n && Slot(hand, d, n) == f
  {
    if f >= hand then f - hand else f + n - hand
  }

  /**
   How many set reference bits the hand passes, of which `d` are already behind it: the least
   distance to a clear bit, or the number of frames when every bit is set.
   */
  function Passed(bits: seq<bool>, hand: nat, d: nat): (n: nat)
    requires hand < |bits| && d <= |bits|
    requires forall e :: 0 <= e < d ==> bits[Slot(hand, e, |bits|)]
    ensures d <= n <= |bits|
    ensures forall e :: 0 <= e < n ==> bits[Slot(hand, e, |bits|)]
    ensures n < |bits| ==> !bits[Slot(hand, n, |bits|)]
    decreases |bits| - d
  {
    if d == |bits| || !bits[Slot(hand, d, |bits|)] then d else Passed(bits, hand, d + 1)
  }

  function ClockVictim(bits: seq<bool>, hand: nat): (f: nat)
    requires hand < |bits|
    ensures f < |bits|
  {
    Slot(hand, Passed(bits, hand, 0), |bits|)
  }

  /** The bits afterwards: those passed over are cleared, the victim's is set, the rest are kept. */
  function ClockBits(bits: seq<bool>, hand: nat): (r: seq<bool>)
    requires hand < |bits|
    ensures |r| == |bits|
  {
    var n := Passed(bits, hand, 0);
    seq(|bits|, f requires 0 <= f < |bits| =>
      f == ClockVictim(bits, hand) || (Ahead(hand, f, |bits|) >= n && bits[f]))
  }

  /** `find_replacement`: the victim frame, with the policy's own data advanced. */
  function FindReplacement(c: Config, r: Replacer): (v: (Replacer, nat))
    requires c.frames > 0 && PolicyReady(c, r, c.frames)
    ensures v.1 < c.frames && PolicyReady(c, v.0, c.frames)
  {
    match c.policy
    case Zero => (r, 0)
    case Fifo => (r.(fifoTail := (r.fifoTail + 1) % c.frames), r.fifoTail)
    case Lru =>
      assert 0 in r.recency;
      var f := r.recency[|r.recency| - 1];
      RecencyRotated(r.recency, c.frames);
      (r.(recency := [f] + r.recency[..|r.recency| - 1]), f)
    case Clock =>
      var f := ClockVictim(r.clockRef, r.clockTail);
      (r.(clockRef := ClockBits(r.clockRef, r.clockTail), clockTail := (f + 1) % c.frames), f)
  }

  /** The note a policy takes of frame `f` being used for the first time. */
  function UseFree(c: Config, r: Replacer, f: nat): (t: Replacer)
    requires f < c.frames && PolicyReady(c, r, f)
    ensures PolicyReady(c, t, f + 1)
  {
    match c.policy
    case Lru =>
      RecencyWithNewHead(r.recency, f);
      r.(recency := [f] + r.recency)
    case Clock => if r.clockRef == [] then r.(clockRef := seq(c.frames, _ => true)) else r
    case _ => r
  }

  /** The note a policy takes of a hit on frame `f`. */
  function NoteHit(c: Config, r: Replacer, f: nat, used: nat): (t: Replacer)
    requires f < used <= c.frames && PolicyReady(c, r, used)
    ensures PolicyReady(c, t, used)
  {
    match c.policy
    case Lru =>
      RecencyMovedToHead(r.recency, used, f);
      r.(recency := [f] + Without(r.recency, f))
    case Clock => r.(clockRef := r.clockRef[f := true])
    case _ => r
  }

  // ---- tables, memory and disk ----

  /** Swaps the page of frame `f` out when it is dirty, and invalidates its entry. */
  function Evict(s: Store, f: nat): (r: Store)
    requires TablesInverse(s) && f < |s.owner|
    ensures r.owner == s.owner && r.mem == s.mem
  {
    var q := s.owner[f];
    s.(swap := if s.table[q].dirty then s.swap[q := s.mem[f]] else s.swap, table := s.table - {q})
  }

  /** Writes `x` into slot `f` of a buffer whose first `|xs|` slots are in use, `f` at most the next one. */
  function Placed<T>(xs: seq<T>, f: nat, x: T): seq<T>
    requires f <= |xs|
  {
    if f == |xs| then xs + [x] else xs[f := x]
  }

  /** Enters `p` at frame `f` in both tables and brings its byte in from the swap disk. */
  function Load(s: Store, p: Page, f: nat, write: bool): Store
    requires f <= |s.owner| == |s.mem|
  {
    Store(s.table[p := Pte(f, write)], Placed(s.owner, f, p), Placed(s.mem, f, SwapAt(s.swap, p)), s.swap)
  }

  /** `pagefault_handler`: the new state and the frame. */
  function PageFault(s: Vm, p: Page, write: bool): (r: (Vm, nat))
    requires Consistent(s) && s.config.frames > 0 && p !in s.store.table
    ensures Consistent(r.0) && r.0.config == s.config && r.1 <= |s.store.owner|
    ensures p in r.0.store.table && r.0.store.table[p] == Pte(r.1, write)
    ensures r.0.store.owner == Placed(s.store.owner, r.1, p)
  {
    var used := |s.store.owner|;
    if used < s.config.frames then
      var stats := s.stats.(swapReads := s.stats.swapReads + 1);
      LoadKeepsTables(s.store, p, used, write);
      (Vm(s.config, Load(s.store, p, used, write), UseFree(s.config, s.rep, used), stats), used)
    else
      var (rep, f) := FindReplacement(s.config, s.rep);
      var out := if s.store.table[s.store.owner[f]].dirty then 1 else 0;
      var stats := s.stats.(swapReads := s.stats.swapReads + 1, swapWrites := s.stats.swapWrites + out);
      ReplaceKeepsTables(s.store, p, f, write);
      (Vm(s.config, Load(Evict(s.store, f), p, f, write), rep, stats), f)
  }

  /** `get_PFN` on a valid page: the dirty bit, and the policy's note of the access. */
  function Hit(s: Vm, p: Page, write: bool): (r: Vm)
    requires Consistent(s) && p in s.store.table
    ensures Consistent(r) && r.config == s.config && r.store.owner == s.store.owner && r.store.mem == s.store.mem
  {
    var e := s.store.table[p];
    Vm(s.config, s.store.(table := s.store.table[p := Pte(e.pfn, e.dirty || write)]),
       NoteHit(s.config, s.rep, e.pfn, |s.store.owner|), s.stats)
  }

  function CountHit(s: Vm): Vm {
    s.(stats := s.stats.(hits := s.stats.hits + 1))
  }

  function CountMiss(s: Vm): Vm {
    s.(stats := s.stats.(misses := s.stats.misses + 1))
  }

  /** `MMU` for a page number in range: the new state, the frame, and whether it was a hit. */
  function Access(s: Vm, p: Page, write: bool): (r: (Vm, nat, bool))
    requires Consistent(s) && s.config.frames > 0
    ensures Consistent(r.0) && r.0.config == s.config
    ensures p in r.0.store.table && r.0.store.table[p].pfn == r.1 && (write ==> r.0.store.table[p].dirty)
    ensures r.2 <==> p in s.store.table
  {
    if p in s.store.table then (CountHit(Hit(s, p, write)), s.store.table[p].pfn, true)
    else
      var (t, f) := PageFault(s, p, write);
      (CountMiss(t), f, false)
  }

  // ---- the driver ----

  datatype Request = Request(pid: nat, kind: char, addr: nat, byte: char)

  datatype Response =
    | InvalidPid
    | InvalidAddress
    | BadKind
    | ReadByte(phys: nat, byte: char, hit: bool)
    | Wrote(phys: nat, byte: char, hit: bool)

  /** Whether the driver goes on to the next request. */
  predicate Continues(r: Response) {
    !r.InvalidAddress? && !r.BadKind?
  }

  function PageOf(q: Request): Page {
    Page(q.pid, q.addr / 256)
  }

  /** Whether a request gets as far as the page table. */
  predicate Reaches(c: Config, q: Request) {
    q.pid < c.maxPid && q.addr / 256 < c.maxVpn
  }

  /** The driver's part once the address is translated: it reads or writes the byte of frame `f`. */
  function Finish(t: Vm, f: nat, hit: bool, q: Request): (r: (Vm, Response))
    requires f < |t.store.mem|
    ensures r.0 == t.(store := t.store.(mem := r.0.store.mem)) && |r.0.store.mem| == |t.store.mem|
  {
    var phys := 256 * f + q.addr % 256;
    if q.kind == 'R' then (t, ReadByte(phys, t.store.mem[f], hit))
    else if q.kind == 'W' then (t.(store := t.store.(mem := t.store.mem[f := q.byte])), Wrote(phys, q.byte, hit))
    else (t, BadKind)
  }

  /** One pass through the body of the request loop. */
  function Serve(s: Vm, q: Request): (r: (Vm, Response))
    requires Consistent(s) && s.config.frames > 0
    ensures Consistent(r.0) && r.0.config == s.config
  {
    if q.pid >= s.config.maxPid then (s, InvalidPid)
    else if q.addr / 256 >= s.config.maxVpn then (s, InvalidAddress)
    else
      var (t, f, hit) := Access(s, PageOf(q), q.kind == 'W');
      Finish(t, f, hit, q)
  }

  /** The request loop; it ends early at a bad address or a bad request type. */
  function Run(s: Vm, qs: seq<Request>): (r: (Vm, seq<Response>))
    requires Consistent(s) && s.config.frames > 0
    ensures Consistent(r.0) && r.0.config == s.config
    ensures |r.1| <= |qs|
    decreases |qs|
  {
    if qs == [] then (s, [])
    else
      var (t, a) := Serve(s, qs[0]);
      if Continues(a) then
        var (u, rest) := Run(t, qs[1..]);
        (u, [a] + rest)
      else (t, [a])
  }

  /** Whether a request makes LRU replace the page of a single frame. */
  predicate FollowsNull(s: Vm, q: Request) {
    !Supported(s.config) && Reaches(s.config, q) && PageOf(q) !in s.store.table && |s.store.owner| == s.config.frames
  }

  /** Whether the program gets through the requests without following a null pointer. */
  ghost predicate RunsThrough(s: Vm, qs: seq<Request>)
    requires Consistent(s) && s.config.frames > 0
    decreases |qs|
  {
    qs != [] ==>
      && !FollowsNull(s, qs[0])
      && var (t, a) := Serve(s, qs[0]);
         Continues(a) ==> RunsThrough(t, qs[1..])
  }

  lemma {:induction false} SupportedRunsThrough(s: Vm, qs: seq<Request>)
    requires Consistent(s) && Supported(s.config)
    ensures RunsThrough(s, qs)
    decreases |qs|
  {
    if qs != [] && Continues(Serve(s, qs[0]).1) {
      SupportedRunsThrough(Serve(s, qs[0]).0, qs[1..]);
    }
  }

  // ---- the invariant proofs used above ----

  lemma LoadKeepsTables(s: Store, p: Page, f: nat, write: bool)
    requires TablesInverse(s) && p !in s.table && f == |s.owner|
    ensures TablesInverse(Load(s, p, f, write))
  {
  }

  lemma ReplaceKeepsTables(s: Store, p: Page, f: nat, write: bool)
    requires TablesInverse(s) && p !in s.table && f < |s.owner|
    ensures TablesInverse(Load(Evict(s, f), p, f, write))
  {
    var t := Load(Evict(s, f), p, f, write);
    forall g | 0 <= g < |t.owner| ensures t.owner[g] in t.table && t.table[t.owner[g]].pfn == g {
      if g != f {
        assert s.table[s.owner[g]].pfn == g && s.table[s.owner[f]].pfn == f;
      }
    }
  }

  lemma RecencyWithNewHead(r: seq<nat>, used: nat)
    requires RecencyLists(r, used)
    ensures RecencyLists([used] + r, used + 1)
  {
    assert used !in r;
  }

  /** Moving the last frame to the front, as `lru` does. */
  lemma RecencyRotated(r: seq<nat>, used: nat)
    requires RecencyLists(r, used) && r != []
    ensures RecencyLists([r[|r| - 1]] + r[..|r| - 1], used)
  {
    var t := [r[|r| - 1]] + r[..|r| - 1];
    forall f | 0 <= f < used ensures f in t {
      assert f in r;
      var i :| 0 <= i < |r| && r[i] == f;
      assert f == t[if i == |r| - 1 then 0 else i + 1];
    }
  }

  /** Moving any listed frame to the front, as a hit does. */
  lemma RecencyMovedToHead(r: seq<nat>, used: nat, f: nat)
    requires RecencyLists(r, used) && f < used
    ensures RecencyLists([f] + Without(r, f), used)
  {
    WithoutDistinct(r, f);
    var w := Without(r, f);
    forall i | 0 <= i < |w| ensures w[i] < used { assert w[i] in r; }
  }
}
