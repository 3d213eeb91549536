/**
 The simulator as the program runs it: page tables, memory and swap disk in arrays, the policies'
 globals, and the handlers that update them in place.  Each method computes the corresponding
 function of `PagingModel`.
 */
module PagingMachine {
  import opened Sequences
  import opened PagingModel
  import opened FrameList

  // ---- the globals of the policies ----

  class Policies {
    const config: Config
    var fifoTail: nat
    const list: List
    var clockTail: nat
    var clockRef: array?<int>
    ghost var rep: Replacer
    ghost var Repr: set<object>

    ghost predicate Valid(used: nat)
      reads this, Repr
      ensures Valid(used) ==> this in Repr
    {
      match rep
      case Replacer(tail, recency, hand, bits) =>
        && this in Repr && list in Repr && list.Repr <= Repr && this !in list.Repr
        && (clockRef != null ==> clockRef in Repr && clockRef !in list.Repr)
        && config.frames > 0
        && list.Valid()
        && (clockRef != null ==> BitsReady())
        && tail == fifoTail && recency == list.Contents() && hand == clockTail && bits == Bits()
        && PolicyReady(config, rep, used)
    }

    ghost function Bits(): (r: seq<bool>)
      reads this, clockRef
    {
      if clockRef == null then [] else BitsOf(clockRef[..])
    }

    ghost predicate BitsReady()
      reads this, clockRef
    {
      && clockRef != null && clockRef.Length == config.frames && clockTail < config.frames
      && forall i :: 0 <= i < clockRef.Length ==> clockRef[i] == 0 || clockRef[i] == 1
    }

    constructor (c: Config)
      requires c.frames > 0
      ensures Valid(0) && config == c && rep == Replacer(0, [], 0, [])
      ensures fresh(Repr)
    {
      config := c;
      fifoTail, clockTail, clockRef := 0, 0, null;
      rep := Replacer(0, [], 0, []);
      var empty := new List();
      list := empty;
      Repr := {this} + empty.Repr;
    }

    /** `fifo` */
    method Fifo() returns (pfn: nat)
      requires Valid(config.frames) && config.policy.Fifo?
      modifies Repr
      ensures Valid(config.frames) && (rep, pfn) == FindReplacement(config, old(rep))
      ensures Repr == old(Repr)
    {
      pfn := fifoTail;
      fifoTail := (fifoTail + 1) % config.frames;
      rep := rep.(fifoTail := fifoTail);
    }

    /** `lru` */
    method Lru() returns (pfn: nat)
      requires Valid(config.frames) && config.policy.Lru? && config.frames > 1
      modifies Repr
      ensures Valid(config.frames) && (rep, pfn) == FindReplacement(config, old(rep))
      ensures fresh(Repr - old(Repr))
    {
      hide RecencyLists, List.Contents;
      FullList(config, rep);
      ghost var after := FindReplacement(config, rep).0;
      pfn := list.Last();
      list.RemoveTail();
      list.InsertHead(pfn);
      assert list.Contents() == after.recency;
      Repr := Repr + list.Repr;
      rep := after;
    }

    /** One probe of `clock`: a clear bit is set and ends the search, a set bit is cleared. */
    method Probe() returns (found: bool)
      requires BitsReady()
      modifies this`clockTail, clockRef
      ensures BitsReady() && clockRef == old(clockRef)
      ensures found == !old(Bits()[clockTail])
      ensures Bits() == old(Bits()[clockTail := !Bits()[clockTail]])
      ensures clockTail == (old(clockTail) + 1) % config.frames
    {
      found := false;
      if clockRef[clockTail] == 0 {
        clockRef[clockTail] := 1;
        found := true;
      } else if clockRef[clockTail] == 1 {
        clockRef[clockTail] := 0;
      }
      clockTail := (clockTail + 1) % config.frames;
    }

    /**
     `clock`: the hand clears set bits until it finds a clear one.  It probes one frame more than
     it passes, so at most one more than there are frames.
     */
    method Clock() returns (pfn: nat, ghost probes: nat)
      requires BitsReady()
      modifies this`clockTail, clockRef
      ensures BitsReady() && clockRef == old(clockRef)
      ensures pfn == ClockVictim(old(Bits()), old(clockTail)) && clockTail == (pfn + 1) % config.frames
      ensures Bits() == ClockBits(old(Bits()), old(clockTail))
      ensures probes == Passed(old(Bits()), old(clockTail), 0) + 1 <= config.frames + 1
    {
      hide Swept, Passed, ClockVictim, ClockBits, Slot, Bits;
      BitsLength();
      ghost var bits, hand := Bits(), clockTail;
      SweepStarts(bits, hand);
      probes := 0;
      var found := false;
      pfn := 0;
      while !found
        invariant BitsReady() && clockRef == old(clockRef)
        invariant !found ==> probes <= |bits| && clockTail == Slot(hand, probes, |bits|)
        invariant !found ==> Swept(bits, hand, probes, Bits())
        invariant found ==> probes == Passed(bits, hand, 0) + 1 && pfn == ClockVictim(bits, hand)
        invariant found ==> clockTail == (pfn + 1) % |bits| && Bits() == ClockBits(bits, hand)
        decreases !found, |bits| + 1 - probes
      {
        pfn := clockTail;
        BitsLength();
        ghost var now := Bits();
        found := Probe();
        SweepStep(bits, hand, probes, now);
        probes := probes + 1;
      }
    }

    lemma BitsLength()
      requires BitsReady()
      ensures |Bits()| == config.frames
    {
    }

    /** `find_replacement` */
    method Choose() returns (pfn: nat)
      requires Valid(config.frames) && Supported(config)
      modifies Repr
      ensures Valid(config.frames) && (rep, pfn) == FindReplacement(config, old(rep))
      ensures fresh(Repr - old(Repr))
    {
      match config.policy {
        case Zero => pfn := 0;
        case Fifo => pfn := Fifo();
        case Lru => pfn := Lru();
        case Clock =>
          ghost var probes;
          pfn, probes := Clock();
          rep := rep.(clockTail := clockTail, clockRef := Bits());
      }
    }

    /** What `pagefault_handler` does for LRU and CLOCK when it takes free frame `pfn`. */
    method TakeFree(pfn: nat)
      requires Valid(pfn) && pfn < config.frames
      modifies Repr
      ensures Valid(pfn + 1) && rep == UseFree(config, old(rep), pfn)
      ensures fresh(Repr - old(Repr))
    {
      ghost var after := UseFree(config, rep, pfn);
      if config.policy == Policy.Lru {
        list.InsertHead(pfn);
      } else if config.policy == Policy.Clock && clockRef == null {
        var bits := AllSet();
        clockRef := bits;
        Repr := Repr + {bits};
        assert Bits() == seq(config.frames, _ => true);
      }
      Repr := Repr + list.Repr;
      rep := after;
    }

    /** The loop that allocates `clock_ref` with every bit set. */
    method AllSet() returns (bits: array<int>)
      ensures fresh(bits) && bits.Length == config.frames && forall j :: 0 <= j < bits.Length ==> bits[j] == 1
    {
      bits := new int[config.frames];
      for i := 0 to config.frames
        invariant forall j :: 0 <= j < i ==> bits[j] == 1
      {
        bits[i] := 1;
      }
    }

    /** What `get_PFN` does for LRU and CLOCK on a hit. */
    method Note(pfn: nat, ghost used: nat)
      requires Valid(used) && pfn < used <= config.frames
      modifies Repr
      ensures Valid(used) && rep == NoteHit(config, old(rep), pfn, used)
      ensures fresh(Repr - old(Repr))
    {
      hide RecencyLists, List.Valid, Without;
      ghost var after := NoteHit(config, rep, pfn, used);
      if config.policy == Policy.Lru {
        list.Remove(pfn);
        list.InsertHead(pfn);
      } else if config.policy == Policy.Clock {
        clockRef[pfn] := 1;
        assert Bits() == after.clockRef;
      }
      Repr := Repr + list.Repr;
      rep := after;
    }
  }

  /** With all frames in use the LRU list is as long as there are frames. */
  lemma FullList(c: Config, r: Replacer)
    requires c.policy == Lru && PolicyReady(c, r, c.frames)
    ensures |r.recency| == c.frames
  {
  }

  /** The bits after the hand has passed `d` set ones. */
  ghost predicate Swept(before: seq<bool>, hand: nat, d: nat, now: seq<bool>) {
    && hand < |before| == |now| && d <= |before|
    && (forall e :: 0 <= e < d ==> before[Slot(hand, e, |before|)])
    && (forall f :: 0 <= f < |now| ==> now[f] == (Ahead(hand, f, |before|) >= d && before[f]))
  }

  lemma SweepStarts(bits: seq<bool>, hand: nat)
    requires hand < |bits|
    ensures Swept(bits, hand, 0, bits) && Slot(hand, 0, |bits|) == hand
  {
  }

  /** What one probe does to a sweep: it ends at a clear bit, and goes on past a set one. */
  lemma SweepStep(before: seq<bool>, hand: nat, d: nat, now: seq<bool>)
    requires Swept(before, hand, d, now)
    ensures var k, f := |now|, Slot(hand, d, |now|);
            && (!now[f] ==>
                  d == Passed(before, hand, 0) && f == ClockVictim(before, hand) &&
                  now[f := true] == ClockBits(before, hand))
            && (now[f] ==> d < k && Swept(before, hand, d + 1, now[f := false]) && (f + 1) % k == Slot(hand, d + 1, k))
  {
    var f := Slot(hand, d, |now|);
    if now[f] {
      SweepGoesOn(before, hand, d, now);
      NextModulo(f, |now|);
      ModuloUnique(f, |now|, 0, f);
    } else {
      SweepEnds(before, hand, d, now);
    }
  }

  lemma SweepEnds(before: seq<bool>, hand: nat, d: nat, now: seq<bool>)
    requires Swept(before, hand, d, now) && !now[Slot(hand, d, |now|)]
    ensures d == Passed(before, hand, 0) && now[Slot(hand, d, |now|) := true] == ClockBits(before, hand)
  {
    var k, n := |now|, Passed(before, hand, 0);
    assert Ahead(hand, Slot(hand, d, k), k) == if d < k then d else 0;
    assert n < k ==> Ahead(hand, Slot(hand, n, k), k) == n;
  }

  lemma SweepGoesOn(before: seq<bool>, hand: nat, d: nat, now: seq<bool>)
    requires Swept(before, hand, d, now) && now[Slot(hand, d, |now|)]
    ensures d < |now| && Swept(before, hand, d + 1, now[Slot(hand, d, |now|) := false])
  {
    var k := |now|;
    assert Ahead(hand, Slot(hand, d, k), k) == if d < k then d else 0;
  }

  function BitsOf(xs: seq<int>): (r: seq<bool>)
    ensures |r| == |xs|
  {
    seq(|xs|, i requires 0 <= i < |xs| => xs[i] == 1)
  }

  // ---- page tables, memory and swap disk ----

  datatype Entry = Entry(pfn: nat, valid: bool, dirty: bool)

  /** The value a table array shows: the valid entries, keyed by page. */
  ghost predicate Shows(entries: array2<Entry>, table: map<Page, Pte>)
    reads entries
  {
    && (forall p :: p in table ==> p.pid < entries.Length0 && p.vpn < entries.Length1)
    && (forall pid: nat, vpn: nat {:trigger entries[pid, vpn]} {:trigger Page(pid, vpn)} ::
        pid < entries.Length0 && vpn < entries.Length1 ==>
          (entries[pid, vpn].valid <==> Page(pid, vpn) in table) &&
          (Page(pid, vpn) in table ==> table[Page(pid, vpn)] == Pte(entries[pid, vpn].pfn, entries[pid, vpn].dirty)))
  }

  /** The value a disk array shows. */
  ghost predicate Holds(slots: array2<char>, swap: map<Page, char>)
    reads slots
  {
    forall pid: nat, vpn: nat {:trigger slots[pid, vpn]} {:trigger Page(pid, vpn)} ::
      pid < slots.Length0 && vpn < slots.Length1 ==> slots[pid, vpn] == SwapAt(swap, Page(pid, vpn))
  }

  /** `pageTable`, `invertedPageTable`, `nextFreeFrame`, `PHYSICAL_MEM` and `SWAP_DISK` */
  class Frames {
    const entries: array2<Entry>
    const inverted: array<Page>
    const memory: array<char>
    const slots: array2<char>
    var nextFreeFrame: nat
    ghost var store: Store

    ghost predicate Valid()
      reads this, entries, inverted, memory, slots
    {
      match store
      case Store(table, owner, mem, swap) =>
        && entries.Length0 == slots.Length0 && entries.Length1 == slots.Length1 && inverted.Length == memory.Length
        && Shows(entries, table)
        && |owner| == |mem| <= inverted.Length && owner == inverted[..|owner|] && mem == memory[..|mem|]
        && Holds(slots, swap)
    }

    /**
     `init_pagetable` and `init_swap_disk`: the valid bits are cleared and the disk is filled with
     the initial byte; whatever else the new memory holds stays there.
     */
    constructor (c: Config)
      ensures Valid() && store == Init(c).store && nextFreeFrame == 0
      ensures entries.Length0 == c.maxPid && entries.Length1 == c.maxVpn && inverted.Length == c.frames
      ensures fresh(entries) && fresh(inverted) && fresh(memory) && fresh(slots)
    {
      entries := new Entry[c.maxPid, c.maxVpn];
      inverted := new Page[c.frames];
      memory := new char[c.frames];
      slots := new char[c.maxPid, c.maxVpn];
      nextFreeFrame := 0;
      store := Init(c).store;
      new;
      for i := 0 to c.maxPid
        modifies entries
        invariant forall pid: nat, vpn: nat :: pid < i && vpn < c.maxVpn ==> !entries[pid, vpn].valid
      {
        for j := 0 to c.maxVpn
          invariant forall pid: nat, vpn: nat :: pid < i && vpn < c.maxVpn ==> !entries[pid, vpn].valid
          invariant forall vpn: nat :: vpn < j ==> !entries[i, vpn].valid
        {
          entries[i, j] := entries[i, j].(valid := false);
        }
      }
      for i := 0 to c.maxPid
        modifies slots
        invariant forall pid: nat, vpn: nat :: pid < i && vpn < c.maxVpn ==> slots[pid, vpn] == FRESH_BYTE
      {
        for j := 0 to c.maxVpn
          invariant forall pid: nat, vpn: nat :: pid < i && vpn < c.maxVpn ==> slots[pid, vpn] == FRESH_BYTE
          invariant forall vpn: nat :: vpn < j ==> slots[i, vpn] == FRESH_BYTE
        {
          slots[i, j] := FRESH_BYTE;
        }
      }
    }

    /** `read_PTE` */
    method ReadPTE(pid: nat, vpn: nat) returns (e: Entry)
      requires Valid() && pid < entries.Length0 && vpn < entries.Length1
      ensures e.valid <==> Page(pid, vpn) in store.table
      ensures e.valid ==> store.table[Page(pid, vpn)] == Pte(e.pfn, e.dirty)
    {
      e := entries[pid, vpn];
    }

    /** `write_PTE` */
    method WritePTE(pid: nat, vpn: nat, e: Entry)
      requires Valid() && pid < entries.Length0 && vpn < entries.Length1
      modifies this`store, entries
      ensures Valid()
      ensures store == old(store).(table := if e.valid then old(store).table[Page(pid, vpn) := Pte(e.pfn, e.dirty)]
                                            else old(store).table - {Page(pid, vpn)})
    {
      entries[pid, vpn] := e;
      store := store.(table := if e.valid then store.table[Page(pid, vpn) := Pte(e.pfn, e.dirty)]
        else store.table - {Page(pid, vpn)});
    }

    /** `get_freeframe` */
    method GetFreeFrame() returns (pfn: int)
      modifies this`nextFreeFrame
      ensures if old(nextFreeFrame) >= inverted.Length then pfn == -1 && nextFreeFrame == old(nextFreeFrame)
              else pfn == old(nextFreeFrame) && nextFreeFrame == old(nextFreeFrame) + 1
    {
      if nextFreeFrame >= inverted.Length {
        return -1;
      }
      pfn := nextFreeFrame;
      nextFreeFrame := nextFreeFrame + 1;
    }

    /** `swap_out` */
    method SwapOut(pid: nat, vpn: nat, pfn: nat)
      requires Valid() && pid < slots.Length0 && vpn < slots.Length1 && pfn < |store.mem|
      modifies this`store, slots
      ensures Valid() && store == old(store).(swap := old(store).swap[Page(pid, vpn) := old(store).mem[pfn]])
    {
      slots[pid, vpn] := memory[pfn];
      store := store.(swap := store.swap[Page(pid, vpn) := memory[pfn]]);
    }

    /** `write_IPTE` and `swap_in`, which `pagefault_handler` calls one after the other on the same frame. */
    method Fill(pid: nat, vpn: nat, pfn: nat)
      requires Valid() && pid < slots.Length0 && vpn < slots.Length1 && pfn <= |store.owner| && pfn < memory.Length
      modifies this`store, inverted, memory
      ensures Valid()
      ensures store == old(store).(owner := Placed(old(store).owner, pfn, Page(pid, vpn)),
                                   mem := Placed(old(store).mem, pfn, SwapAt(old(store).swap, Page(pid, vpn))))
    {
      inverted[pfn] := Page(pid, vpn);
      memory[pfn] := slots[pid, vpn];
      store := store.(owner := Placed(store.owner, pfn, Page(pid, vpn)),
        mem := Placed(store.mem, pfn, SwapAt(store.swap, Page(pid, vpn))));
    }

    /** In `pagefault_handler`: saves the page of victim frame `pfn` if it is dirty, and drops its entry. */
    method Save(pfn: nat) returns (saved: bool)
      requires Valid() && TablesInverse(store) && pfn < |store.owner|
      modifies this`store, entries, slots
      ensures Valid() && store == Evict(old(store), pfn)
      ensures saved == old(store).table[old(store).owner[pfn]].dirty
    {
      saved := false;
      var ipte := inverted[pfn];
      assert store.owner[pfn] == ipte;
      var pte := ReadPTE(ipte.pid, ipte.vpn);
      if pte.dirty {
        pte := pte.(dirty := false);
        SwapOut(ipte.pid, ipte.vpn, pfn);
        saved := true;
      }
      pte := pte.(valid := false);
      WritePTE(ipte.pid, ipte.vpn, pte);
    }

    /** In `pagefault_handler`: enters the page in both tables and swaps its byte in. */
    method BringIn(pid: nat, vpn: nat, reqType: char, pfn: nat)
      requires Valid() && pid < slots.Length0 && vpn < slots.Length1 && pfn <= |store.owner| && pfn < memory.Length
      modifies this`store, entries, inverted, memory
      ensures Valid() && store == Load(old(store), Page(pid, vpn), pfn, reqType == 'W')
    {
      var pte := ReadPTE(pid, vpn);
      pte := pte.(valid := true);
      if reqType == 'W' {
        pte := pte.(dirty := true);
      } else {
        pte := pte.(dirty := false);
      }
      pte := pte.(pfn := pfn);
      WritePTE(pid, vpn, pte);
      Fill(pid, vpn, pfn);
    }

    /** In `get_PFN`: a write request marks the valid entry `pte` dirty. */
    method MarkHit(pid: nat, vpn: nat, reqType: char, pte: Entry)
      requires Valid() && TablesInverse(store) && pid < slots.Length0 && vpn < slots.Length1
      requires Page(pid, vpn) in store.table && pte.valid && store.table[Page(pid, vpn)] == Pte(pte.pfn, pte.dirty)
      modifies this`store, entries
      ensures Valid() && TablesInverse(store)
      ensures store == old(store).(table :=
                old(store).table[Page(pid, vpn) := Pte(pte.pfn, pte.dirty || reqType == 'W')])
    {
      if reqType == 'W' {
        WritePTE(pid, vpn, pte.(dirty := true));
      } else {
        assert store.table == store.table[Page(pid, vpn) := Pte(pte.pfn, pte.dirty)];
      }
    }

    /** `READ_PHYSICAL_MEM` */
    method ReadPhysicalMem(addr: int) returns (ok: bool, byte: char)
      requires Valid()
      ensures ok <==> 0 <= addr / 256 < memory.Length
      ensures 0 <= addr / 256 < |store.mem| ==> byte == store.mem[addr / 256]
    {
      var frameNo := addr / 256;
      if frameNo < 0 || frameNo >= memory.Length {
        return false, FRESH_BYTE;
      }
      return true, memory[frameNo];
    }

    /** `WRITE_PHYSICAL_MEM`, for a frame in use. */
    method WritePhysicalMem(addr: int, byte: char) returns (ok: bool)
      requires Valid() && addr / 256 < |store.mem|
      modifies this`store, memory
      ensures Valid() && (ok <==> 0 <= addr / 256 < memory.Length)
      ensures store == if ok then old(store).(mem := old(store).mem[addr / 256 := byte]) else old(store)
    {
      var frameNo := addr / 256;
      if frameNo < 0 || frameNo >= memory.Length {
        return false;
      }
      memory[frameNo] := byte;
      store := store.(mem := store.mem[frameNo := byte]);
      return true;
    }

    /** The two together: victim frame `pfn` gets the new page.  `saved` tells whether the old one was written out. */
    method Replace(pid: nat, vpn: nat, reqType: char, pfn: nat) returns (saved: bool)
      requires Valid() && TablesInverse(store) && pfn < |store.owner|
      requires pid < slots.Length0 && vpn < slots.Length1 && Page(pid, vpn) !in store.table
      modifies this`store, entries, inverted, memory, slots
      ensures Valid() && store == Load(Evict(old(store), pfn), Page(pid, vpn), pfn, reqType == 'W')
      ensures TablesInverse(store) && |store.owner| == |old(store).owner|
      ensures saved == old(store).table[old(store).owner[pfn]].dirty
    {
      ReplaceKeepsTables(store, Page(pid, vpn), pfn, reqType == 'W');
      saved := Save(pfn);
      BringIn(pid, vpn, reqType, pfn);
    }

    /** A page enters a frame that was free. */
    method Occupy(pid: nat, vpn: nat, reqType: char, pfn: nat)
      requires Valid() && TablesInverse(store) && pfn == |store.owner| < memory.Length
      requires pid < slots.Length0 && vpn < slots.Length1 && Page(pid, vpn) !in store.table
      modifies this`store, entries, inverted, memory
      ensures Valid() && store == Load(old(store), Page(pid, vpn), pfn, reqType == 'W')
      ensures TablesInverse(store) && |store.owner| == pfn + 1
    {
      LoadKeepsTables(store, Page(pid, vpn), pfn, reqType == 'W');
      BringIn(pid, vpn, reqType, pfn);
    }
  }

  // ---- the MMU and the driver ----

  class Simulator {
    const config: Config
    const frames: Frames
    const policies: Policies
    var stats: Stats

    ghost predicate Valid()
      reads this, frames, frames.entries, frames.inverted, frames.memory, frames.slots, policies, policies.Repr
    {
      && PoliciesApart() && Sized()
      && frames.Valid() && frames.nextFreeFrame == |frames.store.owner|
      && policies.Valid(frames.nextFreeFrame)
      && config.frames > 0 && Consistent(View())
    }

    ghost predicate Sized()
    {
      && policies.config == config
      && frames.entries.Length0 == frames.slots.Length0 == config.maxPid
      && frames.entries.Length1 == frames.slots.Length1 == config.maxVpn
      && frames.inverted.Length == frames.memory.Length == config.frames
    }

    /** The policies share no object with the tables, the memory and the disk. */
    ghost predicate PoliciesApart()
      reads policies
    {
      policies.Repr !! {this, frames, frames.entries, frames.inverted, frames.memory, frames.slots}
    }

    ghost function View(): Vm
      reads this, frames, policies
    {
      Vm(config, frames.store, policies.rep, stats)
    }

    constructor (c: Config)
      requires c.frames > 0
      ensures Valid() && View() == Init(c)
    {
      config := c;
      frames := new Frames(c);
      policies := new Policies(c);
      stats := Stats(0, 0, 0, 0);
    }

    /** `pagefault_handler` when no frame is free. */
    method FaultByReplacement(pid: nat, vpn: nat, reqType: char) returns (pfn: nat)
      requires Valid() && pid < config.maxPid && vpn < config.maxVpn && Page(pid, vpn) !in frames.store.table
      requires frames.nextFreeFrame == config.frames && Supported(config)
      modifies this`stats, frames`store, frames.entries, frames.inverted, frames.memory, frames.slots
      modifies policies.Repr
      ensures Valid() && fresh(policies.Repr - old(policies.Repr))
      ensures (policies.rep, pfn) == FindReplacement(config, old(policies.rep))
      ensures pfn < |old(frames.store).owner| &&
              frames.store == Load(Evict(old(frames.store), pfn), Page(pid, vpn), pfn, reqType == 'W')
      ensures stats == Stats(old(stats).hits, old(stats).misses, old(stats).swapReads + 1,
                             old(stats).swapWrites + if old(frames.store).table[old(frames.store).owner[pfn]].dirty
                               then 1 else 0)
    {
      hide TablesInverse, Shows, Holds, PolicyReady, List.Valid, Evict, Load;
      pfn := policies.Choose();
      var saved := frames.Replace(pid, vpn, reqType, pfn);
      stats := stats.(swapReads := stats.swapReads + 1, swapWrites := stats.swapWrites + if saved then 1 else 0);
    }

    /** `pagefault_handler` when `get_freeframe` has returned `pfn`. */
    method FaultByFreeFrame(pid: nat, vpn: nat, reqType: char, pfn: nat)
      requires frames.nextFreeFrame == pfn + 1 <= config.frames
      requires PoliciesApart() && Sized() && policies.Valid(pfn) && frames.Valid() && |frames.store.owner| == pfn
      requires Consistent(View())
      requires pid < config.maxPid && vpn < config.maxVpn && Page(pid, vpn) !in frames.store.table
      modifies this`stats, frames`store, frames.entries, frames.inverted, frames.memory
      modifies policies.Repr
      ensures Valid() && (View(), pfn) == PageFault(old(View()), Page(pid, vpn), reqType == 'W')
      ensures fresh(policies.Repr - old(policies.Repr))
    {
      hide TablesInverse, Shows, Holds, List.Valid, Load;
      policies.TakeFree(pfn);
      frames.Occupy(pid, vpn, reqType, pfn);
      stats := stats.(swapReads := stats.swapReads + 1);
    }

    /** `pagefault_handler` */
    method PageFaultHandler(pid: nat, vpn: nat, reqType: char) returns (pfn: nat)
      requires Valid() && pid < config.maxPid && vpn < config.maxVpn && Page(pid, vpn) !in frames.store.table
      requires frames.nextFreeFrame == config.frames ==> Supported(config)
      modifies this`stats, frames, frames.entries, frames.inverted, frames.memory, frames.slots
      modifies policies.Repr
      ensures Valid() && (View(), pfn) == PageFault(old(View()), Page(pid, vpn), reqType == 'W')
      ensures fresh(policies.Repr - old(policies.Repr))
    {
      hide TablesInverse, Shows, Holds, PolicyReady, List.Valid, Evict, Load;
      var free := frames.GetFreeFrame();
      if free < 0 {
        pfn := FaultByReplacement(pid, vpn, reqType);
      } else {
        pfn := free;
        FaultByFreeFrame(pid, vpn, reqType, pfn);
      }
    }

    /** `get_PFN` */
    method GetPFN(pid: nat, vpn: nat, reqType: char) returns (pfn: int)
      requires Valid() && pid < config.maxPid && vpn < config.maxVpn
      modifies frames`store, frames.entries, policies.Repr
      ensures Valid()
      ensures var p := Page(pid, vpn);
              if p in old(View()).store.table then
                pfn == old(View()).store.table[p].pfn && View() == Hit(old(View()), p, reqType == 'W')
              else
                pfn == -1 && View() == old(View())
      ensures fresh(policies.Repr - old(policies.Repr))
    {
      hide Consistent, Frames.Valid, Policies.Valid, NoteHit;
      ghost var s := View();
      InTable(s, Page(pid, vpn));
      var pte := frames.ReadPTE(pid, vpn);
      if pte.valid {
        frames.MarkHit(pid, vpn, reqType, pte);
        policies.Note(pte.pfn, frames.nextFreeFrame);
        assert View() == Hit(s, Page(pid, vpn), reqType == 'W');
        return pte.pfn;
      }
      return -1;
    }

    /** `MMU`: the physical address, or -1 when the page number is out of range. */
    method MMU(pid: nat, virtAddr: nat, reqType: char) returns (physicalAddr: int, hit: bool)
      requires Valid() && pid < config.maxPid && !FollowsNull(View(), Request(pid, reqType, virtAddr, FRESH_BYTE))
      modifies this`stats, frames, frames.entries, frames.inverted, frames.memory, frames.slots, policies.Repr
      ensures Valid() && fresh(policies.Repr - old(policies.Repr))
      ensures if virtAddr / 256 >= config.maxVpn then physicalAddr == -1 && View() == old(View())
              else ReturnsAccess(Access(old(View()), Page(pid, virtAddr / 256), reqType == 'W'), virtAddr, View(),
                physicalAddr, hit)
    {
      hide TablesInverse, Shows, Holds, PolicyReady, List.Valid, Evict, Load, NoteHit, UseFree, FindReplacement;
      hit := false;
      var vpn, offset := virtAddr / 256, virtAddr % 256;
      if vpn >= config.maxVpn || offset > 256 {
        return -1, hit;
      }
      ghost var s := View();
      var pfn := GetPFN(pid, vpn, reqType);
      if pfn >= 0 {
        stats := stats.(hits := stats.hits + 1);
        hit := true;
      } else {
        stats := stats.(misses := stats.misses + 1);
        hit := false;
        pfn := PageFaultHandler(pid, vpn, reqType);
      }
      physicalAddr := 256 * pfn + offset;
    }

    /** The part of the request loop that follows the translation. */
    method FinishRequest(q: Request, physicalAddr: nat, hit: bool) returns (r: Response)
      requires Valid() && physicalAddr / 256 < |frames.store.mem| && physicalAddr % 256 == q.addr % 256
      modifies frames`store, frames.memory
      ensures Valid() && (View(), r) == Finish(old(View()), physicalAddr / 256, hit, q)
    {
      hide Shows, Holds, PolicyReady, List.Valid;
      if q.kind == 'R' {
        var ok, byte := frames.ReadPhysicalMem(physicalAddr);
        r := ReadByte(physicalAddr, byte, hit);
      } else if q.kind == 'W' {
        var ok := frames.WritePhysicalMem(physicalAddr, q.byte);
        r := Wrote(physicalAddr, q.byte, hit);
      } else {
        r := BadKind;
      }
    }

    /** One pass through the body of the request loop. */
    method ServeRequest(q: Request) returns (r: Response)
      requires Valid() && !FollowsNull(View(), q)
      modifies this`stats, frames, frames.entries, frames.inverted, frames.memory, frames.slots, policies.Repr
      ensures Valid() && fresh(policies.Repr - old(policies.Repr))
      ensures (View(), r) == Serve(old(View()), q)
    {
      hide Consistent, Frames.Valid, Policies.Valid, Access, Serve, Finish;
      ServeByCases(View(), q);
      if q.pid > config.maxPid - 1 {
        return InvalidPid;
      }
      var physicalAddr, hit := MMU(q.pid, q.addr, q.kind);
      var pfn := physicalAddr / 256;
      if pfn >= config.frames || pfn < 0 || physicalAddr < 0 {
        return InvalidAddress;
      }
      r := FinishRequest(q, physicalAddr, hit);
    }

    /** The request loop of `main`. */
    method Drive(qs: seq<Request>) returns (rs: seq<Response>)
      requires Valid() && RunsThrough(View(), qs)
      modifies this`stats, frames, frames.entries, frames.inverted, frames.memory, frames.slots, policies.Repr
      ensures Valid() && (View(), rs) == Run(old(View()), qs)
    {
      hide TablesInverse, PolicyReady, Frames.Valid, Policies.Valid, Serve;
      rs := [];
      var i := 0;
      ghost var s, t := View(), View();
      assert qs[0..] == qs && [] + Run(s, qs).1 == Run(s, qs).1;
      while i < |qs|
        invariant Valid() && t == View() && fresh(policies.Repr - old(policies.Repr)) && 0 <= i <= |qs|
        invariant Run(s, qs) == (Run(t, qs[i..]).0, rs + Run(t, qs[i..]).1) && RunsThrough(t, qs[i..])
      {
        var r := ServeRequest(qs[i]);
        RunSteps(t, qs, i, rs, r, View());
        t := View();
        rs := rs + [r];
        if !Continues(r) {
          return;
        }
        i := i + 1;
      }
      assert rs + [] == rs;
    }
  }

  lemma InTable(s: Vm, p: Page)
    requires Consistent(s)
    ensures TablesInverse(s.store) && |s.store.owner| <= s.config.frames
    ensures p in s.store.table ==> s.store.table[p].pfn < |s.store.owner|
  {
  }

  lemma RunSteps(s: Vm, qs: seq<Request>, i: nat, rs: seq<Response>, r: Response, t: Vm)
    requires Consistent(s) && s.config.frames > 0 && i < |qs| && Serve(s, qs[i]) == (t, r)
    ensures RunsThrough(s, qs[i..]) ==> !FollowsNull(s, qs[i]) && (Continues(r) ==> RunsThrough(t, qs[i + 1..]))
    ensures var rest := Run(s, qs[i..]);
            if Continues(r) then (rest.0, rs + rest.1) == (Run(t, qs[i + 1..]).0, rs + [r] + Run(t, qs[i + 1..]).1)
            else (rest.0, rs + rest.1) == (t, rs + [r])
  {
    assert qs[i..][1..] == qs[i + 1..];
    if Continues(r) {
      assert rs + ([r] + Run(t, qs[i + 1..]).1) == rs + [r] + Run(t, qs[i + 1..]).1;
    }
  }

  /** A served request in terms of its access, whose physical address leads back to the frame. */
  lemma ServeByCases(s: Vm, q: Request)
    requires Consistent(s) && s.config.frames > 0
    ensures q.pid >= s.config.maxPid ==> Serve(s, q) == (s, InvalidPid)
    ensures q.pid < s.config.maxPid && q.addr / 256 >= s.config.maxVpn ==> Serve(s, q) == (s, InvalidAddress)
    ensures Reaches(s.config, q) ==>
              var (t, f, hit) := Access(s, PageOf(q), q.kind == 'W');
              f < |t.store.mem| <= s.config.frames && (256 * f + q.addr % 256) / 256 == f &&
                Serve(s, q) == Finish(t, f, hit, q)
  {
  }

  /** What `MMU` returns and leaves behind, given the access it stands for. */
  ghost predicate ReturnsAccess(access: (Vm, nat, bool), virtAddr: nat, after: Vm, physicalAddr: int, hit: bool) {
    access == (after, access.1, hit) && physicalAddr == 256 * access.1 + virtAddr % 256
  }
}
