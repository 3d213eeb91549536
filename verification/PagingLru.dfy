/**
 LRU: the resident pages are the most recently used ones, most recent first, so memories of
 different sizes are nested, and adding frames never adds a miss.
 */
module PagingLru {
  import opened Sequences
  import opened PagingModel

  // ---- the pages of a trace by last use ----

  /** The pages the driver translates, in order. */
  function Touches(c: Config, qs: seq<Request>): seq<Page>
    decreases |qs|
  {
    if qs == [] then []
    else if qs[0].pid >= c.maxPid then Touches(c, qs[1..])
    else if !Reaches(c, qs[0]) then []
    else if qs[0].kind != 'R' && qs[0].kind != 'W' then [PageOf(qs[0])]
    else [PageOf(qs[0])] + Touches(c, qs[1..])
  }

  function Moved(l: seq<Page>, p: Page): seq<Page> {
    [p] + Without(l, p)
  }

  /** The recency stack of a trace: every page used, the last used first. */
  function Recent(trace: seq<Page>): seq<Page> {
    if trace == [] then [] else Moved(Recent(trace[..|trace| - 1]), trace[|trace| - 1])
  }

  /** When `p` was last used. */
  function LastUse(trace: seq<Page>, p: Page): (n: nat)
    requires p in trace
    ensures n < |trace| && trace[n] == p
    ensures forall i :: n < i < |trace| ==> trace[i] != p
  {
    if trace[|trace| - 1] == p then |trace| - 1 else LastUse(trace[..|trace| - 1], p)
  }

  lemma LastUseOfLast(before: seq<Page>, p: Page)
    ensures p in before + [p] && LastUse(before + [p], p) == |before|
  {
    assert (before + [p])[|before|] == p;
  }

  /** `l` lists pages of the trace, last used first. */
  ghost predicate ByLastUse(trace: seq<Page>, l: seq<Page>) {
    && (forall i :: 0 <= i < |l| ==> l[i] in trace)
    && (forall i, j :: 0 <= i < j < |l| ==> LastUse(trace, l[i]) > LastUse(trace, l[j]))
  }

  lemma LastUseExtends(before: seq<Page>, p: Page, q: Page)
    requires q in before && q != p
    ensures q in before + [p] && LastUse(before + [p], q) == LastUse(before, q)
  {
    assert (before + [p])[..|before|] == before;
  }

  /** Using a page puts it in front and keeps the order of the others. */
  lemma MovedByLastUse(before: seq<Page>, l: seq<Page>, p: Page)
    requires ByLastUse(before, l) && Distinct(l)
    ensures ByLastUse(before + [p], Moved(l, p))
  {
    var trace, r := before + [p], Moved(l, p);
    forall j | 0 <= j < |r| ensures r[j] in trace {
      if j > 0 { MovedTail(before, l, p, j); }
    }
    forall i, j | 0 <= i < j < |r| ensures LastUse(trace, r[i]) > LastUse(trace, r[j]) {
      MovedPair(before, l, p, i, j);
    }
  }

  lemma MovedPair(before: seq<Page>, l: seq<Page>, p: Page, i: nat, j: nat)
    requires ByLastUse(before, l) && Distinct(l) && i < j < |Moved(l, p)|
    ensures var r := Moved(l, p);
            r[i] in before + [p] && r[j] in before + [p] && LastUse(before + [p], r[i]) > LastUse(before + [p], r[j])
  {
    hide Without, Distinct, LastUse;
    MovedTail(before, l, p, j);
    if i == 0 {
      LastUseOfLast(before, p);
    } else {
      MovedTail(before, l, p, i);
      var a, b := WithoutKeepsOrder(l, p, i - 1, j - 1);
    }
  }

  lemma MovedTail(before: seq<Page>, l: seq<Page>, p: Page, j: nat)
    requires ByLastUse(before, l) && Distinct(l) && 0 < j < |Moved(l, p)|
    ensures var q := Moved(l, p)[j];
            q == Without(l, p)[j - 1] && q in before && q in before + [p] &&
              LastUse(before + [p], q) == LastUse(before, q)
  {
    var q := Without(l, p)[j - 1];
    WithoutDistinct(l, p);
    assert q in Without(l, p);
    LastUseExtends(before, p, q);
  }

  /** The stack holds the pages of the trace once each, strictly ordered by last use. */
  lemma {:induction false} RecentOrdersByLastUse(trace: seq<Page>)
    ensures Distinct(Recent(trace))
    ensures forall p :: p in Recent(trace) <==> p in trace
    ensures ByLastUse(trace, Recent(trace))
  {
    if trace != [] {
      var k := |trace| - 1;
      var before, p := trace[..k], trace[k];
      assert trace == before + [p];
      RecentOrdersByLastUse(before);
      WithoutDistinct(Recent(before), p);
      MovedByLastUse(before, Recent(before), p);
    }
  }

  /** Removing an element leaves the others in order. */
  lemma WithoutKeepsOrder(l: seq<Page>, p: Page, i: nat, j: nat) returns (a: nat, b: nat)
    requires Distinct(l) && i < j < |Without(l, p)|
    ensures a < b < |l| && l[a] == Without(l, p)[i] && l[b] == Without(l, p)[j]
  {
    hide Without;
    if p in l {
      var k :| 0 <= k < |l| && l[k] == p;
      WithoutAt(l, k);
      a, b := if i < k then i else i + 1, if j < k then j else j + 1;
    } else {
      WithoutAbsent(l, p);
      a, b := i, j;
    }
  }

  // ---- the machine's list against the stack ----

  /** The pages in the frames of an LRU list. */
  function PagesOf(owner: seq<Page>, recency: seq<nat>): (r: seq<Page>)
    requires forall i :: 0 <= i < |recency| ==> recency[i] < |owner|
    ensures |r| == |recency| && forall i :: 0 <= i < |r| ==> r[i] == owner[recency[i]]
  {
    seq(|recency|, i requires 0 <= i < |recency| => owner[recency[i]])
  }

  function Top(l: seq<Page>, k: nat): seq<Page> {
    if |l| <= k then l else l[..k]
  }

  /** The LRU list holds the `frames` most recently used pages of `l`, in the order of `l`. */
  ghost predicate HoldsTop(s: Vm, l: seq<Page>) {
    && Consistent(s)
    && s.config.policy == Lru
    && s.config.frames > 0
    && Distinct(l)
    && PagesOf(s.store.owner, s.rep.recency) == Top(l, s.config.frames)
  }

  /** A page is resident exactly when it is among the top pages of the stack. */
  lemma ResidentIsTop(s: Vm, l: seq<Page>, p: Page)
    requires HoldsTop(s, l)
    ensures p in s.store.table <==> p in Top(l, s.config.frames)
  {
    var pages := PagesOf(s.store.owner, s.rep.recency);
    if p in s.store.table {
      var f := s.store.table[p].pfn;
      assert f in s.rep.recency;
      var i :| 0 <= i < |s.rep.recency| && s.rep.recency[i] == f;
      assert pages[i] == p;
    }
    if p in pages {
      var i :| 0 <= i < |pages| && pages[i] == p;
      assert s.store.owner[s.rep.recency[i]] == p;
    }
  }

  lemma FirstPlace<T>(s: seq<T>, k: nat)
    requires Distinct(s) && k < |s|
    ensures s[k] !in s[..k]
  {
  }

  /** The sequence with its element at `i` moved to the front. */
  function Front<T>(s: seq<T>, i: nat): (r: seq<T>)
    requires i < |s|
    ensures |r| == |s|
    ensures r[0] == s[i]
    ensures forall j :: 0 < j <= i ==> r[j] == s[j - 1]
    ensures forall j :: i < j < |s| ==> r[j] == s[j]
  {
    [s[i]] + s[..i] + s[i + 1..]
  }

  lemma MovedIsFront<T>(s: seq<T>, i: nat)
    requires Distinct(s) && i < |s|
    ensures [s[i]] + Without(s, s[i]) == Front(s, i)
  {
    FirstPlace(s, i);
    WithoutAt(s, i);
    forall j | 0 <= j < |s| ensures ([s[i]] + Without(s, s[i]))[j] == Front(s, i)[j] {}
  }

  /** Moving a frame to the head of the list moves its page to the head of the stack. */
  lemma MoveBoth(owner: seq<Page>, r: seq<nat>, l: seq<Page>, k: nat, i: nat)
    requires forall j :: 0 <= j < |r| ==> r[j] < |owner|
    requires i < |r| && PagesOf(owner, r) == Top(l, k)
    ensures forall j :: 0 <= j < |r| ==> Front(r, i)[j] < |owner|
    ensures i < |l| && PagesOf(owner, Front(r, i)) == Top(Front(l, i), k)
  {
    forall j | 0 <= j < |r|
      ensures Front(r, i)[j] < |owner| && owner[Front(r, i)[j]] == Front(l, i)[j]
    {
      var j0 := if j == 0 then i else if j <= i then j - 1 else j;
      assert PagesOf(owner, r)[j0] == l[j0];
    }
  }

  /** A hit moves the page to the front of both. */
  lemma HitKeepsTop(s: Vm, l: seq<Page>, p: Page, write: bool)
    requires HoldsTop(s, l) && p in s.store.table
    ensures HoldsTop(Hit(s, p, write), Moved(l, p))
  {
    hide Without, Front;
    var r, k := s.rep.recency, s.config.frames;
    var f := s.store.table[p].pfn;
    assert f in r;
    var i :| 0 <= i < |r| && r[i] == f;
    assert PagesOf(s.store.owner, r)[i] == p == l[i];
    MovedIsFront(r, i);
    MovedIsFront(l, i);
    MoveBoth(s.store.owner, r, l, k, i);
    WithoutDistinct(l, p);
  }

  /** A new page in a free frame goes to the head of both. */
  lemma AddBoth(owner: seq<Page>, r: seq<nat>, l: seq<Page>, k: nat, p: Page)
    requires forall j :: 0 <= j < |r| ==> r[j] < |owner|
    requires |r| == |owner| < k && PagesOf(owner, r) == Top(l, k)
    ensures PagesOf(owner + [p], [|owner|] + r) == Top([p] + l, k)
  {
  }

  /** A miss with a free frame puts a page never seen before in front of the list. */
  lemma FreeMissKeepsTop(s: Vm, l: seq<Page>, p: Page, write: bool)
    requires HoldsTop(s, l) && p !in s.store.table && |s.store.owner| < s.config.frames
    ensures HoldsTop(PageFault(s, p, write).0, Moved(l, p))
  {
    ResidentIsTop(s, l, p);
    WithoutAbsent(l, p);
    AddBoth(s.store.owner, s.rep.recency, l, s.config.frames, p);
  }

  lemma TopWithout(l: seq<Page>, p: Page, k: nat)
    requires 0 < k <= |l| && p !in l[..k]
    ensures Top(Moved(l, p), k) == [p] + l[..k - 1]
  {
    if p in l[k..] {
      WithoutTail(l, p, k);
    } else {
      assert l == l[..k] + l[k..];
      WithoutAbsent(l, p);
    }
    var w := Without(l, p);
    assert |w| >= k - 1 && forall i :: 0 <= i < k - 1 ==> w[i] == l[i];
    assert ([p] + w)[..k] == [p] + l[..k - 1];
  }

  lemma {:induction false} WithoutTail<T>(l: seq<T>, p: T, k: nat)
    requires k <= |l| && p !in l[..k]
    ensures Without(l, p) == l[..k] + Without(l[k..], p)
  {
    if k > 0 {
      assert l[0] in l[..k] && l[..k] == [l[0]] + l[1..][..k - 1];
      WithoutTail(l[1..], p, k - 1);
      assert l[1..][k - 1..] == l[k..];
    } else {
      assert l[0..] == l;
    }
  }

  lemma ReplaceBoth(owner: seq<Page>, r: seq<nat>, l: seq<Page>, k: nat, p: Page)
    requires forall j :: 0 <= j < |r| ==> r[j] < |owner|
    requires |r| == k > 0 && PagesOf(owner, r) == Top(l, k) && r[k - 1] !in r[..k - 1] && p !in Top(l, k)
    ensures PagesOf(owner[r[k - 1] := p], [r[k - 1]] + r[..k - 1]) == Top(Moved(l, p), k)
  {
    TopWithout(l, p, k);
    var after := owner[r[k - 1] := p];
    forall i | 0 <= i < k - 1 ensures after[r[i]] == l[i] {
      assert PagesOf(owner, r)[i] == l[i] && r[i] in r[..k - 1];
    }
  }

  /** A miss with all frames used replaces the last page of the list. */
  lemma FullMissKeepsTop(s: Vm, l: seq<Page>, p: Page, write: bool)
    requires HoldsTop(s, l) && p !in s.store.table && |s.store.owner| == s.config.frames
    ensures HoldsTop(PageFault(s, p, write).0, Moved(l, p))
  {
    var k := s.config.frames;
    ResidentIsTop(s, l, p);
    FirstPlace(s.rep.recency, k - 1);
    ReplaceBoth(s.store.owner, s.rep.recency, l, k, p);
    WithoutDistinct(l, p);
  }

  lemma AccessKeepsTop(s: Vm, l: seq<Page>, p: Page, write: bool)
    requires HoldsTop(s, l)
    ensures HoldsTop(Access(s, p, write).0, Moved(l, p))
    ensures Access(s, p, write).2 <==> p in Top(l, s.config.frames)
  {
    ResidentIsTop(s, l, p);
    if p in s.store.table {
      HitKeepsTop(s, l, p, write);
    } else if |s.store.owner| < s.config.frames {
      FreeMissKeepsTop(s, l, p, write);
    } else {
      FullMissKeepsTop(s, l, p, write);
    }
  }

  /** With full memory, a miss evicts the last page of the list. */
  lemma FullMissEvictsLast(s: Vm, l: seq<Page>, p: Page, write: bool)
    requires HoldsTop(s, l) && p !in s.store.table && |s.store.owner| == s.config.frames
    ensures |l| >= s.config.frames && l[s.config.frames - 1] in s.store.table
    ensures Access(s, p, write).0.store.table.Keys == s.store.table.Keys - {l[s.config.frames - 1]} + {p}
  {
    var k := s.config.frames;
    AccessKeepsTop(s, l, p, write);
    ResidentIsTop(s, l, p);
    TopWithout(l, p, k);
    var t := Access(s, p, write).0;
    forall q ensures q in t.store.table <==> (q in s.store.table && q != l[k - 1]) || q == p {
      ResidentIsTop(s, l, q);
      ResidentIsTop(t, Moved(l, p), q);
      assert l[..k] == l[..k - 1] + [l[k - 1]];
    }
    ResidentIsTop(s, l, l[k - 1]);
  }

  // ---- whole runs ----

  /** The stack after a run of the driver that starts from stack `l`. */
  function StackAfter(c: Config, l: seq<Page>, qs: seq<Request>): seq<Page>
    decreases |qs|
  {
    if qs == [] then l
    else if qs[0].pid >= c.maxPid then StackAfter(c, l, qs[1..])
    else if !Reaches(c, qs[0]) then l
    else if qs[0].kind != 'R' && qs[0].kind != 'W' then Moved(l, PageOf(qs[0]))
    else StackAfter(c, Moved(l, PageOf(qs[0])), qs[1..])
  }

  /** It is the recency stack of everything translated. */
  lemma {:induction false} StackIsRecent(c: Config, done: seq<Page>, qs: seq<Request>)
    ensures StackAfter(c, Recent(done), qs) == Recent(done + Touches(c, qs))
    decreases |qs|
  {
    if qs == [] || (qs[0].pid < c.maxPid && !Reaches(c, qs[0])) {
      assert done + [] == done;
    } else if qs[0].pid >= c.maxPid {
      StackIsRecent(c, done, qs[1..]);
    } else {
      var p := PageOf(qs[0]);
      assert (done + [p])[..|done|] == done;
      assert Recent(done + [p]) == Moved(Recent(done), p);
      if qs[0].kind == 'R' || qs[0].kind == 'W' {
        StackIsRecent(c, done + [p], qs[1..]);
        assert done + [p] + Touches(c, qs[1..]) == done + ([p] + Touches(c, qs[1..]));
      }
    }
  }

  lemma ServeKeepsTop(s: Vm, l: seq<Page>, q: Request)
    requires HoldsTop(s, l)
    ensures HoldsTop(Serve(s, q).0, if Reaches(s.config, q) then Moved(l, PageOf(q)) else l)
  {
    if Reaches(s.config, q) {
      AccessKeepsTop(s, l, PageOf(q), q.kind == 'W');
    }
  }

  lemma {:induction false} RunKeepsTop(s: Vm, l: seq<Page>, qs: seq<Request>)
    requires HoldsTop(s, l)
    ensures HoldsTop(Run(s, qs).0, StackAfter(s.config, l, qs))
    decreases |qs|
  {
    hide Access, PolicyReady, TablesInverse, PagesOf, Distinct;
    if qs != [] {
      ServeKeepsTop(s, l, qs[0]);
      var (t, r) := Serve(s, qs[0]);
      if Continues(r) {
        RunKeepsTop(t, if Reaches(s.config, qs[0]) then Moved(l, PageOf(qs[0])) else l, qs[1..]);
      }
    }
  }

  lemma InitHoldsTop(c: Config)
    requires c.policy == Lru && c.frames > 0
    ensures HoldsTop(Init(c), [])
  {
  }

  /** The list after any requests holds the top of the recency stack of what they translated. */
  lemma RunHoldsRecent(c: Config, qs: seq<Request>)
    requires c.policy == Lru && c.frames > 0
    ensures HoldsTop(Run(Init(c), qs).0, Recent(Touches(c, qs)))
  {
    InitHoldsTop(c);
    RunKeepsTop(Init(c), [], qs);
    StackIsRecent(c, [], qs);
    assert [] + Touches(c, qs) == Touches(c, qs);
  }

  /**
   After any requests, the LRU list holds the pages with the `frames` latest last uses, latest first.
   */
  lemma LruHoldsMostRecent(c: Config, qs: seq<Request>)
    requires c.policy == Lru && c.frames > 0 && RunsThrough(Init(c), qs)
    ensures var s := Run(Init(c), qs).0;
            RecencyLists(s.rep.recency, |s.store.owner|) &&
            PagesOf(s.store.owner, s.rep.recency) == Top(Recent(Touches(c, qs)), c.frames)
  {
    RunHoldsRecent(c, qs);
  }

  /** `victim` is the resident page that was used longest ago. */
  ghost predicate OldestResident(s: Vm, trace: seq<Page>, victim: Page) {
    && victim in trace && victim in s.store.table
    && forall q :: q in s.store.table ==> q in trace && LastUse(trace, victim) <= LastUse(trace, q)
  }

  /**
   After any requests, a fault with all frames in use evicts the resident page whose last use among
   everything translated so far is the oldest, and no other.
   */
  lemma {:induction false} LruEvictsOldest(c: Config, qs: seq<Request>, p: Page, write: bool) returns (victim: Page)
    requires c.policy == Lru && c.frames > 1
    ensures var s := Run(Init(c), qs).0;
            p !in s.store.table && |s.store.owner| == c.frames ==>
              && OldestResident(s, Touches(c, qs), victim)
              && Access(s, p, write).0.store.table.Keys == s.store.table.Keys - {victim} + {p}
  {
    hide Access, Run, Recent, LastUse, Touches;
    RunHoldsRecent(c, qs);
    var s, trace := Run(Init(c), qs).0, Touches(c, qs);
    var l, k := Recent(trace), c.frames;
    victim := p;
    if p !in s.store.table && |s.store.owner| == k {
      FullMissEvictsLast(s, l, p, write);
      RecentOrdersByLastUse(trace);
      victim := l[k - 1];
      forall q | q in s.store.table ensures q in trace && LastUse(trace, victim) <= LastUse(trace, q) {
        ResidentIsTop(s, l, q);
        var i :| 0 <= i < k && l[i] == q;
      }
    }
  }

  // ---- one frame ----

  predicate AllSame(pages: seq<Page>) {
    forall i, j :: 0 <= i < |pages| && 0 <= j < |pages| ==> pages[i] == pages[j]
  }

  /** With one frame, LRU goes on from page to page until the first one that differs. */
  lemma {:induction false} OneFrameRunsIff(s: Vm, l: seq<Page>, qs: seq<Request>)
    requires HoldsTop(s, l) && s.config.frames == 1 && |l| <= 1
    ensures RunsThrough(s, qs) <==> AllSame(l + Touches(s.config, qs))
    decreases |qs|
  {
    hide Access, PolicyReady, TablesInverse;
    if qs == [] {
      assert l + [] == l;
    } else if Reaches(s.config, qs[0]) {
      OneFrameServe(s, l, qs[0]);
      var p, t := PageOf(qs[0]), Serve(s, qs[0]).0;
      var rest := if Continues(Serve(s, qs[0]).1) then Touches(s.config, qs[1..]) else [];
      assert Touches(s.config, qs) == [p] + rest;
      OneMore(l, p, rest);
      if !FollowsNull(s, qs[0]) {
        assert l == [] || l == [p];
        if Continues(Serve(s, qs[0]).1) {
          OneFrameRunsIff(t, [p], qs[1..]);
        }
      }
    } else if qs[0].pid >= s.config.maxPid {
      OneFrameRunsIff(s, l, qs[1..]);
    } else {
      assert l + [] == l;
    }
  }

  lemma OneFrameServe(s: Vm, l: seq<Page>, q: Request)
    requires HoldsTop(s, l) && s.config.frames == 1 && |l| <= 1 && Reaches(s.config, q)
    ensures FollowsNull(s, q) <==> l != [] && l[0] != PageOf(q)
    ensures !FollowsNull(s, q) ==> HoldsTop(Serve(s, q).0, [PageOf(q)]) && Serve(s, q).0.config == s.config
    ensures Continues(Serve(s, q).1) <==> q.kind == 'R' || q.kind == 'W'
  {
    hide Access;
    ServeKeepsTop(s, l, q);
    ResidentIsTop(s, l, PageOf(q));
    var (t, f, hit) := Access(s, PageOf(q), q.kind == 'W');
    FinishHits(t, f, hit, q);
    assert Without<Page>([], PageOf(q)) == [] && Without([PageOf(q)], PageOf(q)) == [];
  }

  lemma OneMore(l: seq<Page>, p: Page, rest: seq<Page>)
    requires |l| <= 1
    ensures AllSame(l + ([p] + rest)) <==> (l == [] || l == [p]) && AllSame([p] + rest)
    ensures AllSame([p])
  {
    var a, b := l + ([p] + rest), [p] + rest;
    assert forall i :: 0 <= i < |b| ==> b[i] == a[|l| + i];
    if l == [] {
      assert a == b;
    } else {
      assert a[0] == l[0] && a[1] == p && b[0] == p;
      assert forall i :: 0 < i < |a| ==> a[i] == b[i - 1];
    }
  }

  /** The program follows a null pointer exactly under LRU, with one frame, when it translates two different pages. */
  lemma {:induction false} RunsThroughIff(c: Config, qs: seq<Request>)
    requires c.frames > 0
    ensures RunsThrough(Init(c), qs) <==> c.policy != Lru || c.frames > 1 || AllSame(Touches(c, qs))
  {
    hide RunsThrough;
    if Supported(c) {
      SupportedRunsThrough(Init(c), qs);
    } else {
      InitHoldsTop(c);
      OneFrameRunsIff(Init(c), [], qs);
      assert [] + Touches(c, qs) == Touches(c, qs);
    }
  }

  // ---- inclusion ----

  predicate IsHit(r: Response) {
    (r.ReadByte? || r.Wrote?) && r.hit
  }

  ghost predicate Nested(s: Vm, t: Vm, l: seq<Page>) {
    HoldsTop(s, l) && HoldsTop(t, l) && s.config.(frames := t.config.frames) == t.config &&
      s.config.frames <= t.config.frames
  }

  ghost predicate MissesApart(s: Vm, t: Vm, u: Vm, v: Vm) {
    u.stats.misses - s.stats.misses >= v.stats.misses - t.stats.misses
  }

  lemma AccessNested(s: Vm, t: Vm, l: seq<Page>, p: Page, write: bool)
    requires Nested(s, t, l)
    ensures Access(s, p, write).2 ==> Access(t, p, write).2
    ensures MissesApart(s, t, Access(s, p, write).0, Access(t, p, write).0)
  {
    ResidentIsTop(s, l, p);
    ResidentIsTop(t, l, p);
    assert p in Top(l, s.config.frames) ==> p in Top(l, t.config.frames);
  }

  lemma ServeNested(s: Vm, t: Vm, l: seq<Page>, q: Request)
    requires Nested(s, t, l)
    ensures Nested(Serve(s, q).0, Serve(t, q).0, if Reaches(s.config, q) then Moved(l, PageOf(q)) else l)
  {
    ServeKeepsTop(s, l, q);
    ServeKeepsTop(t, l, q);
  }

  lemma ServeHitsApart(s: Vm, t: Vm, l: seq<Page>, q: Request)
    requires Nested(s, t, l)
    ensures var (u, a) := Serve(s, q);
            var (v, b) := Serve(t, q);
            (Continues(a) <==> Continues(b)) && (IsHit(a) ==> IsHit(b)) && MissesApart(s, t, u, v)
  {
    if Reaches(s.config, q) {
      AccessNested(s, t, l, PageOf(q), q.kind == 'W');
      var (u, f, hit) := Access(s, PageOf(q), q.kind == 'W');
      var (v, g, alsoHit) := Access(t, PageOf(q), q.kind == 'W');
      FinishHits(u, f, hit, q);
      FinishHits(v, g, alsoHit, q);
    }
  }

  lemma FinishHits(t: Vm, f: nat, hit: bool, q: Request)
    requires f < |t.store.mem|
    ensures var (u, a) := Finish(t, f, hit, q);
            u.stats == t.stats && (Continues(a) <==> q.kind == 'R' || q.kind == 'W') &&
              (IsHit(a) <==> Continues(a) && hit)
  {
  }

  lemma {:induction false} RunNested(s: Vm, t: Vm, l: seq<Page>, qs: seq<Request>)
    requires Nested(s, t, l)
    ensures var (u, a) := Run(s, qs);
            var (v, b) := Run(t, qs);
            |a| == |b| && (forall i :: 0 <= i < |a| && IsHit(a[i]) ==> IsHit(b[i])) && MissesApart(s, t, u, v)
    decreases |qs|
  {
    hide Serve, Moved, PolicyReady, TablesInverse, PagesOf, Distinct, IsHit;
    if qs != [] {
      ServeNested(s, t, l, qs[0]);
      ServeHitsApart(s, t, l, qs[0]);
      var u, v := Serve(s, qs[0]).0, Serve(t, qs[0]).0;
      if Continues(Serve(s, qs[0]).1) {
        RunNested(u, v, if Reaches(s.config, qs[0]) then Moved(l, PageOf(qs[0])) else l, qs[1..]);
      }
    }
  }

  /**
   LRU inclusion: on every trace the smaller memory's list is a prefix of the larger one's, every
   hit with fewer frames is a hit with more, and more frames never miss more often.
   */
  lemma LruInclusion(c: Config, more: nat, qs: seq<Request>)
    requires c.policy == Lru && 0 < c.frames <= more && RunsThrough(Init(c), qs)
    ensures var d := c.(frames := more);
            && RunsThrough(Init(d), qs)
            && (var (s, a) := Run(Init(c), qs);
                var (t, b) := Run(Init(d), qs);
                && RecencyLists(s.rep.recency, |s.store.owner|) && RecencyLists(t.rep.recency, |t.store.owner|)
                && PagesOf(s.store.owner, s.rep.recency) <= PagesOf(t.store.owner, t.rep.recency)
                && |a| == |b| && (forall i :: 0 <= i < |a| && IsHit(a[i]) ==> IsHit(b[i]))
                && t.stats.misses <= s.stats.misses)
  {
    hide Run, Recent, Touches, HoldsTop, RunsThrough;
    var d := c.(frames := more);
    InitHoldsTop(c);
    InitHoldsTop(d);
    RunsThroughIff(c, qs);
    RunsThroughIff(d, qs);
    SameTouches(c, d, qs);
    RunNested(Init(c), Init(d), [], qs);
    LruHoldsMostRecent(c, qs);
    LruHoldsMostRecent(d, qs);
  }

  lemma {:induction false} SameTouches(c: Config, d: Config, qs: seq<Request>)
    requires c.maxPid == d.maxPid && c.maxVpn == d.maxVpn
    ensures Touches(c, qs) == Touches(d, qs)
    decreases |qs|
  {
    if qs != [] {
      SameTouches(c, d, qs[1..]);
    }
  }
}
