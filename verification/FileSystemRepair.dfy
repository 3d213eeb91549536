/**
 The checker: when the free counts do not agree with the bitmaps, both bitmaps are cleared and
 rebuilt by walking the directories from the root with an explicit stack.
 */
module FileSystemRepair {
  import opened Sequences
  import opened Bitmaps
  import opened FileSystemModel
  import opened FileSystemInvariant
  import opened FileSystemGrowth
  import opened FileSystemRemoval
  import opened FileSystemRuns
  import opened FileSystemTree
  import opened FileSystemImage
  import opened FileSystemMachine

  const STACK: nat := 5000

  /** The test the checker makes. */
  predicate Damaged(t: Fs) {
    CountFalse(t.blockMap) != t.freeBlocks || CountFalse(t.inodeMap) != t.freeInodes
  }

  /** `t` is `s` with other bitmaps. */
  ghost predicate OtherMaps(s: Fs, t: Fs) {
    |t.inodeMap| == |s.inodeMap| && |t.blockMap| == |s.blockMap| &&
      t == s.(inodeMap := t.inodeMap, blockMap := t.blockMap)
  }

  // ---- what the walk has marked ----

  /** The bitmaps are those of the inodes in `marked` and the blocks they own. */
  ghost predicate Marked(s: Fs, g: Tree, t: Fs, marked: set<nat>) {
    && OtherMaps(s, t)
    && (forall i :: i in marked ==> Live(s, i))
    && (forall i: nat :: i < |t.inodeMap| ==> (t.inodeMap[i] <==> i in marked))
    && (forall b :: 0 <= b < |t.blockMap| ==>
        (t.blockMap[b] <==> b < RESERVED || (b in g.owner && g.owner[b] in marked)))
  }

  lemma MarkOne(s: Fs, g: Tree, t: Fs, marked: set<nat>, i: nat, u: Fs)
    requires InvBy(s, g) && Marked(s, g, t, marked) && Live(s, i)
    requires u == t.(blockMap := PutAll(t.blockMap, Owned(s.disk, InodeAt(s, i)), true),
             inodeMap := Put(t.inodeMap, i, true))
    ensures Marked(s, g, u, marked + {i})
  {
    hide OwnersRight, BlocksRight, FilesRight, DirsRight, LinksRight, Owned, PutAll;
    var bs := Owned(s.disk, InodeAt(s, i));
    OwnedAreOwners(s, g, i);
    forall b | 0 <= b < |u.blockMap|
      ensures u.blockMap[b] <==> b < RESERVED || (b in g.owner && g.owner[b] in marked + {i})
    {
      PutAllAt(t.blockMap, bs, true, b);
    }
  }

  /** With every live inode marked, the bitmaps are those of the undamaged state. */
  lemma AllMarked(s: Fs, g: Tree, t: Fs, marked: set<nat>)
    requires InvBy(s, g) && Marked(s, g, t, marked) && forall i: nat :: Live(s, i) ==> i in marked
    ensures t == s
  {
    hide FilesRight, DirsRight, LinksRight, Owned;
    assert t.inodeMap == s.inodeMap;
    forall b | 0 <= b < |s.blockMap| ensures t.blockMap[b] == s.blockMap[b] {
      if b in g.owner { assert Live(s, g.owner[b]); }
    }
    assert t.blockMap == s.blockMap;
  }

  // ---- the walk ----

  /** All entries of `d` before `k` are marked. */
  ghost predicate MarkedTo(s: Fs, marked: set<nat>, d: nat, k: nat) {
    forall m: nat :: m < k && m < |Dir(s, d).slots| ==> Dir(s, d).slots[m].inode in marked
  }

  /** No directory is in two places. */
  ghost predicate SeenOnce(done: seq<nat>, stack: seq<nat>) {
    Distinct(done) && Distinct(stack) && forall x :: x in stack ==> x !in done
  }

  /**
   Between two directories: each directory seen is done or on the stack, once; what is directly
   below a directory that is done has been seen; and the entries of those that are done are marked.
   */
  ghost predicate Walk(s: Fs, g: Tree, done: seq<nat>, stack: seq<nat>, marked: set<nat>) {
    && SeenOnce(done, stack) && (ROOT in done || ROOT in stack)
    && (forall x :: x in done || x in stack ==> LiveDir(s, x) && (x != ROOT ==> x in g.up && g.up[x] in done))
    && (forall x :: LiveDir(s, x) && x in g.up && g.up[x] in done ==> x in done || x in stack)
    && (forall d :: d in done ==> MarkedTo(s, marked, d, Dir(s, d).numEntry))
  }

  /** Entry `m` of `d` names directory `x`. */
  ghost predicate Child(s: Fs, d: nat, m: nat, x: nat) {
    Dots(d) <= m < |Dir(s, d).slots| && Dir(s, d).slots[m].inode == x
  }

  /** The same while directory `d` is being read and its entries before `k` have been seen. */
  ghost predicate Scan(s: Fs, g: Tree, done: seq<nat>, stack: seq<nat>, marked: set<nat>, d: nat, k: nat) {
    && SeenOnce(done, stack) && d !in done && d !in stack && (ROOT in done || ROOT in stack || ROOT == d)
    && LiveDir(s, d) && (d != ROOT ==> d in g.up && g.up[d] in done)
    && (forall x :: x in done ==> LiveDir(s, x) && (x != ROOT ==> x in g.up && g.up[x] in done))
    && (forall x :: x in stack ==>
          LiveDir(s, x) &&
          (x != ROOT ==> x in g.up && (g.up[x] in done || (g.up[x] == d && ChildBefore(s, d, k, x)))))
    && (forall x :: LiveDir(s, x) && x in g.up && g.up[x] in done ==> x in done || x in stack || x == d)
    && (forall x: nat :: ChildBefore(s, d, k, x) && LiveDir(s, x) ==> x in stack)
    && (forall e :: e in done ==> MarkedTo(s, marked, e, Dir(s, e).numEntry))
    && MarkedTo(s, marked, d, k)
  }

  /** An entry of `d` before `k`, not a dot entry, names `x`. */
  ghost predicate ChildBefore(s: Fs, d: nat, k: nat, x: nat) {
    exists m: nat :: m < k && Child(s, d, m, x)
  }

  lemma StartScan(s: Fs, g: Tree, done: seq<nat>, stack: seq<nat>, marked: set<nat>, d: nat)
    requires Walk(s, g, done, stack + [d], marked)
    ensures Scan(s, g, done, stack, marked, d, 0)
  {
    hide LiveDir, Dir, Child;
    var a := stack + [d];
    assert forall i :: 0 <= i < |stack| ==> a[i] == stack[i] && a[|stack|] == d;
    assert d in a;
  }

  /** The entry at `k` is not a directory to push: it is a dot entry or names a file. */
  lemma ScanOver(s: Fs, g: Tree, done: seq<nat>, stack: seq<nat>, marked: set<nat>, d: nat, k: nat, i: nat)
    requires Scan(s, g, done, stack, marked, d, k) && k < |Dir(s, d).slots| && Dir(s, d).slots[k].inode == i
    requires k < Dots(d) || !LiveDir(s, i)
    ensures Scan(s, g, done, stack, marked + {i}, d, k + 1)
  {
    hide LiveDir, Dir;
  }

  lemma ScanPush(s: Fs, g: Tree, done: seq<nat>, stack: seq<nat>, marked: set<nat>, d: nat, k: nat, i: nat)
    requires InvBy(s, g) && Scan(s, g, done, stack, marked, d, k) && Child(s, d, k, i) && k < Dir(s, d).numEntry &&
             LiveDir(s, i)
    ensures Scan(s, g, done, stack + [i], marked + {i}, d, k + 1)
  {
    hide InvBy, Dir, LiveDir, Child, ChildBefore, MarkedTo;
    NotSeenBefore(s, g, done, stack, marked, d, k, i);
    ChildStep(s, d, k, i);
    MarkedGrows(s, marked, i);
    var after := stack + [i];
    assert SeenOnce(done, after) && i in after && (forall x :: x in stack ==> x in after);
  }

  lemma MarkedGrows(s: Fs, marked: set<nat>, i: nat)
    ensures forall d, k :: MarkedTo(s, marked, d, k) ==> MarkedTo(s, marked + {i}, d, k)
  {
  }

  /** The children before `k + 1` are those before `k` and the one at `k`. */
  lemma ChildStep(s: Fs, d: nat, k: nat, i: nat)
    requires Child(s, d, k, i)
    ensures forall x: nat :: ChildBefore(s, d, k + 1, x) <==> ChildBefore(s, d, k, x) || x == i
    ensures forall marked :: MarkedTo(s, marked, d, k) ==> MarkedTo(s, marked + {i}, d, k + 1)
  {
    forall x: nat ensures ChildBefore(s, d, k + 1, x) <==> ChildBefore(s, d, k, x) || x == i {
      if m: nat :| m < k && Child(s, d, m, x) { assert m < k + 1; }
    }
  }

  /** A directory about to be pushed has not been seen: it has one name, and this is it. */
  lemma NotSeenBefore(s: Fs, g: Tree, done: seq<nat>, stack: seq<nat>, marked: set<nat>, d: nat, k: nat, i: nat)
    requires InvBy(s, g) && Scan(s, g, done, stack, marked, d, k) && Child(s, d, k, i) && k < Dir(s, d).numEntry &&
             LiveDir(s, i)
    ensures i !in done && i !in stack && i != d && i in g.up && g.up[i] == d
  {
    hide InvBy, Dir, LiveDir, Child;
    ChildFacts(s, g, d, k, i);
    forall m: nat | m < k ensures !Child(s, d, m, i) {
      ChildOnce(s, g, d, m, k, i);
    }
    assert !ChildBefore(s, d, k, i);
  }

  lemma ChildFacts(s: Fs, g: Tree, d: nat, k: nat, i: nat)
    requires InvBy(s, g) && LiveDir(s, d) && Child(s, d, k, i) && k < Dir(s, d).numEntry
    ensures Live(s, i) && i != ROOT && i != d && i in g.up && g.up[i] == d
  {
    hide OwnersRight, BlocksRight, FilesRight, Sized, DotsRight, CStr;
    assert DirRight(s, g, d);
    assert EntryRight(s, g, Dir(s, d).slots[k], d);
    assert LinkRight(s, g, i);
  }

  /** One entry names a directory. */
  lemma OneNameOnly(s: Fs, g: Tree, i: nat)
    requires InvBy(s, g) && LiveDir(s, i) && i != ROOT
    ensures i in g.up && Links(Dir(s, g.up[i]), Dots(g.up[i]), i) == 1
  {
    hide OwnersRight, BlocksRight, FilesRight, Sized, DirsRight, Count, Dir;
    assert LinkRight(s, g, i);
  }

  /** No earlier entry names the same directory. */
  lemma ChildOnce(s: Fs, g: Tree, d: nat, m: nat, k: nat, i: nat)
    requires InvBy(s, g) && LiveDir(s, d) && LiveDir(s, i) && m < k < Dir(s, d).numEntry && Child(s, d, k, i)
    ensures !Child(s, d, m, i)
  {
    hide InvBy, LiveDir, Dir, Count, CStr;
    ChildFacts(s, g, d, k, i);
    OneNameOnly(s, g, i);
    DirectoriesLead(s, g, d);
    var l, from := Dir(s, d), Dots(d);
    NamedChild(l, from, k, i);
    if m >= from {
      NamedChild(l, from, m, l.slots[m].inode);
      OnlyOnce(Named(l, from), k - from, m - from, i);
    }
  }

  lemma NamedChild(l: Dentry, from: nat, k: nat, i: nat)
    requires from <= k < l.numEntry <= |l.slots| && l.slots[k].inode == i
    ensures |Named(l, from)| > k - from && Named(l, from)[k - from] == i
  {
  }

  lemma EndScan(s: Fs, g: Tree, done: seq<nat>, stack: seq<nat>, marked: set<nat>, d: nat)
    requires InvBy(s, g) && Scan(s, g, done, stack, marked, d, Dir(s, d).numEntry)
    ensures Walk(s, g, done + [d], stack, marked)
  {
    hide InvBy, Dir;
    forall x | LiveDir(s, x) && x in g.up && g.up[x] in done + [d] ensures x in done + [d] || x in stack {
      if g.up[x] == d && x != ROOT {
        var m := NamedAt(s, g, d, x);
      }
    }
  }

  /** Where a directory names something below it. */
  lemma NamedAt(s: Fs, g: Tree, d: nat, x: nat) returns (m: nat)
    requires InvBy(s, g) && Live(s, x) && x != ROOT && x in g.up && g.up[x] == d
    ensures LiveDir(s, d) && m < Dir(s, d).numEntry && Child(s, d, m, x)
  {
    hide InvBy;
    AboveNames(s, g, x);
    var xs := Named(Dir(s, d), Dots(d));
    var j :| 0 <= j < |xs| && xs[j] == x;
    m := Dots(d) + j;
  }

  // ---- bounds ----

  /** Distinct numbers below `n` are at most `n`. */
  lemma {:induction false} Pigeonhole(xs: seq<int>, n: nat)
    requires Distinct(xs) && forall k :: 0 <= k < |xs| ==> 0 <= xs[k] < n
    ensures |xs| <= n
    decreases n
  {
    if n == 0 {
      assert xs == [];
    } else {
      WithoutDistinct(xs, n - 1);
      var rest := Without(xs, n - 1);
      forall k | 0 <= k < |rest| ensures 0 <= rest[k] < n - 1 {
        var x := rest[k];
        assert x in rest;
      }
      Pigeonhole(rest, n - 1);
    }
  }

  /** Directories done and on the stack are at most as many as there are inodes. */
  lemma StackBound(s: Fs, done: seq<nat>, stack: seq<nat>)
    requires Sized(s) && SeenOnce(done, stack) && forall x :: x in done || x in stack ==> LiveDir(s, x)
    ensures |done| + |stack| <= |s.inodes|
  {
    var xs := done + stack;
    forall k | 0 <= k < |xs| ensures xs[k] < |s.inodes| {
      assert k < |done| ==> xs[k] == done[k];
      assert k >= |done| ==> xs[k] == stack[k - |done|];
      var x := xs[k];
      assert x in done || x in stack;
    }
    forall i, j | 0 <= i < j < |xs| ensures xs[i] != xs[j] {
      assert i < |done| <= j ==> xs[j] in stack && xs[i] in done;
    }
    Pigeonhole(xs, |s.inodes|);
  }

  lemma WalkBound(s: Fs, g: Tree, done: seq<nat>, stack: seq<nat>, marked: set<nat>)
    requires InvBy(s, g) && Walk(s, g, done, stack, marked)
    ensures |done| + |stack| <= |s.inodes|
  {
    hide OwnersRight, BlocksRight, FilesRight, DirsRight, LinksRight, LiveDir, SeenOnce;
    StackBound(s, done, stack);
  }

  lemma ScanBound(s: Fs, g: Tree, done: seq<nat>, stack: seq<nat>, marked: set<nat>, d: nat, k: nat)
    requires InvBy(s, g) && Scan(s, g, done, stack, marked, d, k)
    ensures |done| + 1 + |stack| <= |s.inodes|
  {
    hide OwnersRight, BlocksRight, FilesRight, DirsRight, LinksRight, LiveDir;
    StackBound(s, done + [d], stack);
  }

  // ---- when the stack is empty ----

  /** Every directory has been read. */
  lemma {:induction false} AllDone(s: Fs, g: Tree, done: seq<nat>, marked: set<nat>, x: nat)
    requires InvBy(s, g) && Walk(s, g, done, [], marked) && LiveDir(s, x) && (x == ROOT || x in g.depth)
    ensures x in done
    decreases if x == ROOT then 0 else g.depth[x] + 1
  {
    hide InvBy, Dir;
    if x != ROOT {
      AboveNames(s, g, x);
      AllDone(s, g, done, marked, g.up[x]);
    }
  }

  /** Every live inode has been marked: its directory names it, or it is the root, which names itself. */
  lemma LiveIsMarked(s: Fs, g: Tree, done: seq<nat>, marked: set<nat>, i: nat)
    requires InvBy(s, g) && Walk(s, g, done, [], marked) && Live(s, i)
    ensures i in marked
  {
    hide InvBy, Dir;
    var d := ROOT;
    if i != ROOT {
      AboveNames(s, g, i);
      d := g.up[i];
      var m := NamedAt(s, g, d, i);
    } else {
      RootIsDir(s, g);
    }
    AllDone(s, g, done, marked, d);
    DirectoriesLead(s, g, d);
  }

  lemma WalkFinds(s: Fs, g: Tree, t: Fs, done: seq<nat>, marked: set<nat>)
    requires InvBy(s, g) && Marked(s, g, t, marked) && Walk(s, g, done, [], marked)
    ensures t == s && Distinct(done) && forall d :: d in done <==> LiveDir(s, d)
  {
    hide InvBy, Dir, Marked;
    forall i: nat | Live(s, i) ensures i in marked {
      LiveIsMarked(s, g, done, marked, i);
    }
    AllMarked(s, g, t, marked);
    forall d: nat | LiveDir(s, d) ensures d in done {
      if d != ROOT { AboveNames(s, g, d); }
      AllDone(s, g, done, marked, d);
    }
  }

  // ---- the program ----

  /** The loops that count clear bits. */
  method CountClear(m: Bitmap) returns (n: nat)
    ensures n == CountFalse(m.View())
  {
    hide BitOf, Bits;
    n := 0;
    for i := 0 to 8 * m.bytes.Length
      invariant |m.View()| == 8 * m.bytes.Length && n == CountFalse(m.View()[..i])
    {
      assert m.View()[..i + 1] == m.View()[..i] + [m.View()[i]];
      CountFalseAppend(m.View()[..i], m.View()[i]);
      if !m.GetBit(i) {
        n := n + 1;
      }
    }
    assert m.View()[..|m.View()|] == m.View();
  }

  /** The loops that clear a whole bitmap. */
  method ClearAll(m: Bitmap)
    modifies m.bytes
    ensures |m.View()| == old(|m.View()|) && forall i :: 0 <= i < |m.View()| ==> !m.View()[i]
  {
    hide BitOf, Bits;
    for i := 0 to 8 * m.bytes.Length
      invariant |m.View()| == 8 * m.bytes.Length && forall j :: 0 <= j < i ==> !m.View()[j]
    {
      m.SetBit(i, 0);
    }
  }

  /** An inode whose pointers are all there and in range. */
  ghost predicate Walkable(t: Fs, f: Inode) {
    && f.blockCount > 0 && |f.direct| == (if f.blockCount > DIRECT then DIRECT else f.blockCount)
    && (f.blockCount > DIRECT ==> |PointersAt(t.disk, f.indirect)| == f.blockCount - DIRECT)
    && (forall k :: 0 <= k < |Owned(t.disk, f)| ==> 0 <= Owned(t.disk, f)[k] < |t.blockMap|)
  }

  lemma LiveIsWalkable(s: Fs, g: Tree, t: Fs, i: nat)
    requires InvBy(s, g) && OtherMaps(s, t) && Live(s, i)
    ensures i < |s.inodes| == |s.inodeMap| && Walkable(t, s.inodes[i])
  {
    hide OwnersRight, BlocksRight, DotsRight, EntriesRight, LinksRight, PointersAt, Contents, Readable;
    OwnedAreOwners(s, g, i);
    var o := Owned(s.disk, InodeAt(s, i));
    forall k | 0 <= k < |o| ensures 0 <= o[k] < |t.blockMap| {
      var b := o[k];
      assert b in o;
    }
    if LiveDir(s, i) {
      assert DirRight(s, g, i);
    } else {
      assert FileRight(s, i);
      LargeIffIndirect(InodeAt(s, i).size);
    }
  }

  method SetBlockBit(v: Volume, b: nat)
    requires v.Valid() && b < |v.fs.blockMap|
    modifies v`fs, v.blockMap.bytes
    ensures v.Valid() && v.fs == old(v.fs).(blockMap := Put(old(v.fs).blockMap, b, true))
  {
    hide BitOf, Bits, Bitmap.View, Shaped;
    v.InRange();
    v.blockMap.SetBit(b, 1);
    v.fs := v.fs.(blockMap := v.fs.blockMap[b := true]);
  }

  method SetInodeBit(v: Volume, i: nat)
    requires v.Valid() && i < |v.fs.inodeMap|
    modifies v`fs, v.inodeMap.bytes
    ensures v.Valid() && v.fs == old(v.fs).(inodeMap := Put(old(v.fs).inodeMap, i, true))
  {
    hide BitOf, Bits, Bitmap.View, Shaped;
    v.InRange();
    v.inodeMap.SetBit(i, 1);
    v.fs := v.fs.(inodeMap := v.fs.inodeMap[i := true]);
  }

  /** `helper`: the bits of every block of an inode. */
  method Helper(v: Volume, f: Inode)
    requires v.Valid() && Walkable(v.fs, f)
    modifies v`fs, v.blockMap.bytes
    ensures v.Valid() && v.fs == old(v.fs).(blockMap := PutAll(old(v.fs).blockMap, Owned(old(v.fs).disk, f), true))
  {
    hide Volume.Valid, PutAll, Put, PointersAt;
    ghost var t, o := v.fs, Owned(v.fs.disk, f);
    PutNothing(t.blockMap);
    var j := 0;
    while j < f.blockCount && j < DIRECT
      invariant 0 <= j <= f.blockCount && j <= DIRECT && v.Valid()
      invariant v.fs == t.(blockMap := PutAll(t.blockMap, o[..j], true))
    {
      PutOneMore(t.blockMap, o, j);
      SetBlockBit(v, f.direct[j]);
      j := j + 1;
    }
    if f.blockCount > DIRECT {
      var from := v.ReadPointers(f.indirect);
      PutOneMore(t.blockMap, o, |o| - 1);
      j := 0;
      SetBlockBit(v, f.indirect);
      while j < f.blockCount - DIRECT
        invariant 0 <= j <= f.blockCount - DIRECT && v.Valid()
        invariant v.fs == t.(blockMap := Put(PutAll(t.blockMap, o[..DIRECT + j], true), f.indirect, true))
      {
        PutOneMore(t.blockMap, o, DIRECT + j);
        PutCommutes(PutAll(t.blockMap, o[..DIRECT + j], true), f.indirect, from[j]);
        SetBlockBit(v, from[j]);
        j := j + 1;
      }
      assert o[..|o| - 1] == o[..DIRECT + j] && o[..|o|] == o;
    } else {
      assert o[..j] == o;
    }
  }

  lemma PutNothing(m: seq<bool>)
    ensures PutAll(m, [], true) == m
  {
  }

  lemma PutOneMore(m: seq<bool>, o: seq<int>, j: nat)
    requires j < |o|
    ensures PutAll(m, o[..j + 1], true) == Put(PutAll(m, o[..j], true), o[j], true)
  {
    assert o[..j + 1][..j] == o[..j];
  }

  lemma PutCommutes(m: seq<bool>, a: int, b: int)
    ensures Put(Put(m, a, true), b, true) == Put(Put(m, b, true), a, true)
  {
  }

  /**
   The entry at `k` of directory `d`: a directory is pushed unless it is a dot entry, and the inode
   and its blocks are marked.
   */
  method ReadEntry(v: Volume, e: Entry, dir: array<nat>, p: int) returns (q: int)
    requires v.Valid() && e.inode < |v.fs.inodes| == |v.fs.inodeMap| && Walkable(v.fs, v.fs.inodes[e.inode])
    requires -1 <= p < dir.Length - 1 && dir as object !in v.Arrays()
    modifies v`fs, v.inodeMap.bytes, v.blockMap.bytes, dir
    ensures v.Valid()
    ensures v.fs == old(v.fs).(blockMap := PutAll(old(v.fs).blockMap,
                                                  Owned(old(v.fs).disk, old(v.fs).inodes[e.inode]), true),
                               inodeMap := Put(old(v.fs).inodeMap, e.inode, true))
    ensures if CStr(e.name) != DOT && CStr(e.name) != DOTDOT && old(v.fs).inodes[e.inode].kind == Directory
            then q == p + 1 && dir[..q + 1] == old(dir[..p + 1]) + [e.inode]
            else q == p && dir[..q + 1] == old(dir[..p + 1])
  {
    hide Volume.Valid, CStr, PutAll, Put, Owned, Walkable;
    v.Known();
    q := p;
    var n := v.inode[e.inode];
    if !(CStr(e.name) == DOT || CStr(e.name) == DOTDOT) && n.kind == Directory {
      q := q + 1;
      dir[q] := e.inode;
    }
    Helper(v, n);
    SetInodeBit(v, e.inode);
  }

  /** Whether the walk pushes entry `e`. */
  predicate Pushed(s: Fs, e: Entry) {
    CStr(e.name) != DOT && CStr(e.name) != DOTDOT && InodeAt(s, e.inode).kind == Directory
  }

  /** An entry of a directory names a live inode, and it is pushed exactly when it names a directory below. */
  lemma EntryFacts(s: Fs, g: Tree, d: nat, k: nat)
    requires InvBy(s, g) && LiveDir(s, d) && k < Dir(s, d).numEntry
    ensures k < |Dir(s, d).slots|
    ensures var e := Dir(s, d).slots[k]; Live(s, e.inode) && (Pushed(s, e) <==> k >= Dots(d) && LiveDir(s, e.inode))
  {
    hide OwnersRight, BlocksRight, FilesRight, LinksRight, CStr;
    DirectoriesLead(s, g, d);
    assert DirRight(s, g, d);
    if k >= Dots(d) {
      assert EntryRight(s, g, Dir(s, d).slots[k], d);
    } else if k == 1 {
      NamesLive(s, Dir(s, d).slots[1].inode, d);
    }
  }

  lemma EntryStep(s: Fs, g: Tree, t: Fs, done: seq<nat>, stack: seq<nat>, marked: set<nat>, d: nat, k: nat, u: Fs)
    requires InvBy(s, g) && Marked(s, g, t, marked) && Scan(s, g, done, stack, marked, d, k) && LiveDir(s, d) &&
             k < Dir(s, d).numEntry
    requires k < |Dir(s, d).slots|
    requires var i := Dir(s, d).slots[k].inode;
             u == t.(blockMap := PutAll(t.blockMap, Owned(s.disk, InodeAt(s, i)), true),
               inodeMap := Put(t.inodeMap, i, true))
    ensures var e := Dir(s, d).slots[k];
            && Marked(s, g, u, marked + {e.inode})
            && Scan(s, g, done, if Pushed(s, e) then stack + [e.inode] else stack, marked + {e.inode}, d, k + 1)
  {
    hide InvBy, Marked, Scan, Dir, PutAll, Put, Owned, Pushed;
    EntryFacts(s, g, d, k);
    var e := Dir(s, d).slots[k];
    MarkOne(s, g, t, marked, e.inode, u);
    if Pushed(s, e) {
      ScanPush(s, g, done, stack, marked, d, k, e.inode);
    } else {
      ScanOver(s, g, done, stack, marked, d, k, e.inode);
    }
  }

  lemma ScanDir(s: Fs, g: Tree, done: seq<nat>, stack: seq<nat>, marked: set<nat>, d: nat, k: nat)
    requires Scan(s, g, done, stack, marked, d, k)
    ensures LiveDir(s, d)
  {
  }

  /** Where the walk starts: the root on the stack, nothing but the reserved blocks marked. */
  lemma WalkStarts(s: Fs, g: Tree, t: Fs)
    requires InvBy(s, g) && OtherMaps(s, t)
    requires (forall i :: 0 <= i < |t.inodeMap| ==> !t.inodeMap[i]) &&
             (forall b :: 0 <= b < |t.blockMap| ==> (t.blockMap[b] <==> b < RESERVED))
    ensures Marked(s, g, t, {}) && Walk(s, g, [], [ROOT], {})
  {
    hide OwnersRight, BlocksRight, FilesRight, DirsRight, LinksRight, Sized;
  }

  /** On a saved disk every directory's block holds its entries. */
  lemma SavedListing(s: Fs, g: Tree, t: Fs, d: nat)
    requires InvBy(s, g) && Saved(s) == s && OtherMaps(s, t) && LiveDir(s, d)
    ensures t.inodes == s.inodes && d < |s.inodes| && |s.inodes[d].direct| == 1 &&
            ListingAt(t.disk, s.inodes[d].direct[0]) == Dir(s, d)
  {
    hide OwnersRight, BlocksRight, FilesRight, LinksRight, Sized, EntriesRight, DotsRight;
    HereIsOnly(s, g, d);
    assert Saved(s).disk == s.disk;
  }

  lemma MarkedSame(s: Fs, g: Tree, t: Fs, marked: set<nat>)
    requires Marked(s, g, t, marked)
    ensures OtherMaps(s, t)
  {
  }

  /** The traversal: from the root on the stack to the empty stack. */
  method Traverse(v: Volume, ghost s: Fs, ghost g: Tree) returns (ghost done: seq<nat>)
    requires v.Valid() && InvBy(s, g) && Saved(s) == s && |s.inodes| <= STACK
    requires Marked(s, g, v.fs, {}) && Walk(s, g, [], [ROOT], {})
    modifies v`fs, v.inodeMap.bytes, v.blockMap.bytes
    ensures v.Valid() && v.fs == s
    ensures Distinct(done) && forall d :: d in done <==> LiveDir(s, d)
  {
    hide Volume.Valid, InvBy, Walk, Scan, Marked, PutAll, Put, Owned, Dir, CStr, ListingAt, Walkable,
         OtherMaps, Saved, LiveDir;
    var dir := new nat[STACK];
    var p := 0;
    dir[0] := ROOT;
    ghost var marked: set<nat> := {};
    done := [];
    assert dir[..p + 1] == [ROOT];
    WalkBound(s, g, [], [ROOT], {});
    while p >= 0
      invariant -1 <= p < STACK && v.Valid() && Marked(s, g, v.fs, marked)
      invariant Walk(s, g, done, dir[..p + 1], marked)
      invariant |done| + p + 1 <= |s.inodes|
      decreases |s.inodes| - |done|
    {
      var d := dir[p];
      assert dir[..p + 1] == dir[..p] + [d];
      StartScan(s, g, done, dir[..p], marked, d);
      ScanDir(s, g, done, dir[..p], marked, d, 0);
      p := p - 1;
      p, marked := ReadDirectory(v, s, g, d, dir, p, done, marked);
      EndScan(s, g, done, dir[..p + 1], marked, d);
      ScanBound(s, g, done, dir[..p + 1], marked, d, Dir(s, d).numEntry);
      done := done + [d];
    }
    assert dir[..p + 1] == [];
    WalkFinds(s, g, v.fs, done, marked);
  }

  /** The loop over the entries of directory `d`. */
  method ReadDirectory(v: Volume, ghost s: Fs, ghost g: Tree, d: nat, dir: array<nat>, p: int,
          ghost done: seq<nat>, ghost marked: set<nat>)
    returns (q: int, ghost after: set<nat>)
    requires v.Valid() && InvBy(s, g) && Saved(s) == s && LiveDir(s, d) && dir.Length == STACK >= |s.inodes| &&
             dir as object !in v.Arrays()
    requires -1 <= p < STACK && Marked(s, g, v.fs, marked) && Scan(s, g, done, dir[..p + 1], marked, d, 0)
    modifies v`fs, v.inodeMap.bytes, v.blockMap.bytes, dir
    ensures v.Valid() && -1 <= q < STACK && Marked(s, g, v.fs, after) &&
            Scan(s, g, done, dir[..q + 1], after, d, Dir(s, d).numEntry)
  {
    hide Volume.Valid, InvBy, Scan, Marked, PutAll, Put, Owned, Dir, CStr, ListingAt, Walkable, OtherMaps,
         Saved, LiveDir;
    v.Known();
    q, after := p, marked;
    MarkedSame(s, g, v.fs, after);
    SavedListing(s, g, v.fs, d);
    SameInodes(s, v.fs);
    var den := v.ReadListing(v.inode[d].direct[0]);
    var i := 0;
    while i < den.numEntry
      invariant 0 <= i <= den.numEntry && -1 <= q < STACK && v.Valid()
      invariant Marked(s, g, v.fs, after) && Scan(s, g, done, dir[..q + 1], after, d, i)
    {
      ghost var t, stack := v.fs, dir[..q + 1];
      EntryFacts(s, g, d, i);
      MarkedSame(s, g, t, after);
      SameInodes(s, t);
      LiveIsWalkable(s, g, t, den.slots[i].inode);
      ScanBound(s, g, done, stack, after, d, i);
      q := ReadEntry(v, den.slots[i], dir, q);
      EntryStep(s, g, t, done, stack, after, d, i, v.fs);
      after := after + {den.slots[i].inode};
      i := i + 1;
    }
  }

  lemma SameInodes(s: Fs, t: Fs)
    requires OtherMaps(s, t)
    ensures t.inodes == s.inodes && t.disk == s.disk && |t.inodeMap| == |s.inodeMap|
  {
  }

  /** Both bitmaps are cleared, the reserved blocks are set again, and the walk starts. */
  method Rebuild(v: Volume, ghost s: Fs, ghost g: Tree) returns (ghost done: seq<nat>)
    requires v.Valid() && InvBy(s, g) && Saved(s) == s && OtherMaps(s, v.fs)
    requires |s.inodes| <= STACK && 8 * RESERVED <= |s.blockMap|
    modifies v`fs, v.inodeMap.bytes, v.blockMap.bytes
    ensures v.Valid() && v.fs == s
    ensures Distinct(done) && forall d :: d in done <==> LiveDir(s, d)
  {
    hide InvBy, Volume.Valid, LiveDir, Saved, Walk, Marked;
    ClearMaps(v);
    v.ClearInodeBits();
    v.ReserveBlocks();
    WalkStarts(s, g, v.fs);
    done := Traverse(v, s, g);
  }

  method ClearMaps(v: Volume)
    requires v.Valid()
    modifies v`fs, v.inodeMap.bytes, v.blockMap.bytes
    ensures v.Valid() && OtherMaps(old(v.fs), v.fs)
    ensures (forall i :: 0 <= i < |v.fs.inodeMap| ==> !v.fs.inodeMap[i]) &&
            (forall b :: 0 <= b < |v.fs.blockMap| ==> !v.fs.blockMap[b])
  {
    hide Bits, BitOf, Bitmap.View, Shaped;
    ClearAll(v.blockMap);
    ClearAll(v.inodeMap);
    v.fs := v.fs.(inodeMap := v.inodeMap.View(), blockMap := v.blockMap.View());
  }

  /**
   `correct`, on the image of a file system `s` whose bitmaps have been overwritten in any way.  If
   a count no longer agrees, the walk reads each directory of the tree once and leaves exactly the
   bitmaps of `s`; otherwise nothing is changed.
   */
  method Correct(v: Volume, ghost s: Fs) returns (ghost done: seq<nat>)
    requires v.Valid() && Inv(s) && Saved(s) == s && OtherMaps(s, v.fs)
    requires |s.inodes| <= STACK && 8 * RESERVED <= |s.blockMap|
    modifies v`fs, v.inodeMap.bytes, v.blockMap.bytes
    ensures v.Valid() && v.fs == if Damaged(old(v.fs)) then s else old(v.fs)
    ensures v.fs == s <==> Damaged(old(v.fs)) || old(v.fs) == s
    ensures Damaged(old(v.fs)) ==> Distinct(done) && forall d :: d in done <==> LiveDir(s, d)
  {
    hide InvBy, Bits, BitOf, Shaped, CountFalse, Saved, LiveDir, OtherMaps;
    done := [];
    var iCount := CountClear(v.inodeMap);
    var bCount := CountClear(v.blockMap);
    if bCount != v.freeBlockCount || iCount != v.freeInodeCount {
      ghost var g :| InvBy(s, g);
      done := Rebuild(v, s, g);
    }
  }

  /** An image in which the two blocks that hold the bitmaps have been overwritten. */
  function Overwritten(image: seq<Block>, inodeBits: seq<bool>, blockBits: seq<bool>): seq<Block>
    requires |image| >= RESERVED
  {
    image[1 := Flags(inodeBits)][2 := Flags(blockBits)]
  }

  /**
   The checker's theorem applies to every image whose bitmaps have been overwritten: mounted, it is
   the saved file system that was unmounted, but for the bitmaps in memory and their blocks.
   */
  lemma {:induction false} OverwrittenImageMounts(s: Fs, inodeBits: seq<bool>, blockBits: seq<bool>)
    requires Inv(s) && Layout(s) && |inodeBits| == |s.inodeMap| && |blockBits| == |s.blockMap|
    ensures Mountable(Image(s)) && Mountable(Overwritten(Image(s), inodeBits, blockBits))
    ensures var e := Overwritten(Image(s), inodeBits, blockBits);
            var intact, t := Mounted(Image(s)).(disk := e), Mounted(e);
            && Inv(intact) && Saved(intact) == intact && OtherMaps(intact, t)
            && t.inodeMap == inodeBits && t.blockMap == blockBits
            && intact.inodeMap == s.inodeMap && intact.blockMap == s.blockMap && intact.inodes == s.inodes
            && (forall d :: LiveDir(s, d) ==> Dir(intact, d) == Dir(s, d))
  {
    hide InvBy, Image, Contents;
    var g :| InvBy(s, g);
    RemountKeepsInv(s, g);
    SizesMatch(s, g);
    InHeader(1);
    InHeader(2);
    HeaderIsNobodys(Mounted(Image(s)), g.(here := ROOT), Overwritten(Image(s), inodeBits, blockBits));
  }

  lemma SizesMatch(s: Fs, g: Tree)
    requires InvBy(s, g)
    ensures |s.inodeMap| == |s.inodes| && |s.blockMap| == |s.disk|
  {
  }

  /** Writing to the header of a saved disk touches no inode and no directory. */
  lemma HeaderIsNobodys(s: Fs, g: Tree, e: seq<Block>)
    requires InvBy(s, g) && Saved(s) == s && SameOutside(s.disk, e, Header())
    ensures InvBy(s.(disk := e), g) && Saved(s.(disk := e)) == s.(disk := e)
    ensures forall d :: LiveDir(s, d) ==> Dir(s.(disk := e), d) == Dir(s, d)
  {
    hide OwnersRight, BlocksRight, FilesRight, DirsRight, LinksRight, EntriesRight, DotsRight, Contents, CStr;
    var t := s.(disk := e);
    HereHasDepth(s, g);
    HereDots(s, g);
    forall d | LiveDir(s, d) ensures DirInodeRight(t, d) && Dir(t, d) == Dir(s, d) {
      OwnsBeyondHeader(s, g, d);
      HereIsOnly(s, g, d);
      InHeader(DirBlock(InodeAt(s, d)));
    }
    OwnsBeyondHeader(s, g, g.here);
    InHeader(s.curBlock);
    assert s.disk == Saved(s).disk;
    assert SameOutside(s.disk, e, [s.curBlock] + Header()) by {
      forall b | 0 <= b < |e| && b !in [s.curBlock] + Header() ensures e[b] == s.disk[b] {
        assert b !in Header();
      }
    }
    EnteredKeepsInv(s, g, g.here, t);
    assert t.disk[t.curBlock] == Listing(t.cur);
  }

  /** What the checker sees, exactly: damage that changes how many bits are clear in either bitmap. */
  lemma {:induction false} SeenIff(s: Fs, t: Fs)
    requires Inv(s) && OtherMaps(s, t)
    ensures Damaged(t) <==>
              CountFalse(t.inodeMap) != CountFalse(s.inodeMap) || CountFalse(t.blockMap) != CountFalse(s.blockMap)
  {
    hide OwnersRight, BlocksRight, FilesRight, DirsRight, LinksRight, RootRight, HereRight, CountFalse;
    var g :| InvBy(s, g);
    assert Sized(s);
  }

  /** So a single wrong bit, in either bitmap, is always seen and repaired. */
  lemma {:induction false} OneFlipIsSeen(s: Fs, i: nat, b: nat)
    requires Inv(s) && i < |s.inodeMap| && b < |s.blockMap|
    ensures Damaged(s.(inodeMap := s.inodeMap[i := !s.inodeMap[i]]))
    ensures Damaged(s.(blockMap := s.blockMap[b := !s.blockMap[b]]))
  {
    hide Inv, CountFalse;
    CountFalseUpdate(s.inodeMap, i, !s.inodeMap[i]);
    CountFalseUpdate(s.blockMap, b, !s.blockMap[b]);
    SeenIff(s, s.(inodeMap := s.inodeMap[i := !s.inodeMap[i]]));
    SeenIff(s, s.(blockMap := s.blockMap[b := !s.blockMap[b]]));
  }

  /** Damage that keeps both counts is not seen: in any state, swap a set bit with a clear one. */
  lemma {:induction false} SwapEscapes(s: Fs, b: nat, c: nat)
    requires Inv(s) && b < |s.blockMap| && c < |s.blockMap| && s.blockMap[b] && !s.blockMap[c]
    ensures var t := s.(blockMap := s.blockMap[b := false][c := true]); OtherMaps(s, t) && !Damaged(t) && t != s
  {
    hide OwnersRight, BlocksRight, FilesRight, DirsRight, LinksRight, RootRight, HereRight;
    var m := s.blockMap;
    CountFalseUpdate(m, b, false);
    CountFalseUpdate(m[b := false], c, true);
    assert m[b := false][c := true][b] != m[b];
  }
}
